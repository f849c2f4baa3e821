/**
 * Derivation of the generated property's name from the field's name
 * (`GetPropertyName`): the first lower-case character is upper-cased and
 * everything before it is dropped; a name with no lower-case character yields
 * a fixed placeholder.
 */
module Naming {
  import opened Wrappers
  import opened Strings

  const Fallback: string := "NoLetterCanUppercase"

  /** Index of the first lower-case character of `s` at or after `i`, if any. */
  function FirstLowerFrom(s: string, i: nat): (r: Option<nat>)
    requires i <= |s|
    ensures r.Some? ==> i <= r.value < |s| && IsLower(s[r.value])
    ensures r.Some? ==> forall j :: i <= j < r.value ==> !IsLower(s[j])
    ensures r.None? ==> forall j :: i <= j < |s| ==> !IsLower(s[j])
    decreases |s| - i
  {
    if i == |s| then None
    else if IsLower(s[i]) then Some(i)
    else FirstLowerFrom(s, i + 1)
  }

  /** True when `i` is the index of the first lower-case character of `s`. */
  predicate FirstLowerAt(s: string, i: int) {
    0 <= i < |s| && IsLower(s[i]) && forall j :: 0 <= j < i ==> !IsLower(s[j])
  }

  /** The property name generated for a field named `fieldName`. */
  function PropertyName(fieldName: string): (r: string)
    ensures (forall j :: 0 <= j < |fieldName| ==> !IsLower(fieldName[j])) ==> r == Fallback
    ensures forall i :: FirstLowerAt(fieldName, i) ==>
      |r| == |fieldName| - i && r == [ToUpper(fieldName[i])] + fieldName[i + 1..]
  {
    match FirstLowerFrom(fieldName, 0)
    case Some(i) => [ToUpper(fieldName[i])] + fieldName[i + 1..]
    case None => Fallback
  }

  /** Either branch gives a non-empty name that starts with an upper-case letter. */
  lemma PropertyNameStartsUpper(fieldName: string)
    ensures |PropertyName(fieldName)| > 0 && IsUpper(PropertyName(fieldName)[0])
  {
    match FirstLowerFrom(fieldName, 0)
    case Some(i) =>
      assert FirstLowerAt(fieldName, i);
    case None =>
  }

  /** The derived name keeps the field's tail: no brace is introduced into it. */
  lemma PropertyNameNoBraces(fieldName: string)
    requires NoBraces(fieldName)
    ensures NoBraces(PropertyName(fieldName))
  {
    match FirstLowerFrom(fieldName, 0)
    case Some(i) =>
      assert FirstLowerAt(fieldName, i);
      var r := PropertyName(fieldName);
      forall k | 0 <= k < |r| ensures r[k] != '{' && r[k] != '}' {
        if k > 0 { assert r[k] == fieldName[i + k]; }
      }
    case None =>
  }

  /** `_myHealth` becomes `MyHealth`: the `_` prefix is dropped. */
  lemma PropertyNameDropsPrefix()
    ensures PropertyName("_myHealth") == "MyHealth"
    ensures PropertyName("_body") == "Body"
  {
    var s := "_myHealth";
    assert FirstLowerAt(s, 1);
    assert s[2..] == "yHealth";
    var t := "_body";
    assert FirstLowerAt(t, 1);
    assert t[2..] == "ody";
  }

  /** A name that already starts in lower case is only capitalised. */
  lemma PropertyNameCapitalises()
    ensures PropertyName("x") == "X"
    ensures PropertyName("already") == "Already"
  {
    assert FirstLowerAt("x", 0);
    var s := "already";
    assert FirstLowerAt(s, 0);
    assert s[1..] == "lready";
  }

  /** Names without a lower-case letter, the empty one included, get the fallback. */
  lemma PropertyNameFallbackExamples()
    ensures PropertyName("ABC") == Fallback
    ensures PropertyName("") == Fallback
    ensures PropertyName("_42") == Fallback
  {
    var s := "ABC";
    assert forall j :: 0 <= j < |s| ==> !IsLower(s[j]);
    var t := "_42";
    assert forall j :: 0 <= j < |t| ==> !IsLower(t[j]);
  }

  /**
   * The derivation is not idempotent: applied to its own result it drops the
   * leading capital.
   */
  lemma PropertyNameNotIdempotent()
    ensures PropertyName("body") == "Body"
    ensures PropertyName("Body") == "Ody"
    ensures PropertyName(PropertyName("body")) != PropertyName("body")
  {
    var s := "body";
    assert FirstLowerAt(s, 0);
    assert s[1..] == "ody";
    var t := "Body";
    assert FirstLowerAt(t, 1);
    assert t[2..] == "dy";
  }

  /** A derived name can coincide with the fallback, so the result alone does not tell the branches apart. */
  lemma DerivedNameCanEqualFallback()
    ensures PropertyName("noLetterCanUppercase") == Fallback
  {
    var s := "noLetterCanUppercase";
    assert FirstLowerAt(s, 0);
    assert s[1..] == "oLetterCanUppercase";
    assert ToUpper(s[0]) == 'N';
    assert ['N'] + "oLetterCanUppercase" == Fallback;
  }
}
