/** String helpers standing in for the .NET `string` and `char` members the generator calls. */
module Strings {

  /** `s.EndsWith(suffix)` with ordinal comparison. */
  predicate EndsWith(s: string, suffix: string) {
    |suffix| <= |s| && s[|s| - |suffix|..] == suffix
  }

  /** `char.IsLower`, restricted to ASCII. */
  predicate IsLower(c: char) {
    'a' <= c <= 'z'
  }

  predicate IsUpper(c: char) {
    'A' <= c <= 'Z'
  }

  /** `char.ToUpper`, restricted to ASCII: lower-case letters map to upper case, all else is kept. */
  function ToUpper(c: char): (r: char)
    ensures IsLower(c) ==> IsUpper(r) && r as int == c as int - 32
    ensures !IsLower(c) ==> r == c
  {
    if IsLower(c) then (c as int - 32) as char else c
  }

  /** True when `s` contains neither `{` nor `}`. */
  predicate NoBraces(s: string) {
    '{' !in s && '}' !in s
  }

  /**
   * The key under which `StringComparer.OrdinalIgnoreCase` compares: every
   * character upper-cased, restricted to ASCII.
   */
  function FoldCase(s: string): string {
    seq(|s|, i requires 0 <= i < |s| => ToUpper(s[i]))
  }

  lemma FoldCaseAppend(a: string, b: string)
    ensures FoldCase(a + b) == FoldCase(a) + FoldCase(b)
  {
  }
}
