/**
 * Synthesis of one `partial` class per owner type (`ProcessClass`): a namespace
 * header when the owner is not in the global namespace, a class header, one
 * cached accessor per field in input order, and the matching closers.
 */
module Synthesis {
  import opened Wrappers
  import opened Strings
  import opened Facts
  import opened GetFrom
  import opened Naming

  // The fixed pieces of the generated text.

  const NamespaceKeyword: string := "namespace "
  const ClassKeyword: string := "public partial class "
  const OpenBlock: string := "\n{\n"
  const CloseClass: string := "\n}\n"
  const CloseNamespace: string := "}\n"
  const AccessorStart: string := "\n    private "
  const Arrow: string := " => "
  const NullTest: string := " is null \n                ? ("
  const Assign: string := " = "
  const OtherwiseCached: string := "\n                : "
  const Semicolon: string := ";"
  const GetComponent: string := "GetComponent<"
  const GetComponentInChildren: string := "GetComponentInChildren<"
  const GetComponentInParent: string := "GetComponentInParent<"
  const GetComponents: string := "GetComponents<"
  const GetComponentsInChildren: string := "GetComponentsInChildren<"
  const GetComponentsInParent: string := "GetComponentsInParent<"
  const NoArguments: string := ">())"
  const IncludeInactive: string := ">(true))"

  /** The element type's name: the display string without a trailing `[]`. */
  function RowClassName(className: string): (r: string)
    ensures EndsWith(className, "[]") ==> r + "[]" == className
    ensures !EndsWith(className, "[]") ==> r == className
  {
    if EndsWith(className, "[]") then className[..|className| - 2] else className
  }

  /**
   * Appends the lookup call for a field, chosen by the source's chain of tests on
   * `from` and array-ness; the call also closes the assignment's parenthesis.
   */
  function AppendCall(acc: string, from: Flags, isArray: bool, className: string, rowClassName: string): string {
    if from == This && !isArray then acc + GetComponent + className + NoArguments
    else if from == Children && !isArray then acc + GetComponentInChildren + className + IncludeInactive
    else if from == Parent && !isArray then acc + GetComponentInParent + className + IncludeInactive
    else if from == This && isArray then acc + GetComponents + rowClassName + NoArguments
    else if from == Children && isArray then acc + GetComponentsInChildren + rowClassName + IncludeInactive
    else if from == Parent && isArray then acc + GetComponentsInParent + rowClassName + IncludeInactive
    else acc + GetComponent + className + NoArguments
  }

  // Reference definition of the strategy table: where to look, singular or plural,
  // and which type argument.

  datatype Scope = Self | Descendants | Ancestors

  function ScopeOf(from: Flags): Option<Scope> {
    if from == This then Some(Self)
    else if from == Children then Some(Descendants)
    else if from == Parent then Some(Ancestors)
    else None
  }

  /** `GetComponent[s][InChildren|InParent]<`: singular or plural, and where to look. */
  function CallName(scope: Scope, plural: bool): string {
    "GetComponent" + (if plural then "s" else "")
    + (match scope case Self => "" case Descendants => "InChildren" case Ancestors => "InParent")
    + "<"
  }

  /** `>(...))`: outside `Self` the call passes `true` (include inactive objects); the last `)` closes the assignment. */
  function CallClose(scope: Scope): string {
    ">(" + (if scope == Self then "" else "true") + "))"
  }

  function CallText(scope: Scope, plural: bool, typeArgument: string): string {
    CallName(scope, plural) + typeArgument + CallClose(scope)
  }

  /** The strategy table: one of the three members selects scope and plurality; anything else is the scalar self lookup of the full type. */
  function ReferenceCall(from: Flags, isArray: bool, className: string): string {
    match ScopeOf(from)
    case Some(scope) => CallText(scope, isArray, if isArray then RowClassName(className) else className)
    case None => CallText(Self, false, className)
  }

  lemma CallNamesMatchTable()
    ensures CallName(Self, false) == GetComponent && CallName(Self, true) == GetComponents
    ensures CallName(Descendants, false) == GetComponentInChildren && CallName(Descendants, true) == GetComponentsInChildren
    ensures CallName(Ancestors, false) == GetComponentInParent && CallName(Ancestors, true) == GetComponentsInParent
    ensures CallClose(Self) == NoArguments && CallClose(Descendants) == IncludeInactive && CallClose(Ancestors) == IncludeInactive
  {
  }

  /** The appended call follows the strategy table for every value and array-ness. */
  lemma AppendCallFollowsTable(acc: string, from: Flags, isArray: bool, className: string)
    ensures AppendCall(acc, from, isArray, className, RowClassName(className)) == acc + ReferenceCall(from, isArray, className)
  {
    CallNamesMatchTable();
    var row := RowClassName(className);
    var r := AppendCall(acc, from, isArray, className, row);
    if from == This {
      var t := if isArray then row else className;
      assert r == acc + CallName(Self, isArray) + t + CallClose(Self);
    } else if from == Children {
      var t := if isArray then row else className;
      assert r == acc + CallName(Descendants, isArray) + t + CallClose(Descendants);
    } else if from == Parent {
      var t := if isArray then row else className;
      assert r == acc + CallName(Ancestors, isArray) + t + CallClose(Ancestors);
    } else {
      assert r == acc + CallName(Self, false) + className + CallClose(Self);
    }
  }

  /** Any value other than exactly one member (zero, a union) gets the scalar self lookup of the full type name, `[]` included. */
  lemma FallbackIgnoresArrayness(acc: string, from: Flags, isArray: bool, className: string)
    requires !IsMember(from)
    ensures AppendCall(acc, from, isArray, className, RowClassName(className)) == acc + GetComponent + className + NoArguments
  {
  }

  /** An array field of `Foo` looked up in the children gets the plural call on `Foo`, never the scalar one on `Foo[]`. */
  lemma ArrayOfChildrenExample()
    ensures AppendCall("", Children, true, "Foo[]", RowClassName("Foo[]")) == "GetComponentsInChildren<Foo>(true))"
  {
    assert EndsWith("Foo[]", "[]");
    assert RowClassName("Foo[]") == "Foo";
  }

  /** Appends the accessor of one field: a property that fills the field on first read. */
  function AppendAccessor(acc: string, d: Descriptor): string {
    var className := d.field.typeName;
    var f := d.field.name;
    var head := acc + AccessorStart + className + " " + PropertyName(f) + Arrow + f + NullTest + f + Assign;
    AppendCall(head, d.from, d.field.isArray, className, RowClassName(className)) + OtherwiseCached + f + Semicolon
  }

  /** Appends the accessors of `fields`, in order. */
  function AppendAccessors(acc: string, fields: seq<Descriptor>): string {
    if fields == [] then acc else AppendAccessor(AppendAccessors(acc, fields[..|fields| - 1]), fields[|fields| - 1])
  }

  function NamespaceOpen(owner: Owner): string {
    match owner.ns
    case None => ""
    case Some(ns) => NamespaceKeyword + ns + OpenBlock
  }

  function ClassOpen(owner: Owner): string {
    ClassKeyword + owner.name + OpenBlock
  }

  /** The source text generated for `owner` from its fields. */
  function ClassText(owner: Owner, fields: seq<Descriptor>): string {
    var text := AppendAccessors(NamespaceOpen(owner) + ClassOpen(owner), fields) + CloseClass;
    if owner.ns.Some? then text + CloseNamespace else text
  }

  /** Builds the class text by appending to a buffer, one accessor per field. */
  method ProcessClass(owner: Owner, fields: seq<Descriptor>) returns (text: string)
    ensures text == ClassText(owner, fields)
  {
    var namespaceName := if owner.ns.None? then "" else NamespaceKeyword + owner.ns.value + OpenBlock;
    var classDeclaration := ClassKeyword + owner.name + OpenBlock;
    var builder := "";
    builder := builder + namespaceName;
    builder := builder + classDeclaration;
    assert builder == NamespaceOpen(owner) + ClassOpen(owner);
    for i := 0 to |fields|
      invariant builder == AppendAccessors(NamespaceOpen(owner) + ClassOpen(owner), fields[..i])
    {
      var field := fields[i].field;
      var from := fields[i].from;
      var className := field.typeName;
      var propertyName := PropertyName(field.name);
      var isArray := field.isArray;
      var rowClassName := className;
      if EndsWith(className, "[]") {
        rowClassName := className[..|className| - 2];
      }
      builder := builder + AccessorStart + className + " " + propertyName + Arrow + field.name
        + NullTest + field.name + Assign;
      if from == This && !isArray {
        builder := builder + GetComponent + className + NoArguments;
      } else if from == Children && !isArray {
        builder := builder + GetComponentInChildren + className + IncludeInactive;
      } else if from == Parent && !isArray {
        builder := builder + GetComponentInParent + className + IncludeInactive;
      } else if from == This && isArray {
        builder := builder + GetComponents + rowClassName + NoArguments;
      } else if from == Children && isArray {
        builder := builder + GetComponentsInChildren + rowClassName + IncludeInactive;
      } else if from == Parent && isArray {
        builder := builder + GetComponentsInParent + rowClassName + IncludeInactive;
      } else {
        builder := builder + GetComponent + className + NoArguments;
      }
      builder := builder + OtherwiseCached + field.name + Semicolon;
      assert fields[..i + 1][..i] == fields[..i];
    }
    assert fields[..|fields|] == fields;
    builder := builder + CloseClass;
    if owner.ns.Some? {
      builder := builder + CloseNamespace;
    }
    text := builder;
  }

  /**
   * One accessor block: the property has the field's display type and the derived
   * name, tests the field for null, assigns it the lookup the strategy table selects,
   * and otherwise returns the field.
   */
  lemma AccessorShape(acc: string, d: Descriptor)
    ensures AppendAccessor(acc, d) ==
      acc + AccessorStart + d.field.typeName + " " + PropertyName(d.field.name) + Arrow + d.field.name
      + NullTest + d.field.name + Assign + ReferenceCall(d.from, d.field.isArray, d.field.typeName)
      + OtherwiseCached + d.field.name + Semicolon
  {
    var f := d.field.name;
    var head := acc + AccessorStart + d.field.typeName + " " + PropertyName(f) + Arrow + f + NullTest + f + Assign;
    AppendCallFollowsTable(head, d.from, d.field.isArray, d.field.typeName);
  }

  /** Accessor blocks compose: the fields of `a + b` give `a`'s blocks, then `b`'s, in order. */
  lemma {:induction false} AppendAccessorsConcat(acc: string, a: seq<Descriptor>, b: seq<Descriptor>)
    ensures AppendAccessors(acc, a + b) == AppendAccessors(AppendAccessors(acc, a), b)
    decreases |b|
  {
    if b == [] {
      assert a + b == a;
    } else {
      var b' := b[..|b| - 1];
      assert (a + b)[..|a + b| - 1] == a + b';
      AppendAccessorsConcat(acc, a, b');
    }
  }

  lemma PrefixExtends(a: string, b: string, c: string)
    requires a <= b
    ensures a <= b + c
  {
    assert (b + c)[..|a|] == b[..|a|];
  }

  /** Appending an accessor only extends the buffer: what was there stays a prefix. */
  lemma AppendAccessorExtends(acc: string, d: Descriptor)
    ensures acc <= AppendAccessor(acc, d)
  {
    var c, f := d.field.typeName, d.field.name;
    var s1 := acc + AccessorStart + c + " " + PropertyName(f);
    PrefixExtends(acc, acc, AccessorStart);
    PrefixExtends(acc, acc + AccessorStart, c);
    PrefixExtends(acc, acc + AccessorStart + c, " ");
    PrefixExtends(acc, acc + AccessorStart + c + " ", PropertyName(f));
    var s2 := s1 + Arrow + f + NullTest + f + Assign;
    PrefixExtends(acc, s1, Arrow);
    PrefixExtends(acc, s1 + Arrow, f);
    PrefixExtends(acc, s1 + Arrow + f, NullTest);
    PrefixExtends(acc, s1 + Arrow + f + NullTest, f);
    PrefixExtends(acc, s1 + Arrow + f + NullTest + f, Assign);
    AppendCallFollowsTable(s2, d.from, d.field.isArray, c);
    var s3 := AppendCall(s2, d.from, d.field.isArray, c, RowClassName(c));
    PrefixExtends(acc, s2, ReferenceCall(d.from, d.field.isArray, c));
    PrefixExtends(acc, s3, OtherwiseCached);
    PrefixExtends(acc, s3 + OtherwiseCached, f);
    PrefixExtends(acc, s3 + OtherwiseCached + f, Semicolon);
  }

  /** Appending accessors only extends the buffer. */
  lemma {:induction false} AppendAccessorsExtends(acc: string, fields: seq<Descriptor>)
    ensures acc <= AppendAccessors(acc, fields)
  {
    if fields != [] {
      var p := AppendAccessors(acc, fields[..|fields| - 1]);
      AppendAccessorsExtends(acc, fields[..|fields| - 1]);
      AppendAccessorExtends(p, fields[|fields| - 1]);
    }
  }

  lemma KeywordsDiffer()
    ensures |NamespaceKeyword| > 0 && |ClassKeyword| > 0 && NamespaceKeyword[0] != ClassKeyword[0]
  {
    assert ClassKeyword[0] == 'p' && NamespaceKeyword[0] == 'n';
  }

  /** The class text opens with the namespace header (if any) and the class header. */
  lemma ClassTextOpens(owner: Owner, fields: seq<Descriptor>)
    ensures NamespaceOpen(owner) + ClassOpen(owner) <= ClassText(owner, fields)
  {
    var head := NamespaceOpen(owner) + ClassOpen(owner);
    var body := AppendAccessors(head, fields);
    AppendAccessorsExtends(head, fields);
    PrefixExtends(head, body, CloseClass);
    if owner.ns.Some? {
      PrefixExtends(head, body + CloseClass, CloseNamespace);
    }
  }

  /** The class text closes the class and then, when namespaced, the namespace. */
  lemma ClassTextCloses(owner: Owner, fields: seq<Descriptor>)
    ensures EndsWith(ClassText(owner, fields), if owner.ns.Some? then CloseClass + CloseNamespace else CloseClass)
  {
    var body := AppendAccessors(NamespaceOpen(owner) + ClassOpen(owner), fields);
    var text := ClassText(owner, fields);
    if owner.ns.Some? {
      var tail := CloseClass + CloseNamespace;
      assert text == body + tail;
      assert text[|text| - |tail|..] == tail;
    } else {
      assert text[|text| - |CloseClass|..] == CloseClass;
    }
  }

  /**
   * Layout of the class text: it opens with a namespace header exactly when the
   * owner is not in the global namespace, then the class header; it ends with
   * the class closer followed, when namespaced, by the namespace closer.
   */
  lemma ClassTextLayout(owner: Owner, fields: seq<Descriptor>)
    ensures NamespaceKeyword <= ClassText(owner, fields) <==> owner.ns.Some?
    ensures NamespaceOpen(owner) + ClassOpen(owner) <= ClassText(owner, fields)
    ensures EndsWith(ClassText(owner, fields), if owner.ns.Some? then CloseClass + CloseNamespace else CloseClass)
  {
    ClassTextOpens(owner, fields);
    ClassTextCloses(owner, fields);
    var text := ClassText(owner, fields);
    var head := NamespaceOpen(owner) + ClassOpen(owner);
    KeywordsDiffer();
    if owner.ns.None? {
      assert head == ClassOpen(owner);
      assert text[0] == head[0] == ClassKeyword[0];
    } else {
      var nsHead := NamespaceOpen(owner);
      assert NamespaceKeyword <= nsHead;
      PrefixExtends(NamespaceKeyword, nsHead, ClassOpen(owner));
      assert text[..|head|] == head;
      assert text[..|NamespaceKeyword|] == head[..|NamespaceKeyword|];
    }
  }

  // Brace nesting: `Nest` scans a text and tracks the depth of open braces,
  // failing on a `}` with nothing open.

  function Nest(s: string, depth: nat): Option<nat>
    decreases |s|
  {
    if s == [] then Some(depth)
    else if s[0] == '{' then Nest(s[1..], depth + 1)
    else if s[0] == '}' then (if depth == 0 then None else Nest(s[1..], depth - 1))
    else Nest(s[1..], depth)
  }

  /** Every `}` closes an earlier `{`, and nothing is left open. */
  predicate WellNested(s: string) {
    Nest(s, 0) == Some(0)
  }

  /** Scanning `a + b` is scanning `a`, then `b` from the depth `a` ends at. */
  lemma {:induction false} NestAppend(a: string, b: string, depth: nat)
    ensures Nest(a + b, depth) == match Nest(a, depth) case None => None case Some(e) => Nest(b, e)
    decreases |a|
  {
    if a == [] {
      assert a + b == b;
    } else {
      assert (a + b)[1..] == a[1..] + b;
      assert (a + b)[0] == a[0];
      if a[0] == '{' {
        NestAppend(a[1..], b, depth + 1);
      } else if a[0] == '}' {
        if depth > 0 { NestAppend(a[1..], b, depth - 1); }
      } else {
        NestAppend(a[1..], b, depth);
      }
    }
  }

  lemma {:induction false} NestBraceFree(s: string, depth: nat)
    requires NoBraces(s)
    ensures Nest(s, depth) == Some(depth)
    decreases |s|
  {
    if s != [] {
      assert s[0] in s;
      assert forall c :: c in s[1..] ==> c in s;
      NestBraceFree(s[1..], depth);
    }
  }

  /** A brace-free piece appended to the text leaves its nesting as it was. */
  lemma AppendBraceFree(a: string, b: string)
    requires NoBraces(b)
    ensures Nest(a + b, 0) == Nest(a, 0)
  {
    NestAppend(a, b, 0);
    if Nest(a, 0).Some? { NestBraceFree(b, Nest(a, 0).value); }
  }

  lemma NestOpenBlock(a: string, depth: nat)
    requires Nest(a, 0) == Some(depth)
    ensures Nest(a + OpenBlock, 0) == Some(depth + 1)
  {
    NestAppend(a, OpenBlock, 0);
    assert OpenBlock == "\n" + ("{" + "\n");
    assert Nest("\n", depth + 1) == Some(depth + 1);
  }

  lemma NestCloseBlock(a: string, depth: nat, closer: string)
    requires Nest(a, 0) == Some(depth + 1)
    requires closer == CloseClass || closer == CloseNamespace
    ensures Nest(a + closer, 0) == Some(depth)
  {
    NestAppend(a, closer, 0);
    assert CloseClass == "\n" + ("}" + "\n");
    assert CloseNamespace == "}" + "\n";
    assert Nest("\n", depth) == Some(depth);
  }

  lemma TemplateNoBraces()
    ensures NoBraces(AccessorStart) && NoBraces(Arrow) && NoBraces(" ")
    ensures NoBraces(Assign) && NoBraces(OtherwiseCached) && NoBraces(Semicolon)
  {
  }

  lemma NullTestNoBraces()
    ensures NoBraces(NullTest)
  {
  }

  lemma KeywordsNoBraces()
    ensures NoBraces(NamespaceKeyword) && NoBraces(ClassKeyword)
  {
  }

  lemma ScalarCallsNoBraces()
    ensures NoBraces(GetComponent) && NoBraces(GetComponentInChildren) && NoBraces(GetComponentInParent)
  {
  }

  lemma PluralCallsNoBraces()
    ensures NoBraces(GetComponents) && NoBraces(GetComponentsInChildren) && NoBraces(GetComponentsInParent)
  {
  }

  /** The appended call adds no brace. */
  lemma AppendCallNoBraces(acc: string, from: Flags, isArray: bool, className: string, rowClassName: string)
    requires NoBraces(className) && NoBraces(rowClassName)
    ensures Nest(AppendCall(acc, from, isArray, className, rowClassName), 0) == Nest(acc, 0)
  {
    ScalarCallsNoBraces();
    PluralCallsNoBraces();
    assert NoBraces(NoArguments) && NoBraces(IncludeInactive);
    var name := if from == This && !isArray then GetComponent
      else if from == Children && !isArray then GetComponentInChildren
      else if from == Parent && !isArray then GetComponentInParent
      else if from == This && isArray then GetComponents
      else if from == Children && isArray then GetComponentsInChildren
      else if from == Parent && isArray then GetComponentsInParent
      else GetComponent;
    var t := if IsMember(from) && isArray then rowClassName else className;
    var close := if (from == Children || from == Parent) && (isArray || !isArray) then IncludeInactive else NoArguments;
    assert AppendCall(acc, from, isArray, className, rowClassName) == acc + name + t + close;
    AppendBraceFree(acc, name);
    AppendBraceFree(acc + name, t);
    AppendBraceFree(acc + name + t, close);
  }

  /** An accessor adds no brace when the field's name and type carry none. */
  lemma AppendAccessorNoBraces(acc: string, d: Descriptor)
    requires NoBraces(d.field.name) && NoBraces(d.field.typeName)
    ensures Nest(AppendAccessor(acc, d), 0) == Nest(acc, 0)
  {
    var c, f := d.field.typeName, d.field.name;
    var p := PropertyName(f);
    PropertyNameNoBraces(f);
    TemplateNoBraces();
    NullTestNoBraces();
    assert NoBraces(RowClassName(c));
    var s1 := acc + AccessorStart;
    var s2 := s1 + c;
    var s3 := s2 + " ";
    var s4 := s3 + p;
    var s5 := s4 + Arrow;
    var s6 := s5 + f;
    var s7 := s6 + NullTest;
    var s8 := s7 + f;
    var s9 := s8 + Assign;
    AppendBraceFree(acc, AccessorStart);
    AppendBraceFree(s1, c);
    AppendBraceFree(s2, " ");
    AppendBraceFree(s3, p);
    AppendBraceFree(s4, Arrow);
    AppendBraceFree(s5, f);
    AppendBraceFree(s6, NullTest);
    AppendBraceFree(s7, f);
    AppendBraceFree(s8, Assign);
    var s10 := AppendCall(s9, d.from, d.field.isArray, c, RowClassName(c));
    AppendCallNoBraces(s9, d.from, d.field.isArray, c, RowClassName(c));
    var s11 := s10 + OtherwiseCached;
    var s12 := s11 + f;
    AppendBraceFree(s10, OtherwiseCached);
    AppendBraceFree(s11, f);
    AppendBraceFree(s12, Semicolon);
  }

  lemma {:induction false} AppendAccessorsNoBraces(acc: string, fields: seq<Descriptor>)
    requires forall d :: d in fields ==> NoBraces(d.field.name) && NoBraces(d.field.typeName)
    ensures Nest(AppendAccessors(acc, fields), 0) == Nest(acc, 0)
  {
    if fields != [] {
      var p := fields[..|fields| - 1];
      assert forall d :: d in p ==> d in fields;
      AppendAccessorsNoBraces(acc, p);
      AppendAccessorNoBraces(AppendAccessors(acc, p), fields[|fields| - 1]);
    }
  }

  /** All names that reach the generated text are free of braces. */
  predicate BraceFreeNames(owner: Owner, fields: seq<Descriptor>) {
    NoBraces(owner.name) && (owner.ns.Some? ==> NoBraces(owner.ns.value)) &&
    forall d :: d in fields ==> NoBraces(d.field.name) && NoBraces(d.field.typeName)
  }

  lemma NamespaceOpenNest(owner: Owner)
    requires owner.ns.Some? ==> NoBraces(owner.ns.value)
    ensures Nest(NamespaceOpen(owner), 0) == Some(if owner.ns.Some? then 1 else 0)
  {
    if owner.ns.Some? {
      KeywordsNoBraces();
      AppendBraceFree(NamespaceKeyword, owner.ns.value);
      NestBraceFree(NamespaceKeyword, 0);
      NestOpenBlock(NamespaceKeyword + owner.ns.value, 0);
    } else {
      assert NamespaceOpen(owner) == [];
    }
  }

  /** The headers open one brace for the class and, when namespaced, one for the namespace. */
  lemma HeaderNest(owner: Owner, depth: nat)
    requires NoBraces(owner.name) && (owner.ns.Some? ==> NoBraces(owner.ns.value))
    requires depth == if owner.ns.Some? then 1 else 0
    ensures Nest(NamespaceOpen(owner) + ClassOpen(owner), 0) == Some(depth + 1)
  {
    KeywordsNoBraces();
    var ns := NamespaceOpen(owner);
    NamespaceOpenNest(owner);
    AppendBraceFree(ns, ClassKeyword);
    AppendBraceFree(ns + ClassKeyword, owner.name);
    NestOpenBlock(ns + ClassKeyword + owner.name, depth);
    assert ns + ClassOpen(owner) == ns + ClassKeyword + owner.name + OpenBlock;
  }

  lemma CloseBoth(body: string)
    requires Nest(body, 0) == Some(2)
    ensures Nest(body + CloseClass + CloseNamespace, 0) == Some(0)
  {
    NestCloseBlock(body, 1, CloseClass);
    NestCloseBlock(body + CloseClass, 0, CloseNamespace);
  }

  /** The class text is the accessor buffer followed by the closers. */
  lemma ClassTextSplit(owner: Owner, fields: seq<Descriptor>)
    ensures var body := AppendAccessors(NamespaceOpen(owner) + ClassOpen(owner), fields);
      ClassText(owner, fields) == if owner.ns.Some? then body + CloseClass + CloseNamespace else body + CloseClass
  {
  }

  /** Headers and accessors leave the class (and namespace) open. */
  lemma BodyNest(owner: Owner, fields: seq<Descriptor>)
    requires BraceFreeNames(owner, fields)
    ensures Nest(AppendAccessors(NamespaceOpen(owner) + ClassOpen(owner), fields), 0) == Some(if owner.ns.Some? then 2 else 1)
  {
    var head := NamespaceOpen(owner) + ClassOpen(owner);
    HeaderNest(owner, if owner.ns.Some? then 1 else 0);
    AppendAccessorsNoBraces(head, fields);
  }

  /** The closers then close what the headers opened. */
  lemma ClosersNest(text: string, body: string, namespaced: bool)
    requires text == if namespaced then body + CloseClass + CloseNamespace else body + CloseClass
    requires Nest(body, 0) == Some(if namespaced then 2 else 1)
    ensures Nest(text, 0) == Some(0)
  {
    if namespaced {
      CloseBoth(body);
    } else {
      NestCloseBlock(body, 0, CloseClass);
    }
  }

  /** When no name carries a brace, the class braces (and the namespace braces) balance and nest. */
  lemma ClassTextWellNested(owner: Owner, fields: seq<Descriptor>)
    requires BraceFreeNames(owner, fields)
    ensures WellNested(ClassText(owner, fields))
  {
    BodyNest(owner, fields);
    ClassTextSplit(owner, fields);
    ClosersNest(ClassText(owner, fields), AppendAccessors(NamespaceOpen(owner) + ClassOpen(owner), fields), owner.ns.Some?);
  }

  /**
   * The end-to-end case: `Player` in the global namespace declares `Body _body`
   * taken from itself; the generated class declares `Body Body`, which fills
   * `_body` with `GetComponent<Body>()` when it is null.
   */
  lemma PlayerExample()
    ensures
      var player := Owner(0, "Player", None);
      var body := Descriptor(FieldSymbol("_body", "Body", false, player), This);
      ClassText(player, [body]) ==
        ClassKeyword + "Player" + OpenBlock + AccessorStart + "Body" + " " + "Body" + Arrow + "_body"
        + NullTest + "_body" + Assign + GetComponent + "Body" + NoArguments
        + OtherwiseCached + "_body" + Semicolon + CloseClass
  {
    var player := Owner(0, "Player", None);
    var body := Descriptor(FieldSymbol("_body", "Body", false, player), This);
    PropertyNameDropsPrefix();
    var head := NamespaceOpen(player) + ClassOpen(player);
    assert head == ClassKeyword + "Player" + OpenBlock;
    assert [body][..0] == [];
    assert AppendAccessors(head, [body]) == AppendAccessor(head, body);
    var pre := head + AccessorStart + "Body" + " " + "Body" + Arrow + "_body" + NullTest + "_body" + Assign;
    assert AppendCall(pre, This, false, "Body", RowClassName("Body")) == pre + GetComponent + "Body" + NoArguments;
  }
}
