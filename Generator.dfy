/**
 * One generation pass (`Execute`): every (declaration, attribute) pair the
 * receiver recorded gives one descriptor per declared variable, all with the
 * attribute's `from`; the descriptors are grouped by containing type, and each
 * group becomes one unit named `{Name}.Generated.cs` holding its class text.
 */
module Generator {
  import opened Wrappers
  import opened Facts
  import opened Discovery
  import opened Grouping
  import opened Synthesis
  import opened Strings
  import GetFrom

  /** A source text added to the compilation under a hint name. */
  datatype Unit = Unit(hintName: string, text: string)

  const GeneratedSuffix: string := ".Generated.cs"

  /**
   * The attribute has a first argument with a constant value; otherwise
   * `Arguments[0]` or `Enum.ToObject` throws and the pass fails.
   */
  predicate Resolvable(target: (FieldDeclaration, Attribute)) {
    |target.1.args| > 0 && target.1.args[0].Some?
  }

  /** `Enum.ToObject(typeof(GetFrom), value)`: the constant's bits, whatever they are. */
  function FromOf(attr: Attribute): GetFrom.Flags
    requires |attr.args| > 0 && attr.args[0].Some?
  {
    attr.args[0].value
  }

  function VariableDescriptors(variables: seq<FieldSymbol>, from: GetFrom.Flags): seq<Descriptor> {
    seq(|variables|, k requires 0 <= k < |variables| => Descriptor(variables[k], from))
  }

  /** The working list: one descriptor per variable, declaration by declaration. */
  function Descriptors(targets: seq<(FieldDeclaration, Attribute)>): seq<Descriptor>
    requires forall t :: t in targets ==> Resolvable(t)
  {
    if targets == [] then []
    else
      var last := targets[|targets| - 1];
      assert last in targets;
      assert Resolvable(last);
      assert |last.1.args| > 0;
      Descriptors(targets[..|targets| - 1]) + VariableDescriptors(last.0.variables, FromOf(last.1))
  }

  function HintName(owner: Owner): string {
    owner.name + GeneratedSuffix
  }

  /** The unit for one group: named after the owner, holding its class text. */
  function UnitOf(group: Group): Unit {
    Unit(HintName(group.key), ClassText(group.key, group.members))
  }

  /** `Select` over a sequence, built from the back. */
  function Map<A, B>(f: A -> B, xs: seq<A>): seq<B> {
    if xs == [] then [] else Map(f, xs[..|xs| - 1]) + [f(xs[|xs| - 1])]
  }

  lemma {:induction false} MapIndexed<A, B>(f: A -> B, xs: seq<A>)
    ensures |Map(f, xs)| == |xs|
    ensures forall i :: 0 <= i < |xs| ==> Map(f, xs)[i] == f(xs[i])
  {
    if xs != [] {
      MapIndexed(f, xs[..|xs| - 1]);
    }
  }

  /** The units a pass adds for the receiver's recorded fields. */
  function Generate(targets: seq<(FieldDeclaration, Attribute)>): seq<Unit>
    requires forall t :: t in targets ==> Resolvable(t)
  {
    Map(UnitOf, GroupBy(Descriptors(targets)))
  }

  /**
   * Types whose simple names are equal ignoring case are the same type; otherwise
   * two units get hint names that `AddSource`, which compares hint names with
   * `OrdinalIgnoreCase`, treats as the same, and it throws.
   */
  predicate NamesIdentifyOwners(targets: seq<(FieldDeclaration, Attribute)>) {
    forall t1, t2, v1, v2 ::
      (t1 in targets && t2 in targets && v1 in t1.0.variables && v2 in t2.0.variables &&
       FoldCase(v1.owner.name) == FoldCase(v2.owner.name)) ==> v1.owner == v2.owner
  }

  /** Fills the working list: for each recorded pair, one descriptor per declared variable. */
  method CollectDescriptors(targets: seq<(FieldDeclaration, Attribute)>) returns (fieldSymbols: seq<Descriptor>)
    requires forall t :: t in targets ==> Resolvable(t)
    ensures fieldSymbols == Descriptors(targets)
  {
    fieldSymbols := [];
    for i := 0 to |targets|
      invariant fieldSymbols == Descriptors(targets[..i])
    {
      var (decl, attr) := targets[i];
      assert targets[i] in targets;
      var from := FromOf(attr);
      var variables := decl.variables;
      for j := 0 to |variables|
        invariant fieldSymbols == Descriptors(targets[..i]) + VariableDescriptors(variables[..j], from)
      {
        var parsed := attr.args[0].value;
        fieldSymbols := fieldSymbols + [Descriptor(variables[j], parsed)];
        assert VariableDescriptors(variables[..j + 1], from)
          == VariableDescriptors(variables[..j], from) + [Descriptor(variables[j], parsed)];
      }
      assert variables[..|variables|] == variables;
      ghost var done := targets[..i + 1];
      assert done[..i] == targets[..i] && done[i] == (decl, attr);
      assert Descriptors(done) == Descriptors(targets[..i]) + VariableDescriptors(variables, from);
    }
    assert targets[..|targets|] == targets;
  }

  /** One `ProcessClass` call and one unit per group, in group order. */
  method AddUnits(groups: seq<Group>) returns (units: seq<Unit>)
    ensures units == Map(UnitOf, groups)
  {
    units := [];
    for g := 0 to |groups|
      invariant units == Map(UnitOf, groups[..g])
    {
      var classSource := ProcessClass(groups[g].key, groups[g].members);
      units := units + [Unit(HintName(groups[g].key), classSource)];
      assert groups[..g + 1][..g] == groups[..g];
    }
    assert groups[..|groups|] == groups;
  }

  /**
   * The pass: no receiver, no units; otherwise the units for its recorded fields,
   * which are what the receiver's visits recorded.
   */
  method Execute(receiver: SyntaxReceiver?) returns (units: seq<Unit>)
    requires receiver != null ==> receiver.Valid()
    requires receiver != null ==> forall t :: t in receiver.targetFields ==> Resolvable(t)
    requires receiver != null ==> NamesIdentifyOwners(receiver.targetFields)
    ensures receiver == null ==> units == []
    ensures receiver != null ==> units == Generate(receiver.targetFields)
    ensures receiver != null ==> units == Generate(RecordedAll(receiver.visited))
  {
    if receiver == null {
      return [];
    }
    var fieldSymbols := CollectDescriptors(receiver.targetFields);
    var groups := GroupBy(fieldSymbols);
    units := AddUnits(groups);
  }

  function VariableCount(targets: seq<(FieldDeclaration, Attribute)>): nat {
    if targets == [] then 0 else VariableCount(targets[..|targets| - 1]) + |targets[|targets| - 1].0.variables|
  }

  /**
   * The working list holds one descriptor per declared variable: each descriptor
   * comes from a variable of a recorded declaration with that declaration's `from`,
   * and every variable of every recorded declaration is there with it.
   */
  lemma {:induction false} DescriptorsFromDeclarations(targets: seq<(FieldDeclaration, Attribute)>)
    requires forall t :: t in targets ==> Resolvable(t)
    ensures |Descriptors(targets)| == VariableCount(targets)
    ensures forall d :: d in Descriptors(targets) ==>
      exists t :: t in targets && d.field in t.0.variables && d.from == FromOf(t.1)
    ensures forall t, v :: t in targets && v in t.0.variables ==> Descriptor(v, FromOf(t.1)) in Descriptors(targets)
  {
    if targets != [] {
      var p, last := targets[..|targets| - 1], targets[|targets| - 1];
      assert forall t :: t in p ==> t in targets;
      DescriptorsFromDeclarations(p);
      assert last in targets;
      var tail := VariableDescriptors(last.0.variables, FromOf(last.1));
      assert Descriptors(targets) == Descriptors(p) + tail;
      forall d | d in Descriptors(targets)
        ensures exists t :: t in targets && d.field in t.0.variables && d.from == FromOf(t.1)
      {
        if d !in Descriptors(p) {
          var k :| 0 <= k < |tail| && tail[k] == d;
          assert d.field == last.0.variables[k];
        }
      }
      forall t, v | t in targets && v in t.0.variables
        ensures Descriptor(v, FromOf(t.1)) in Descriptors(targets)
      {
        if t == last {
          var k :| 0 <= k < |last.0.variables| && last.0.variables[k] == v;
          assert tail[k] == Descriptor(v, FromOf(t.1));
        } else {
          assert t in p;
        }
      }
    }
  }

  /**
   * One unit per distinct containing type, in order of first occurrence; unit `i`
   * is named `{Name}.Generated.cs` after the `i`-th type and holds the class text
   * for exactly that type's descriptors, in input order.
   */
  lemma GenerateUnits(targets: seq<(FieldDeclaration, Attribute)>)
    requires forall t :: t in targets ==> Resolvable(t)
    ensures var ds := Descriptors(targets);
      |Generate(targets)| == |Keys(ds)| &&
      forall i :: 0 <= i < |Keys(ds)| ==>
        Generate(targets)[i] == Unit(Keys(ds)[i].name + GeneratedSuffix, ClassText(Keys(ds)[i], Members(ds, Keys(ds)[i])))
  {
    var ds := Descriptors(targets);
    GroupByMatchesReference(ds);
    MapIndexed(UnitOf, GroupBy(ds));
  }

  /** Every group's type declares at least one recorded variable. */
  lemma GroupsFromDeclarations(targets: seq<(FieldDeclaration, Attribute)>)
    requires forall t :: t in targets ==> Resolvable(t)
    ensures forall i :: 0 <= i < |GroupBy(Descriptors(targets))| ==>
      exists t, v :: t in targets && v in t.0.variables && v.owner == GroupBy(Descriptors(targets))[i].key
  {
    var ds := Descriptors(targets);
    var G := GroupBy(ds);
    GroupsAreNonEmptyAndDistinct(ds);
    GroupsHoldTheirKeys(ds);
    DescriptorsFromDeclarations(targets);
    forall i | 0 <= i < |G|
      ensures exists t, v :: t in targets && v in t.0.variables && v.owner == G[i].key
    {
      var d := G[i].members[0];
      assert d in G[i].members;
      var t :| t in targets && d.field in t.0.variables && d.from == FromOf(t.1);
      assert d.field.owner == G[i].key;
    }
  }

  /** Unit `i` is the unit of group `i`, whose type declares a recorded variable: a type without any gets no unit. */
  lemma UnitsOnlyForAnnotatedTypes(targets: seq<(FieldDeclaration, Attribute)>)
    requires forall t :: t in targets ==> Resolvable(t)
    ensures |Generate(targets)| == |GroupBy(Descriptors(targets))|
    ensures forall i :: 0 <= i < |Generate(targets)| ==>
      Generate(targets)[i] == UnitOf(GroupBy(Descriptors(targets))[i]) &&
      exists t, v :: t in targets && v in t.0.variables && v.owner == GroupBy(Descriptors(targets))[i].key
  {
    MapIndexed(UnitOf, GroupBy(Descriptors(targets)));
    GroupsFromDeclarations(targets);
  }

  /**
   * Two hint names are equal exactly when the simple names are, and equal ignoring
   * case exactly when the simple names are equal ignoring case.
   */
  lemma HintNameDeterminesName(a: Owner, b: Owner)
    ensures HintName(a) == HintName(b) <==> a.name == b.name
    ensures FoldCase(HintName(a)) == FoldCase(HintName(b)) <==> FoldCase(a.name) == FoldCase(b.name)
  {
    if HintName(a) == HintName(b) {
      assert |a.name| == |b.name|;
      assert a.name == HintName(a)[..|a.name|];
      assert b.name == HintName(b)[..|b.name|];
    }
    FoldCaseAppend(a.name, GeneratedSuffix);
    FoldCaseAppend(b.name, GeneratedSuffix);
    var fa, fb := FoldCase(a.name), FoldCase(b.name);
    if FoldCase(HintName(a)) == FoldCase(HintName(b)) {
      assert |fa| == |fb|;
      assert fa == (fa + FoldCase(GeneratedSuffix))[..|fa|];
      assert fb == (fb + FoldCase(GeneratedSuffix))[..|fb|];
    }
  }

  /** Some recorded declaration declares a variable of `owner`. */
  predicate Declares(targets: seq<(FieldDeclaration, Attribute)>, owner: Owner) {
    exists t, v :: t in targets && v in t.0.variables && v.owner == owner
  }

  lemma NamesDiffer(targets: seq<(FieldDeclaration, Attribute)>, a: Owner, b: Owner)
    requires NamesIdentifyOwners(targets)
    requires Declares(targets, a) && Declares(targets, b) && a != b
    ensures FoldCase(a.name) != FoldCase(b.name)
  {
    var ta, va :| ta in targets && va in ta.0.variables && va.owner == a;
    var tb, vb :| tb in targets && vb in tb.0.variables && vb.owner == b;
  }

  lemma DistinctOwnersDistinctHintNames(groups: seq<Group>, targets: seq<(FieldDeclaration, Attribute)>)
    requires NamesIdentifyOwners(targets)
    requires forall i, j :: 0 <= i < j < |groups| ==> groups[i].key != groups[j].key
    requires forall i :: 0 <= i < |groups| ==>
      Declares(targets, groups[i].key)
    ensures forall i, j :: 0 <= i < j < |groups| ==> FoldCase(HintName(groups[i].key)) != FoldCase(HintName(groups[j].key))
  {
    forall i, j | 0 <= i < j < |groups|
      ensures FoldCase(HintName(groups[i].key)) != FoldCase(HintName(groups[j].key))
    {
      NamesDiffer(targets, groups[i].key, groups[j].key);
      HintNameDeterminesName(groups[i].key, groups[j].key);
    }
  }

  /**
   * When simple names identify types up to case, no two units have hint names
   * that are equal ignoring case, so `AddSource` accepts every unit.
   */
  lemma HintNamesDistinct(targets: seq<(FieldDeclaration, Attribute)>)
    requires forall t :: t in targets ==> Resolvable(t)
    requires NamesIdentifyOwners(targets)
    ensures forall i, j :: 0 <= i < j < |Generate(targets)| ==>
      FoldCase(Generate(targets)[i].hintName) != FoldCase(Generate(targets)[j].hintName)
  {
    var G := GroupBy(Descriptors(targets));
    GroupsFromDeclarations(targets);
    GroupsAreNonEmptyAndDistinct(Descriptors(targets));
    DistinctOwnersDistinctHintNames(G, targets);
    MapIndexed(UnitOf, G);
  }

  /**
   * Two types with the same simple name in different namespaces are kept apart by
   * the grouping, yet their units get the same hint name: the case the
   * precondition of `Execute` excludes.
   */
  lemma SameNameTypesCollide()
    ensures
      var a := Owner(1, "Enemy", Some("Forest"));
      var b := Owner(2, "Enemy", Some("Castle"));
      var ds := [Descriptor(FieldSymbol("_body", "Body", false, a), GetFrom.This),
                 Descriptor(FieldSymbol("_body", "Body", false, b), GetFrom.This)];
      |GroupBy(ds)| == 2 && GroupBy(ds)[0].key == a && GroupBy(ds)[1].key == b &&
      HintName(a) == HintName(b)
  {
    var a := Owner(1, "Enemy", Some("Forest"));
    var b := Owner(2, "Enemy", Some("Castle"));
    var ds := [Descriptor(FieldSymbol("_body", "Body", false, a), GetFrom.This),
               Descriptor(FieldSymbol("_body", "Body", false, b), GetFrom.This)];
    assert ds[..1][..0] == [];
    assert GroupBy(ds[..1]) == [Group(a, [ds[0]])];
    assert IndexOfKey(GroupBy(ds[..1]), b) == None;
  }

  /**
   * Two types whose names differ only in case get hint names that differ as
   * strings but are equal ignoring case, which `AddSource` rejects.
   */
  lemma CaseOnlyNamesCollide()
    ensures
      var a := Owner(1, "Enemy", Some("Forest"));
      var b := Owner(2, "enemy", Some("Castle"));
      HintName(a) != HintName(b) && FoldCase(HintName(a)) == FoldCase(HintName(b))
  {
    var a := Owner(1, "Enemy", Some("Forest"));
    var b := Owner(2, "enemy", Some("Castle"));
    assert HintName(a)[0] != HintName(b)[0];
    assert FoldCase(a.name) == FoldCase(b.name) by {
      assert ToUpper('E') == 'E' == ToUpper('e');
    }
    HintNameDeterminesName(a, b);
  }
}
