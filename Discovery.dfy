/**
 * Syntactic discovery of annotated fields (`SyntaxReceiver`): every field
 * declaration whose attributes include one written as `...CompoPropAttribute` or
 * `...CompoProp` is recorded once, with the first such attribute.
 */
module Discovery {
  import opened Wrappers
  import opened Strings
  import opened Facts
  import GetFrom

  /**
   * An attribute as written: its name as spelled in the source and, for each
   * argument expression, its compile-time constant value (`None` when it has none).
   */
  datatype Attribute = Attribute(name: string, args: seq<Option<GetFrom.Flags>>)

  /** A field declaration: its attribute lists and the symbols of the variables it declares. */
  datatype FieldDeclaration = FieldDeclaration(attributeLists: seq<seq<Attribute>>, variables: seq<FieldSymbol>)

  /** The syntax nodes the receiver is shown; only field declarations matter. */
  datatype SyntaxNode = FieldNode(decl: FieldDeclaration) | OtherNode

  /** The name test of the receiver: the written name ends in the full or the short attribute name. */
  predicate IsMarker(a: Attribute) {
    EndsWith(a.name, "CompoPropAttribute") || EndsWith(a.name, "CompoProp")
  }

  /** The attributes of all lists, in source order. */
  function Flatten(lists: seq<seq<Attribute>>): (r: seq<Attribute>)
    ensures forall a :: a in r <==> exists l :: l in lists && a in l
  {
    if lists == [] then [] else lists[0] + Flatten(lists[1..])
  }

  /** The first marker attribute of `attrs`, if there is one. */
  function FirstMarker(attrs: seq<Attribute>): (r: Option<Attribute>)
    ensures r.None? <==> forall a :: a in attrs ==> !IsMarker(a)
    ensures r.Some? ==> exists k :: 0 <= k < |attrs| && attrs[k] == r.value && IsMarker(attrs[k]) &&
                                   forall j :: 0 <= j < k ==> !IsMarker(attrs[j])
  {
    if attrs == [] then None
    else if IsMarker(attrs[0]) then Some(attrs[0])
    else
      var r := FirstMarker(attrs[1..]);
      assert forall a :: a in attrs[1..] ==> a in attrs;
      assert forall a :: a in attrs ==> a == attrs[0] || a in attrs[1..];
      if r.Some? then
        ghost var k :| 0 <= k < |attrs[1..]| && attrs[1..][k] == r.value && IsMarker(attrs[1..][k]) &&
                       forall j :: 0 <= j < k ==> !IsMarker(attrs[1..][j]);
        assert attrs[k + 1] == r.value;
        r
      else r
  }

  /** What one visit of `node` appends to the receiver's list. */
  function Recorded(node: SyntaxNode): seq<(FieldDeclaration, Attribute)> {
    match node
    case OtherNode => []
    case FieldNode(decl) =>
      match FirstMarker(Flatten(decl.attributeLists))
      case Some(a) => [(decl, a)]
      case None => []
  }

  /** What a sequence of visits appends, in visiting order. */
  function RecordedAll(nodes: seq<SyntaxNode>): seq<(FieldDeclaration, Attribute)> {
    if nodes == [] then [] else RecordedAll(nodes[..|nodes| - 1]) + Recorded(nodes[|nodes| - 1])
  }

  /**
   * One visit records at most one entry; it records one exactly when the node is a
   * field declaration with a marker attribute, and then pairs that declaration with
   * a marker attribute taken from its own lists, with no marker before it.
   */
  lemma RecordedAtMostOnce(node: SyntaxNode)
    ensures |Recorded(node)| <= 1
    ensures |Recorded(node)| == 1 <==>
      node.FieldNode? && exists l, a :: l in node.decl.attributeLists && a in l && IsMarker(a)
    ensures |Recorded(node)| == 1 ==>
      var (decl, a) := Recorded(node)[0];
      decl == node.decl && IsMarker(a) &&
      (exists l :: l in decl.attributeLists && a in l) &&
      exists k :: 0 <= k < |Flatten(decl.attributeLists)| && Flatten(decl.attributeLists)[k] == a &&
                  forall j :: 0 <= j < k ==> !IsMarker(Flatten(decl.attributeLists)[j])
  {
    if node.FieldNode? {
      var flat := Flatten(node.decl.attributeLists);
      if (exists l, a :: l in node.decl.attributeLists && a in l && IsMarker(a)) {
        var l, a :| l in node.decl.attributeLists && a in l && IsMarker(a);
        assert a in flat;
        var found := FirstMarker(flat).value;
        assert found in flat;
      }
    }
  }

  /** The receiver: a list of (declaration, attribute) pairs that grows as nodes are visited. */
  class SyntaxReceiver {
    var targetFields: seq<(FieldDeclaration, Attribute)>
    ghost var visited: seq<SyntaxNode>

    /** The list holds exactly what the visits so far recorded, in order. */
    ghost predicate Valid()
      reads this
    {
      targetFields == RecordedAll(visited)
    }

    constructor ()
      ensures Valid() && visited == [] && targetFields == []
    {
      targetFields := [];
      visited := [];
    }

    /**
     * Visits one node: a field declaration is appended once, paired with its first
     * marker attribute across all its attribute lists; anything else leaves the
     * list unchanged.
     */
    method OnVisitSyntaxNode(node: SyntaxNode)
      requires Valid()
      modifies this
      ensures Valid() && visited == old(visited) + [node]
      ensures targetFields == old(targetFields) + Recorded(node)
    {
      visited := visited + [node];
      assert visited[..|visited| - 1] == old(visited);
      if node.FieldNode? {
        var lists := node.decl.attributeLists;
        var i := 0;
        while i < |lists|
          invariant 0 <= i <= |lists|
          invariant FirstMarker(Flatten(lists)) == FirstMarker(Flatten(lists[i..]))
          invariant targetFields == old(targetFields)
        {
          var attrs := lists[i];
          assert Flatten(lists[i..]) == attrs + Flatten(lists[i + 1..]) by {
            assert lists[i..][1..] == lists[i + 1..];
          }
          var j := 0;
          while j < |attrs|
            invariant 0 <= j <= |attrs|
            invariant FirstMarker(Flatten(lists)) == FirstMarker(attrs[j..] + Flatten(lists[i + 1..]))
          {
            var rest := attrs[j..] + Flatten(lists[i + 1..]);
            assert rest[0] == attrs[j];
            var name := attrs[j].name;
            if EndsWith(name, "CompoPropAttribute") || EndsWith(name, "CompoProp") {
              targetFields := targetFields + [(node.decl, attrs[j])];
              return;
            }
            assert rest[1..] == attrs[j + 1..] + Flatten(lists[i + 1..]);
            j := j + 1;
          }
          assert attrs[j..] + Flatten(lists[i + 1..]) == Flatten(lists[i + 1..]);
          i := i + 1;
        }
      }
    }
  }
}
