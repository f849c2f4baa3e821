/**
 * `fieldSymbols.GroupBy(field => field.field.ContainingType)`: descriptors are
 * grouped by the identity of their containing type. As in LINQ, groups appear in
 * the order their key is first met and each group keeps its elements in input order.
 */
module Grouping {
  import opened Wrappers
  import opened Facts

  datatype Group = Group(key: Owner, members: seq<Descriptor>)

  function KeyOf(d: Descriptor): Owner {
    d.field.owner
  }

  /** Position of the group with key `k`, if there is one. */
  function IndexOfKey(gs: seq<Group>, k: Owner): (r: Option<nat>)
    ensures r.Some? ==> r.value < |gs| && gs[r.value].key == k
    ensures r.None? ==> forall i :: 0 <= i < |gs| ==> gs[i].key != k
  {
    if gs == [] then None
    else if gs[0].key == k then Some(0)
    else match IndexOfKey(gs[1..], k)
      case Some(i) => Some(i + 1)
      case None => None
  }

  /** One step of LINQ's lookup: append `d` to its key's group, or open a new group at the end. */
  function Insert(gs: seq<Group>, d: Descriptor): seq<Group> {
    match IndexOfKey(gs, KeyOf(d))
    case Some(i) => gs[i := Group(gs[i].key, gs[i].members + [d])]
    case None => gs + [Group(KeyOf(d), [d])]
  }

  /** The groups LINQ's `GroupBy` yields, built element by element. */
  function GroupBy(ds: seq<Descriptor>): seq<Group> {
    if ds == [] then [] else Insert(GroupBy(ds[..|ds| - 1]), ds[|ds| - 1])
  }

  // Reference definition: the distinct keys in order of first occurrence, and for
  // each key the subsequence of the input that has it.

  function Keys(ds: seq<Descriptor>): seq<Owner> {
    if ds == [] then []
    else
      var ks := Keys(ds[..|ds| - 1]);
      if KeyOf(ds[|ds| - 1]) in ks then ks else ks + [KeyOf(ds[|ds| - 1])]
  }

  function Members(ds: seq<Descriptor>, k: Owner): seq<Descriptor> {
    if ds == [] then []
    else Members(ds[..|ds| - 1], k) + (if KeyOf(ds[|ds| - 1]) == k then [ds[|ds| - 1]] else [])
  }

  /** The keys are pairwise distinct and are exactly the keys that occur in the input. */
  lemma {:induction false} KeysSpec(ds: seq<Descriptor>)
    ensures forall i, j :: 0 <= i < j < |Keys(ds)| ==> Keys(ds)[i] != Keys(ds)[j]
    ensures forall k :: k in Keys(ds) <==> exists d :: d in ds && KeyOf(d) == k
  {
    if ds != [] {
      var p := ds[..|ds| - 1];
      KeysSpec(p);
      assert ds == p + [ds[|ds| - 1]];
      forall k ensures k in Keys(ds) <==> exists d :: d in ds && KeyOf(d) == k {
        if k in Keys(ds) && k != KeyOf(ds[|ds| - 1]) {
          var d :| d in p && KeyOf(d) == k;
          assert d in ds;
        }
        if (exists d :: d in ds && KeyOf(d) == k) && k != KeyOf(ds[|ds| - 1]) {
          var d :| d in ds && KeyOf(d) == k;
          assert d in p;
        }
      }
    }
  }

  /** Keys met in a prefix of the input are a prefix of the keys: first-occurrence order. */
  lemma {:induction false} KeysOfPrefix(ds: seq<Descriptor>, n: nat)
    requires n <= |ds|
    ensures |Keys(ds[..n])| <= |Keys(ds)| && Keys(ds[..n]) == Keys(ds)[..|Keys(ds[..n])|]
    decreases |ds|
  {
    if n < |ds| {
      var p := ds[..|ds| - 1];
      assert p[..n] == ds[..n];
      KeysOfPrefix(p, n);
    } else {
      assert ds[..n] == ds;
    }
  }

  /** A key's members are exactly the input elements with that key; they exist iff the key does. */
  lemma {:induction false} MembersSpec(ds: seq<Descriptor>, k: Owner)
    ensures forall d :: d in Members(ds, k) <==> d in ds && KeyOf(d) == k
    ensures |Members(ds, k)| > 0 <==> k in Keys(ds)
  {
    KeysSpec(ds);
    if ds != [] {
      var p := ds[..|ds| - 1];
      MembersSpec(p, k);
      assert ds == p + [ds[|ds| - 1]];
    }
  }

  /** LINQ's incremental grouping yields, for each key in first-occurrence order, that key's members. */
  lemma {:induction false} GroupByMatchesReference(ds: seq<Descriptor>)
    ensures |GroupBy(ds)| == |Keys(ds)|
    ensures forall i :: 0 <= i < |Keys(ds)| ==> GroupBy(ds)[i] == Group(Keys(ds)[i], Members(ds, Keys(ds)[i]))
  {
    if ds != [] {
      var p, d := ds[..|ds| - 1], ds[|ds| - 1];
      GroupByMatchesReference(p);
      KeysSpec(p);
      var G, K := GroupBy(p), Keys(p);
      assert GroupBy(ds) == Insert(G, d);
      match IndexOfKey(G, KeyOf(d))
      case Some(i) =>
        assert K[i] == KeyOf(d);
        assert Keys(ds) == K;
        forall j | 0 <= j < |K|
          ensures GroupBy(ds)[j] == Group(K[j], Members(ds, K[j]))
        {
          if j != i { assert K[j] != KeyOf(d); }
        }
      case None =>
        assert KeyOf(d) !in K by {
          forall j | 0 <= j < |K| ensures K[j] != KeyOf(d) { assert G[j].key == K[j]; }
        }
        MembersSpec(p, KeyOf(d));
        assert Keys(ds) == K + [KeyOf(d)];
        forall j | 0 <= j < |Keys(ds)|
          ensures GroupBy(ds)[j] == Group(Keys(ds)[j], Members(ds, Keys(ds)[j]))
        {
          if j < |K| { assert K[j] != KeyOf(d); }
        }
    }
  }

  /** No group is empty and no two groups share a key. */
  lemma GroupsAreNonEmptyAndDistinct(ds: seq<Descriptor>)
    ensures forall i :: 0 <= i < |GroupBy(ds)| ==> |GroupBy(ds)[i].members| > 0
    ensures forall i, j :: 0 <= i < j < |GroupBy(ds)| ==> GroupBy(ds)[i].key != GroupBy(ds)[j].key
  {
    GroupByMatchesReference(ds);
    KeysSpec(ds);
    var G, K := GroupBy(ds), Keys(ds);
    forall i | 0 <= i < |G| ensures |G[i].members| > 0 {
      MembersSpec(ds, K[i]);
    }
  }

  /** Each group holds exactly the input elements with its key. */
  lemma GroupsHoldTheirKeys(ds: seq<Descriptor>)
    ensures forall i, d :: 0 <= i < |GroupBy(ds)| ==>
      (d in GroupBy(ds)[i].members <==> d in ds && KeyOf(d) == GroupBy(ds)[i].key)
  {
    GroupByMatchesReference(ds);
    var G, K := GroupBy(ds), Keys(ds);
    forall i, d | 0 <= i < |G|
      ensures d in G[i].members <==> d in ds && KeyOf(d) == G[i].key
    {
      MembersSpec(ds, K[i]);
    }
  }

  /** Every input element's key has a group. */
  lemma EveryKeyHasAGroup(ds: seq<Descriptor>)
    ensures forall d :: d in ds ==> exists i :: 0 <= i < |GroupBy(ds)| && GroupBy(ds)[i].key == KeyOf(d)
  {
    GroupByMatchesReference(ds);
    KeysSpec(ds);
    var G, K := GroupBy(ds), Keys(ds);
    forall d | d in ds ensures exists i :: 0 <= i < |G| && G[i].key == KeyOf(d) {
      assert KeyOf(d) in K;
      var i :| 0 <= i < |K| && K[i] == KeyOf(d);
      assert G[i].key == KeyOf(d);
    }
  }

  function TotalSize(gs: seq<Group>): nat {
    if gs == [] then 0 else TotalSize(gs[..|gs| - 1]) + |gs[|gs| - 1].members|
  }

  lemma {:induction false} TotalSizeUpdate(gs: seq<Group>, i: nat, g: Group)
    requires i < |gs|
    ensures TotalSize(gs[i := g]) == TotalSize(gs) - |gs[i].members| + |g.members|
    decreases |gs|
  {
    var n := |gs|;
    if i == n - 1 {
      assert gs[i := g][..n - 1] == gs[..n - 1];
    } else {
      assert gs[i := g][..n - 1] == gs[..n - 1][i := g];
      TotalSizeUpdate(gs[..n - 1], i, g);
    }
  }

  /** No element is lost or duplicated: the group sizes add up to the input's length. */
  lemma {:induction false} GroupByKeepsEveryElement(ds: seq<Descriptor>)
    ensures TotalSize(GroupBy(ds)) == |ds|
  {
    if ds != [] {
      var p, d := ds[..|ds| - 1], ds[|ds| - 1];
      GroupByKeepsEveryElement(p);
      var G := GroupBy(p);
      match IndexOfKey(G, KeyOf(d))
      case Some(i) =>
        TotalSizeUpdate(G, i, Group(G[i].key, G[i].members + [d]));
      case None =>
        assert (G + [Group(KeyOf(d), [d])])[..|G|] == G;
    }
  }
}
