/** The shortlist of a lookup: the nodes closest to a pivot, updated in place. */
module NodeHeaps {
  import opened XorMetric
  import opened Nodes
  import opened Selection

  /** The nodes with an id outside `ids`, in order. */
  function Outside(s: seq<Node>, ids: set<Id>): (r: seq<Node>)
    ensures |r| <= |s|
  {
    if s == [] then []
    else if Last(s).id in ids then Outside(Front(s), ids)
    else Outside(Front(s), ids) + [Last(s)]
  }

  lemma {:induction false} OutsideIds(s: seq<Node>, ids: set<Id>)
    ensures IdSet(Outside(s, ids)) == IdSet(s) - ids
    ensures Distinct(s) ==> Distinct(Outside(s, ids))
  {
    if s != [] {
      OutsideIds(Front(s), ids);
      AppendIds(Outside(Front(s), ids), Last(s));
    }
  }

  lemma {:induction false} OutsideNodes(s: seq<Node>, ids: set<Id>)
    ensures forall n :: n in Outside(s, ids) ==> n in s
  {
    if s != [] {
      OutsideNodes(Front(s), ids);
      assert s == Front(s) + [Last(s)];
    }
  }

  lemma {:induction false} OutsideNone(s: seq<Node>, ids: set<Id>)
    requires IdSet(s) !! ids
    ensures Outside(s, ids) == s
  {
    if s != [] {
      OutsideNone(Front(s), ids);
      assert s == Front(s) + [Last(s)];
    }
  }

  /** Nodes in order of distance, each id once. */
  ghost predicate Ordered(pivot: Id, s: seq<Node>)
  {
    SortedByDistance(pivot, s) && Distinct(s)
  }

  lemma {:induction false} OutsideOrdered(pivot: Id, s: seq<Node>, ids: set<Id>)
    requires Ordered(pivot, s)
    ensures Ordered(pivot, Outside(s, ids))
  {
    if s != [] {
      OutsideOrdered(pivot, Front(s), ids);
      OutsideIds(Front(s), ids);
      OutsideNodes(Front(s), ids);
      AppendIds(Outside(Front(s), ids), Last(s));
      assert forall n :: n in Front(s) ==> Xor(n.id, pivot) <= Xor(Last(s).id, pivot);
      SnocSorted(pivot, Outside(Front(s), ids), Last(s));
    }
  }

  lemma SnocSorted(pivot: Id, s: seq<Node>, n: Node)
    requires SortedByDistance(pivot, s)
    requires forall m :: m in s ==> Xor(m.id, pivot) <= Xor(n.id, pivot)
    ensures SortedByDistance(pivot, s + [n])
  {
  }

  /** A short ordered list is the nearest of its own ids. */
  lemma OrderedIsNearest(pivot: Id, k: nat, s: seq<Node>)
    requires Ordered(pivot, s) && |s| <= k
    ensures IdSeq(s) == Nearest(pivot, k, IdSet(s))
  {
    PrefixIsNearest(pivot, k, s);
    assert Take(s, k) == s;
    NearestIs(pivot, k, IdSet(s), IdSeq(s));
  }

  lemma TakeOrdered(pivot: Id, k: nat, s: seq<Node>)
    requires Ordered(pivot, s)
    ensures Ordered(pivot, Take(s, k))
  {
    CutIds(s, Min(k, |s|));
  }

  /** `s` followed by the nodes whose ids it does not have yet. The first
      sighting of an id counts: a later one does not change the address. */
  function AddMissing(s: seq<Node>, nodes: seq<Node>): (r: seq<Node>)
    ensures |r| >= |s|
    decreases |nodes|
  {
    if nodes == [] then s
    else
      var r := AddMissing(s, Front(nodes));
      if Position(r, Last(nodes).id).Some? then r else r + [Last(nodes)]
  }

  /** A shortlist after a batch of nodes. */
  function Pushed(pivot: Id, k: nat, s: seq<Node>, nodes: seq<Node>): (r: seq<Node>)
  {
    var all := AddMissing(s, nodes);
    if |all| == |s| then s else Take(SortByDistance(pivot, all), k)
  }

  lemma {:induction false} AddMissingIds(s: seq<Node>, nodes: seq<Node>)
    requires Distinct(s)
    ensures Distinct(AddMissing(s, nodes)) && IdSet(AddMissing(s, nodes)) == IdSet(s) + IdSet(nodes)
    decreases |nodes|
  {
    if nodes != [] {
      AddMissingIds(s, Front(nodes));
      var r := AddMissing(s, Front(nodes));
      PositionFinds(r, Last(nodes).id);
      AppendIds(r, Last(nodes));
    }
  }

  lemma {:induction false} AddMissingNodes(s: seq<Node>, nodes: seq<Node>)
    ensures forall n :: n in AddMissing(s, nodes) ==> n in s || n in nodes
    ensures |AddMissing(s, nodes)| == |s| ==> AddMissing(s, nodes) == s
    decreases |nodes|
  {
    if nodes != [] {
      AddMissingNodes(s, Front(nodes));
      assert nodes == Front(nodes) + [Last(nodes)];
    }
  }

  /** A batch leaves the nearest of what was there and what it brings. */
  lemma PushedIsNearest(pivot: Id, k: nat, s: seq<Node>, nodes: seq<Node>)
    requires Ordered(pivot, s) && |s| <= k
    ensures var r := Pushed(pivot, k, s, nodes);
            && Ordered(pivot, r) && |r| <= k
            && IdSeq(r) == Nearest(pivot, k, IdSet(s) + IdSet(nodes))
            && forall n :: n in r ==> n in s || n in nodes
  {
    AddMissingIds(s, nodes);
    AddMissingNodes(s, nodes);
    var all := AddMissing(s, nodes);
    if |all| == |s| {
      OrderedIsNearest(pivot, k, s);
    } else {
      SortedPrefix(pivot, k, all);
    }
  }

  lemma SortedPrefix(pivot: Id, k: nat, s: seq<Node>)
    requires Distinct(s)
    ensures var r := Take(SortByDistance(pivot, s), k);
            && Ordered(pivot, r)
            && IdSeq(r) == Nearest(pivot, k, IdSet(s))
            && forall n :: n in r ==> n in s
  {
    var sorted := SortByDistance(pivot, s);
    SortSorts(pivot, s);
    MultisetKeepsIds(s, sorted);
    MultisetMembers(sorted, s);
    TakeOrdered(pivot, k, sorted);
    SortSelectsNearest(pivot, k, s);
  }

  // --- Which address a shortlist keeps ---

  /** The first node of `s` with this id. */
  function Sighting(s: seq<Node>, id: Id): (n: Node)
    requires id in IdSet(s)
    ensures n in s && n.id == id
  {
    PositionFinds(s, id);
    s[Position(s, id).value]
  }

  lemma SightingIn(a: seq<Node>, b: seq<Node>, id: Id)
    requires id in IdSet(a) + IdSet(b)
    ensures id in IdSet(a + b)
    ensures Sighting(a + b, id) == if id in IdSet(a) then Sighting(a, id) else Sighting(b, id)
  {
    ConcatIds(a, b);
    PositionFinds(a + b, id);
    var p := Position(a + b, id).value;
    if id in IdSet(a) {
      PositionFinds(a, id);
      assert (a + b)[Position(a, id).value].id == id;
    } else {
      PositionFinds(b, id);
      assert (a + b)[|a| + Position(b, id).value].id == id;
      if p < |a| {
        IdSetHas(a, a[p]);
      }
    }
  }

  lemma OnlySighting(s: seq<Node>, n: Node)
    requires Distinct(s) && n in s
    ensures n.id in IdSet(s) && Sighting(s, n.id) == n
  {
    IdSetHas(s, n);
    DistinctMeaning(s);
  }

  lemma LastSighting(s: seq<Node>, n: Node)
    requires n.id !in IdSet(s)
    ensures n.id in IdSet(s + [n]) && Sighting(s + [n], n.id) == n
  {
    AppendIds(s, n);
    var m := Sighting(s + [n], n.id);
    if m in s {
      IdSetHas(s, m);
    }
  }

  lemma {:induction false} AddMissingSightings(s: seq<Node>, nodes: seq<Node>, n: Node)
    requires Distinct(s) && n in AddMissing(s, nodes)
    ensures n.id in IdSet(s + nodes) && n == Sighting(s + nodes, n.id)
    decreases |nodes|
  {
    if nodes == [] {
      assert s + nodes == s;
      OnlySighting(s, n);
    } else {
      var front, last := Front(nodes), Last(nodes);
      var r := AddMissing(s, front);
      AddMissingIds(s, front);
      PositionFinds(r, last.id);
      assert s + nodes == (s + front) + [last];
      ConcatIds(s, front);
      if n in r {
        AddMissingSightings(s, front, n);
        SightingIn(s + front, [last], n.id);
      } else {
        LastSighting(s + front, last);
      }
    }
  }

  /** A shortlist keeps the first sighting of each of its ids. */
  lemma PushedSightings(pivot: Id, k: nat, s: seq<Node>, nodes: seq<Node>, n: Node)
    requires Ordered(pivot, s) && n in Pushed(pivot, k, s, nodes)
    ensures n.id in IdSet(s + nodes) && n == Sighting(s + nodes, n.id)
  {
    var all := AddMissing(s, nodes);
    AddMissingIds(s, nodes);
    AddMissingNodes(s, nodes);
    SortedPrefix(pivot, k, all);
    AddMissingSightings(s, nodes, n);
  }

  // --- Any number of batches ---

  /** The shortlist after a sequence of batches, such as the answers of a round. */
  function PushedAll(pivot: Id, k: nat, s: seq<Node>, batches: seq<seq<Node>>): (r: seq<Node>)
  {
    if batches == [] then s
    else
      var last := |batches| - 1;
      Pushed(pivot, k, PushedAll(pivot, k, s, batches[..last]), batches[last])
  }

  /** All nodes in the order in which they were sighted. */
  function Sighted(s: seq<Node>, batches: seq<seq<Node>>): (all: seq<Node>)
  {
    if batches == [] then s
    else
      var last := |batches| - 1;
      Sighted(s, batches[..last]) + batches[last]
  }

  /** Whatever their number, the batches leave the nearest of all ids sighted. */
  lemma {:induction false} PushedAllIsNearest(pivot: Id, k: nat, s: seq<Node>, batches: seq<seq<Node>>)
    requires Ordered(pivot, s) && |s| <= k
    ensures var r := PushedAll(pivot, k, s, batches);
            && Ordered(pivot, r) && |r| <= k
            && IdSeq(r) == Nearest(pivot, k, IdSet(Sighted(s, batches)))
  {
    if batches == [] {
      OrderedIsNearest(pivot, k, s);
    } else {
      var last := |batches| - 1;
      var before, all := PushedAll(pivot, k, s, batches[..last]), Sighted(s, batches[..last]);
      PushedAllIsNearest(pivot, k, s, batches[..last]);
      PushedIsNearest(pivot, k, before, batches[last]);
      IdSetIsElems(before);
      MergeNearest(pivot, k, IdSet(all), IdSet(batches[last]));
      ConcatIds(all, batches[last]);
    }
  }

  /** A shortlist keeps the first sighting of each of its ids over all batches: an
      id that is among the nearest was never dropped since it was sighted. */
  lemma {:induction false} FirstSightings(pivot: Id, k: nat, s: seq<Node>, batches: seq<seq<Node>>, n: Node)
    requires Ordered(pivot, s) && |s| <= k && n in PushedAll(pivot, k, s, batches)
    ensures n.id in IdSet(Sighted(s, batches)) && n == Sighting(Sighted(s, batches), n.id)
  {
    if batches == [] {
      OnlySighting(s, n);
    } else {
      var last := |batches| - 1;
      var before, all := PushedAll(pivot, k, s, batches[..last]), Sighted(s, batches[..last]);
      PushedAllIsNearest(pivot, k, s, batches[..last]);
      PushedSightings(pivot, k, before, batches[last], n);
      ConcatIds(before, batches[last]);
      SightingIn(before, batches[last], n.id);
      if n.id in IdSet(before) {
        FirstSightings(pivot, k, s, batches[..last], Sighting(before, n.id));
      } else if n.id in IdSet(all) {
        PushedAllIsNearest(pivot, k, s, batches);
        ConcatIds(all, batches[last]);
        StillSelected(pivot, k, IdSet(all), IdSet(Sighted(s, batches)), before, PushedAll(pivot, k, s, batches), n);
      }
      SightingIn(all, batches[last], n.id);
    }
  }

  /** An id among the nearest of a larger pool was among those of the smaller. */
  lemma StillSelected(pivot: Id, k: nat, part: set<Id>, pool: set<Id>, before: seq<Node>, after: seq<Node>, n: Node)
    requires IdSeq(before) == Nearest(pivot, k, part) && IdSeq(after) == Nearest(pivot, k, pool)
    requires part <= pool && n in after && n.id in part
    ensures n.id in IdSet(before)
  {
    IdSetHas(after, n);
    IdSetIsElems(before);
    IdSetIsElems(after);
    SelectedFromPart(pivot, k, pool, part, n.id);
  }

  lemma {:induction false} SightedMember(s: seq<Node>, batches: seq<seq<Node>>, id: Id)
    ensures id in IdSet(Sighted(s, batches)) <==>
            id in IdSet(s) || exists b :: b in multiset(batches) && id in IdSet(b)
  {
    if batches != [] {
      var front, last := batches[..|batches| - 1], batches[|batches| - 1];
      assert batches == front + [last];
      SightedMember(s, front, id);
      ConcatIds(Sighted(s, front), last);
      if id in IdSet(last) {
        assert last in multiset(batches);
      }
    }
  }

  lemma SameSighted(s: seq<Node>, one: seq<seq<Node>>, other: seq<seq<Node>>)
    requires multiset(one) == multiset(other)
    ensures IdSet(Sighted(s, one)) == IdSet(Sighted(s, other))
  {
    forall id: Id
      ensures id in IdSet(Sighted(s, one)) <==> id in IdSet(Sighted(s, other))
    {
      SightedMember(s, one, id);
      SightedMember(s, other, id);
    }
  }

  /** The same first sighting of every id that is selected, in both orders. */
  ghost predicate SameSightings(ids: seq<Id>, one: seq<Node>, other: seq<Node>)
  {
    forall i :: 0 <= i < |ids| ==>
      && ids[i] in IdSet(one) && ids[i] in IdSet(other) && Sighting(one, ids[i]) == Sighting(other, ids[i])
  }

  /** Any number of batches in any two orders leave the same ids, but not always
      the same addresses: exactly when every id selected was first sighted under
      the same address in both orders. */
  lemma BatchOrder(pivot: Id, k: nat, s: seq<Node>, one: seq<seq<Node>>, other: seq<seq<Node>>)
    requires Ordered(pivot, s) && |s| <= k && multiset(one) == multiset(other)
    ensures IdSeq(PushedAll(pivot, k, s, one)) == IdSeq(PushedAll(pivot, k, s, other))
    ensures PushedAll(pivot, k, s, one) == PushedAll(pivot, k, s, other) <==>
            SameSightings(Nearest(pivot, k, IdSet(Sighted(s, one))), Sighted(s, one), Sighted(s, other))
  {
    PushedAllIsNearest(pivot, k, s, one);
    PushedAllIsNearest(pivot, k, s, other);
    SameSighted(s, one, other);
    AreSightings(pivot, k, s, one);
    AreSightings(pivot, k, s, other);
  }

  ghost predicate FirstOf(r: seq<Node>, all: seq<Node>)
  {
    forall i :: 0 <= i < |r| ==> r[i].id in IdSet(all) && r[i] == Sighting(all, IdSeq(r)[i])
  }

  lemma AreSightings(pivot: Id, k: nat, s: seq<Node>, batches: seq<seq<Node>>)
    requires Ordered(pivot, s) && |s| <= k
    ensures FirstOf(PushedAll(pivot, k, s, batches), Sighted(s, batches))
  {
    var r := PushedAll(pivot, k, s, batches);
    forall i | 0 <= i < |r|
      ensures r[i].id in IdSet(Sighted(s, batches)) && r[i] == Sighting(Sighted(s, batches), IdSeq(r)[i])
    {
      FirstSightings(pivot, k, s, batches, r[i]);
    }
  }

  /** An id reported under two addresses: the order shows. */
  lemma AddressFollowsOrder()
    ensures var a, b := Node(1, Some("a"), None), Node(1, Some("b"), None);
            PushedAll(0, 1, [], [[a], [b]]) != PushedAll(0, 1, [], [[b], [a]])
  {
    var a, b := Node(1, Some("a"), None), Node(1, Some("b"), None);
    PushOne(a, b);
    PushOne(b, a);
  }

  lemma PushOne(a: Node, b: Node)
    requires a.id == b.id
    ensures PushedAll(0, 1, [], [[a], [b]]) == [a]
  {
    FirstPush(a);
    SecondPush(a, b);
    assert [[a], [b]][..1] == [[a]] && [[a]][..0] == [];
    assert PushedAll(0, 1, [], [[a]]) == Pushed(0, 1, PushedAll(0, 1, [], []), [a]);
  }

  lemma FirstPush(a: Node)
    ensures Pushed(0, 1, [], [a]) == [a]
  {
    assert Front([a]) == [] && AddMissing([], []) == [];
    assert AddMissing([], [a]) == [a];
    assert [a][..0] == [] && SortByDistance(0, []) == [];
    assert SortByDistance(0, [a]) == [a];
  }

  lemma SecondPush(a: Node, b: Node)
    requires a.id == b.id
    ensures Pushed(0, 1, [a], [b]) == [a]
  {
    assert Front([b]) == [] && AddMissing([a], []) == [a];
    assert Last([a]).id in IdSet([a]);
    PositionFinds([a], b.id);
    assert AddMissing([a], [b]) == [a];
  }

  class NodeHeap {
    const pivot: Id
    const maxsize: nat
    var entries: seq<Node>
    var contacted: set<Id>

    ghost predicate Valid()
      reads this
    {
      Ordered(pivot, entries) && |entries| <= maxsize
    }

    constructor (pivot: Id, maxsize: nat)
      ensures Valid() && this.pivot == pivot && this.maxsize == maxsize
      ensures entries == [] && contacted == {}
    {
      this.pivot, this.maxsize := pivot, maxsize;
      entries, contacted := [], {};
    }

    /** Add nodes with ids not yet present, then keep the closest. */
    method Push(nodes: seq<Node>)
      requires Valid()
      modifies this`entries
      ensures Valid()
      ensures entries == Pushed(pivot, maxsize, old(entries), nodes)
      ensures IdSeq(entries) == Nearest(pivot, maxsize, old(IdSet(entries)) + IdSet(nodes))
    {
      PushedIsNearest(pivot, maxsize, entries, nodes);
      AddMissingNodes(entries, nodes);
      var added := false;
      var i := 0;
      while i < |nodes|
        invariant 0 <= i <= |nodes|
        invariant entries == AddMissing(old(entries), nodes[..i])
        invariant added <==> |entries| > |old(entries)|
      {
        assert Front(nodes[..i + 1]) == nodes[..i];
        if Position(entries, nodes[i].id).None? {
          entries := entries + [nodes[i]];
          added := true;
        }
        i := i + 1;
      }
      assert nodes[..i] == nodes;
      if added {
        entries := Take(SortByDistance(pivot, entries), maxsize);
      }
    }

    method Remove(peers: set<Id>)
      requires Valid()
      modifies this`entries
      ensures Valid()
      ensures entries == Outside(old(entries), peers)
      ensures IdSet(entries) == old(IdSet(entries)) - peers
    {
      OutsideOrdered(pivot, entries, peers);
      OutsideIds(entries, peers);
      entries := Outside(entries, peers);
    }

    method MarkContacted(id: Id)
      modifies this`contacted
      ensures contacted == old(contacted) + {id}
    {
      contacted := contacted + {id};
    }

    /** The nodes not contacted yet, closest first. */
    function Uncontacted(): (r: seq<Node>)
      reads this
    {
      Outside(entries, contacted)
    }

    predicate HaveContactedAll()
      reads this
    {
      Uncontacted() == []
    }

    lemma ContactedAllIds()
      ensures HaveContactedAll() <==> IdSet(entries) <= contacted
    {
      OutsideIds(entries, contacted);
      assert IdSet(entries) == (IdSet(entries) - contacted) + IdSet(entries) * contacted;
      if HaveContactedAll() {
        assert IdSet(Uncontacted()) == {};
      } else {
        assert Last(Uncontacted()).id in IdSet(Uncontacted());
      }
    }
  }
}
