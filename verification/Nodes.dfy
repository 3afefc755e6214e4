/** A peer of the network, as the routing table and the lookups carry it, and
    lists of peers told apart by their ids. */
module Nodes {
  import opened XorMetric

  datatype Option<+T> = None | Some(value: T)

  /** A node is told apart by its id alone; the address is where it was last
      seen, and a later sighting may carry another one. */
  datatype Node = Node(id: Id, ip: Option<string>, port: Option<nat>)

  function IdSeq(s: seq<Node>): (ids: seq<Id>)
    ensures |ids| == |s|
    ensures forall i :: 0 <= i < |s| ==> ids[i] == s[i].id
  {
    seq(|s|, i requires 0 <= i < |s| => s[i].id)
  }

  lemma CutAppend<T>(s: seq<T>, x: T, p: nat)
    requires p <= |s|
    ensures (s + [x])[..p] == s[..p]
    ensures (s + [x])[p..] == s[p..] + [x]
  {
  }

  function Front(s: seq<Node>): (r: seq<Node>)
    requires s != []
  {
    s[..|s| - 1]
  }

  function Last(s: seq<Node>): (n: Node)
    requires s != []
  {
    s[|s| - 1]
  }

  function IdSet(s: seq<Node>): (ids: set<Id>)
  {
    if s == [] then {} else IdSet(Front(s)) + {Last(s).id}
  }

  /** No id occurs twice (see `DistinctMeaning`). */
  predicate Distinct(s: seq<Node>)
  {
    s == [] || (Distinct(Front(s)) && Last(s).id !in IdSet(Front(s)))
  }

  lemma {:induction false} IdSetMember(s: seq<Node>, id: Id)
    ensures id in IdSet(s) <==> exists i :: 0 <= i < |s| && s[i].id == id
  {
    if s != [] {
      IdSetMember(Front(s), id);
      if i :| 0 <= i < |s| && s[i].id == id {
        if i < |s| - 1 {
          assert Front(s)[i].id == id;
        }
      }
      if id in IdSet(Front(s)) {
        var i :| 0 <= i < |Front(s)| && Front(s)[i].id == id;
        assert s[i].id == id;
      }
    }
  }

  lemma {:induction false} IdSetHas(s: seq<Node>, n: Node)
    requires n in s
    ensures n.id in IdSet(s)
  {
    IdSetMember(s, n.id);
  }

  lemma {:induction false} DistinctMeaning(s: seq<Node>)
    ensures Distinct(s) <==> forall i, j :: 0 <= i < j < |s| ==> s[i].id != s[j].id
  {
    if s != [] {
      var front := Front(s);
      DistinctMeaning(front);
      IdSetMember(front, Last(s).id);
      assert forall i :: 0 <= i < |front| ==> front[i] == s[i];
    }
  }

  lemma {:induction false} DistinctCount(s: seq<Node>)
    ensures |IdSet(s)| <= |s|
    ensures Distinct(s) <==> |IdSet(s)| == |s|
  {
    if s != [] {
      DistinctCount(Front(s));
    }
  }

  lemma AppendIds(s: seq<Node>, n: Node)
    ensures IdSet(s + [n]) == IdSet(s) + {n.id}
    ensures Distinct(s + [n]) <==> Distinct(s) && n.id !in IdSet(s)
  {
  }

  lemma {:induction false} ConcatIds(a: seq<Node>, b: seq<Node>)
    ensures IdSet(a + b) == IdSet(a) + IdSet(b)
    ensures Distinct(a + b) <==> Distinct(a) && Distinct(b) && IdSet(a) !! IdSet(b)
    decreases |b|
  {
    if b == [] {
      assert a + b == a;
    } else {
      ConcatIds(a, Front(b));
      assert a + b == (a + Front(b)) + [Last(b)];
      AppendIds(a + Front(b), Last(b));
    }
  }

  /** A prefix and the rest of a list of distinct ids share none. */
  lemma CutIds(s: seq<Node>, p: nat)
    requires p <= |s|
    ensures IdSet(s) == IdSet(s[..p]) + IdSet(s[p..])
    ensures Distinct(s) ==> Distinct(s[..p]) && Distinct(s[p..]) && IdSet(s[..p]) !! IdSet(s[p..])
  {
    assert s == s[..p] + s[p..];
    ConcatIds(s[..p], s[p..]);
  }

  /** The first position of `id`, if any. */
  function Position(s: seq<Node>, id: Id): (p: Option<nat>)
    ensures p.Some? ==> p.value < |s| && s[p.value].id == id
  {
    if s == [] then None
    else
      match Position(Front(s), id)
      case Some(p) => Some(p)
      case None => if Last(s).id == id then Some(|s| - 1) else None
  }

  lemma {:induction false} PositionFinds(s: seq<Node>, id: Id)
    ensures Position(s, id).Some? <==> id in IdSet(s)
    ensures forall i :: 0 <= i < |s| && s[i].id == id ==>
              Position(s, id).Some? && Position(s, id).value <= i
  {
    if s != [] {
      PositionFinds(Front(s), id);
      assert forall i :: 0 <= i < |Front(s)| ==> Front(s)[i] == s[i];
    }
  }

  function RemoveAt(s: seq<Node>, p: nat): (r: seq<Node>)
    requires p < |s|
  {
    s[..p] + s[p + 1..]
  }

  /** Taking a node out of a list of distinct ids takes out exactly its id. */
  lemma RemoveAtIds(s: seq<Node>, p: nat)
    requires p < |s| && Distinct(s)
    ensures Distinct(RemoveAt(s, p)) && IdSet(RemoveAt(s, p)) == IdSet(s) - {s[p].id}
  {
    CutIds(s, p);
    CutIds(s[p..], 1);
    assert s[p..][..1] == [] + [s[p]];
    AppendIds([], s[p]);
    assert s[p..][1..] == s[p + 1..];
    ConcatIds(s[..p], s[p + 1..]);
  }

  /** The nodes with an id other than `id`, in order. */
  function Without(s: seq<Node>, id: Id): (r: seq<Node>)
    ensures |r| <= |s|
  {
    if s == [] then []
    else if Last(s).id == id then Without(Front(s), id)
    else Without(Front(s), id) + [Last(s)]
  }

  lemma {:induction false} WithoutIds(s: seq<Node>, id: Id)
    ensures IdSet(Without(s, id)) == IdSet(s) - {id}
    ensures Distinct(s) ==> Distinct(Without(s, id))
    ensures id !in IdSet(s) ==> Without(s, id) == s
  {
    if s != [] {
      WithoutIds(Front(s), id);
      AppendIds(Without(Front(s), id), Last(s));
    }
  }

  lemma {:induction false} RemoveAtIsWithout(s: seq<Node>, p: nat)
    requires p < |s| && Distinct(s)
    ensures RemoveAt(s, p) == Without(s, s[p].id)
  {
    if p == |s| - 1 {
      WithoutIds(Front(s), s[p].id);
      assert RemoveAt(s, p) == Front(s);
    } else {
      RemoveAtIsWithout(Front(s), p);
      IdSetHas(Front(s), Front(s)[p]);
      assert RemoveAt(s, p) == RemoveAt(Front(s), p) + [Last(s)];
    }
  }
}
