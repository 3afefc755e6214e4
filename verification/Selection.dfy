/**
 The `k` ids of a pool closest to a target.

 `IsNearest` says what the selection is, without saying how it is computed;
 `NearestUnique` shows it leaves no choice, and `MergeNearest` that truncating
 to `k` between two additions loses nothing, which is why a lookup may process
 the answers of a round in any order.
 */
module Selection {
  import opened XorMetric
  import opened Nodes

  function Min(a: nat, b: nat): (m: nat)
  {
    if a < b then a else b
  }

  ghost predicate Ascending(target: Id, r: seq<Id>)
  {
    forall i, j :: 0 <= i < j < |r| ==> Xor(r[i], target) < Xor(r[j], target)
  }

  function Elems(r: seq<Id>): (s: set<Id>)
  {
    set x | x in r
  }

  /** `far` is farther from the target than every id of `r`. */
  ghost predicate Beyond(target: Id, r: seq<Id>, far: Id)
  {
    forall y :: y in r ==> Xor(y, target) < Xor(far, target)
  }

  /** `r` lists the `k` ids of `pool` closest to `target`, closest first, or
      the whole pool if it has fewer. */
  ghost predicate IsNearest(target: Id, k: nat, pool: set<Id>, r: seq<Id>)
  {
    && Ascending(target, r)
    && Elems(r) <= pool
    && |r| == Min(k, |pool|)
    && forall x :: x in pool && x !in r ==> Beyond(target, r, x)
  }

  lemma {:induction false} AscendingCount(target: Id, r: seq<Id>)
    requires Ascending(target, r)
    ensures |Elems(r)| == |r|
  {
    if r == [] {
      assert Elems(r) == {};
    } else {
      var front, last := r[..|r| - 1], r[|r| - 1];
      AscendingCount(target, front);
      assert Elems(r) == Elems(front) + {last};
      assert last !in front;
    }
  }

  lemma SubsetSize(a: set<Id>, b: set<Id>)
    requires a <= b
    ensures |a| <= |b|
    ensures |a| == |b| ==> a == b
  {
    assert b == a + (b - a);
  }

  /** Two lists of one pool that both satisfy `IsNearest` hold the same ids. */
  lemma SameNearestIds(target: Id, k: nat, pool: set<Id>, r: seq<Id>, s: seq<Id>)
    requires IsNearest(target, k, pool, r) && IsNearest(target, k, pool, s)
    ensures Elems(r) == Elems(s)
  {
    AscendingCount(target, r);
    AscendingCount(target, s);
    if exists x :: x in r && x !in s {
      var x :| x in r && x !in s;
      assert Beyond(target, s, x);
      assert forall y :: y in s && y !in r ==> Beyond(target, r, y);
      assert Elems(s) <= Elems(r);
      SubsetSize(Elems(s), Elems(r));
    } else {
      assert forall x :: x in Elems(r) ==> x in Elems(s);
      SubsetSize(Elems(r), Elems(s));
    }
  }

  /** An ascending list is determined by its ids. */
  lemma {:induction false} AscendingUnique(target: Id, r: seq<Id>, s: seq<Id>)
    requires Ascending(target, r) && Ascending(target, s) && Elems(r) == Elems(s)
    ensures r == s
    decreases |r|
  {
    AscendingCount(target, r);
    AscendingCount(target, s);
    if r != [] {
      var a, b := r[|r| - 1], s[|s| - 1];
      LastIsFarthest(target, r);
      LastIsFarthest(target, s);
      assert a in Elems(r) && b in Elems(s);
      XorInjective(a, b, target);
      assert Elems(r[..|r| - 1]) == Elems(r) - {a};
      assert Elems(s[..|s| - 1]) == Elems(s) - {b};
      AscendingUnique(target, r[..|r| - 1], s[..|s| - 1]);
    }
  }

  lemma LastIsFarthest(target: Id, r: seq<Id>)
    requires Ascending(target, r) && r != []
    ensures forall x :: x in Elems(r) ==> Xor(x, target) <= Xor(r[|r| - 1], target)
    ensures Elems(r[..|r| - 1]) == Elems(r) - {r[|r| - 1]}
  {
  }

  lemma NearestUnique(target: Id, k: nat, pool: set<Id>, r: seq<Id>, s: seq<Id>)
    requires IsNearest(target, k, pool, r) && IsNearest(target, k, pool, s)
    ensures r == s
  {
    SameNearestIds(target, k, pool, r, s);
    AscendingUnique(target, r, s);
  }

  /** The id of `pool` closest to `target`. */
  ghost function Closest(target: Id, pool: set<Id>): (m: Id)
    requires pool != {}
    decreases pool
  {
    var x :| x in pool;
    if pool == {x} then x
    else
      var m := Closest(target, pool - {x});
      if Xor(m, target) < Xor(x, target) then m else x
  }

  lemma {:induction false} ClosestSpec(target: Id, pool: set<Id>)
    requires pool != {}
    ensures Closest(target, pool) in pool
    ensures forall x :: x in pool && x != Closest(target, pool) ==>
              Xor(Closest(target, pool), target) < Xor(x, target)
    decreases pool
  {
    var m := Closest(target, pool);
    if y :| y in pool && m == (if pool == {y} then y else
        if Xor(Closest(target, pool - {y}), target) < Xor(y, target)
        then Closest(target, pool - {y}) else y) {
      if pool != {y} {
        ClosestSpec(target, pool - {y});
        var c := Closest(target, pool - {y});
        if Xor(c, target) == Xor(y, target) {
          XorInjective(c, y, target);
        }
      }
    }
  }

  /** The `k` ids of `pool` closest to `target`, closest first: what
      `IsNearest` describes (see `NearestSpec`). */
  ghost function Nearest(target: Id, k: nat, pool: set<Id>): (r: seq<Id>)
    decreases k
  {
    if k == 0 || pool == {} then []
    else
      var m := Closest(target, pool);
      [m] + Nearest(target, k - 1, pool - {m})
  }

  lemma {:induction false} NearestSpec(target: Id, k: nat, pool: set<Id>)
    ensures IsNearest(target, k, pool, Nearest(target, k, pool))
    decreases k
  {
    if k != 0 && pool != {} {
      var m := Closest(target, pool);
      ClosestSpec(target, pool);
      NearestSpec(target, k - 1, pool - {m});
      ConsNearest(target, k, pool, m, Nearest(target, k - 1, pool - {m}));
    }
  }

  lemma NearestWithin(target: Id, k: nat, pool: set<Id>)
    ensures Elems(Nearest(target, k, pool)) <= pool
  {
    NearestSpec(target, k, pool);
  }

  /** A list that satisfies `IsNearest` is the one `Nearest` gives. */
  lemma NearestIs(target: Id, k: nat, pool: set<Id>, r: seq<Id>)
    requires IsNearest(target, k, pool, r)
    ensures r == Nearest(target, k, pool)
  {
    NearestSpec(target, k, pool);
    NearestUnique(target, k, pool, r, Nearest(target, k, pool));
  }

  lemma ConsNearest(target: Id, k: nat, pool: set<Id>, m: Id, rest: seq<Id>)
    requires 0 < k && m in pool
    requires forall x :: x in pool && x != m ==> Xor(m, target) < Xor(x, target)
    requires IsNearest(target, k - 1, pool - {m}, rest)
    ensures IsNearest(target, k, pool, [m] + rest)
  {
    var r := [m] + rest;
    assert Elems(r) == {m} + Elems(rest);
    assert |pool - {m}| == |pool| - 1;
    ConsAscending(target, m, rest);
    forall x | x in pool && x !in r
      ensures Beyond(target, r, x)
    {
      ConsBeyond(target, m, rest, x);
    }
  }

  lemma ConsBeyond(target: Id, m: Id, rest: seq<Id>, x: Id)
    requires Xor(m, target) < Xor(x, target) && Beyond(target, rest, x)
    ensures Beyond(target, [m] + rest, x)
  {
  }

  lemma ConsAscending(target: Id, m: Id, rest: seq<Id>)
    requires Ascending(target, rest)
    requires forall x :: x in Elems(rest) ==> Xor(m, target) < Xor(x, target)
    ensures Ascending(target, [m] + rest)
  {
  }

  /** Keeping only the `k` closest of `a` before adding `b` changes nothing. */
  lemma MergeNearest(target: Id, k: nat, a: set<Id>, b: set<Id>)
    ensures Nearest(target, k, Elems(Nearest(target, k, a)) + b) == Nearest(target, k, a + b)
  {
    var kept := Nearest(target, k, a);
    var r := Nearest(target, k, Elems(kept) + b);
    NearestSpec(target, k, a);
    NearestSpec(target, k, Elems(kept) + b);
    AscendingCount(target, kept);
    if |kept| < k {
      SubsetSize(Elems(kept), a);
    } else {
      StillNearest(target, k, a, b, kept, r);
      NearestIs(target, k, a + b, r);
    }
  }

  lemma StillNearest(target: Id, k: nat, a: set<Id>, b: set<Id>, kept: seq<Id>, r: seq<Id>)
    requires IsNearest(target, k, a, kept) && |kept| == k
    requires IsNearest(target, k, Elems(kept) + b, r)
    ensures IsNearest(target, k, a + b, r)
  {
    AscendingCount(target, kept);
    SubsetSize(Elems(kept), Elems(kept) + b);
    SubsetSize(Elems(kept), a + b);
    forall x | x in a + b && x !in r
      ensures Beyond(target, r, x)
    {
      if x !in Elems(kept) + b {
        DroppedIsBeyond(target, k, kept, b, r, x);
      }
    }
  }

  /** With `k` ids kept that are all closer than `x`, every id of a later
      selection is closer than `x` too. */
  lemma DroppedIsBeyond(target: Id, k: nat, kept: seq<Id>, b: set<Id>, r: seq<Id>, x: Id)
    requires Ascending(target, kept) && |kept| == k
    requires Beyond(target, kept, x) && x !in b
    requires IsNearest(target, k, Elems(kept) + b, r)
    ensures Beyond(target, r, x)
  {
    AscendingCount(target, kept);
    AscendingCount(target, r);
    forall y | y in r
      ensures Xor(y, target) < Xor(x, target)
    {
      if Xor(x, target) <= Xor(y, target) {
        assert y in Elems(r) && y !in Elems(kept);
        assert forall z :: z in kept && z !in r ==> Beyond(target, r, z);
        assert Elems(kept) <= Elems(r);
        SubsetSize(Elems(kept), Elems(r));
      }
    }
  }

  /** An id selected from a pool is selected from every part that contains it. */
  lemma SelectedFromPart(target: Id, k: nat, pool: set<Id>, part: set<Id>, id: Id)
    requires part <= pool && id in part && id in Nearest(target, k, pool)
    ensures id in Nearest(target, k, part)
  {
    var all, r := Nearest(target, k, pool), Nearest(target, k, part);
    NearestSpec(target, k, pool);
    NearestSpec(target, k, part);
    AscendingCount(target, all);
    AscendingCount(target, r);
    if id !in r {
      assert Beyond(target, r, id);
      assert forall x :: x in pool && x !in all ==> Beyond(target, all, x);
      assert Elems(r) + {id} <= Elems(all);
      SubsetSize(Elems(r) + {id}, Elems(all));
      SubsetSize(Elems(r), part);
    }
  }

  /** A pool of at most `k` ids is selected whole. */
  lemma NearestOfFew(target: Id, k: nat, pool: set<Id>)
    requires |pool| <= k
    ensures Elems(Nearest(target, k, pool)) == pool
  {
    NearestSpec(target, k, pool);
    AscendingCount(target, Nearest(target, k, pool));
    SubsetSize(Elems(Nearest(target, k, pool)), pool);
  }

  /** A selected id is preceded by every id of the pool that is closer. */
  lemma CloserIsEarlier(target: Id, k: nat, pool: set<Id>, r: seq<Id>, p: nat, x: Id) returns (q: nat)
    requires IsNearest(target, k, pool, r) && p < |r|
    requires x in pool && Xor(x, target) < Xor(r[p], target)
    ensures q < p && r[q] == x
  {
    assert x in r by {
      assert r[p] in r;
    }
    q :| 0 <= q < |r| && r[q] == x;
  }

  // --- Sorting nodes by distance ---

  ghost predicate SortedByDistance(target: Id, s: seq<Node>)
  {
    forall i, j :: 0 <= i < j < |s| ==> Xor(s[i].id, target) <= Xor(s[j].id, target)
  }

  function InsertByDistance(target: Id, s: seq<Node>, n: Node): (r: seq<Node>)
    ensures multiset(r) == multiset(s) + multiset{n}
  {
    if s == [] then [n]
    else if Xor(n.id, target) < Xor(s[0].id, target) then [n] + s
    else
      assert s == [s[0]] + s[1..];
      [s[0]] + InsertByDistance(target, s[1..], n)
  }

  /** The nodes of `s` by distance, nodes at the same distance in the order
      they had. */
  function SortByDistance(target: Id, s: seq<Node>): (r: seq<Node>)
    ensures multiset(r) == multiset(s)
  {
    if s == [] then []
    else
      assert s == s[..|s| - 1] + [s[|s| - 1]];
      InsertByDistance(target, SortByDistance(target, s[..|s| - 1]), s[|s| - 1])
  }

  lemma {:induction false} InsertKeepsSorted(target: Id, s: seq<Node>, n: Node)
    requires SortedByDistance(target, s)
    ensures SortedByDistance(target, InsertByDistance(target, s, n))
  {
    if s != [] && Xor(s[0].id, target) <= Xor(n.id, target) {
      InsertKeepsSorted(target, s[1..], n);
      assert forall m :: m in s[1..] ==> Xor(s[0].id, target) <= Xor(m.id, target);
      InsertBelow(target, s[1..], n, Xor(s[0].id, target));
    }
  }

  lemma {:induction false} InsertBelow(target: Id, s: seq<Node>, n: Node, least: nat)
    requires forall m :: m in s ==> least <= Xor(m.id, target)
    requires least <= Xor(n.id, target)
    ensures forall m :: m in InsertByDistance(target, s, n) ==> least <= Xor(m.id, target)
  {
    forall m | m in InsertByDistance(target, s, n)
      ensures least <= Xor(m.id, target)
    {
      assert m in multiset(InsertByDistance(target, s, n));
    }
  }

  lemma {:induction false} SortSorts(target: Id, s: seq<Node>)
    ensures SortedByDistance(target, SortByDistance(target, s))
  {
    if s != [] {
      SortSorts(target, s[..|s| - 1]);
      InsertKeepsSorted(target, SortByDistance(target, s[..|s| - 1]), s[|s| - 1]);
    }
  }

  function Take(s: seq<Node>, k: nat): (r: seq<Node>)
    ensures |r| == Min(k, |s|)
  {
    s[..Min(k, |s|)]
  }

  lemma SortedNodesAscend(target: Id, s: seq<Node>)
    requires SortedByDistance(target, s) && Distinct(s)
    ensures Ascending(target, IdSeq(s))
  {
    DistinctMeaning(s);
    forall i, j | 0 <= i < j < |s|
      ensures Xor(s[i].id, target) < Xor(s[j].id, target)
    {
      if Xor(s[i].id, target) == Xor(s[j].id, target) {
        XorInjective(s[i].id, s[j].id, target);
      }
    }
  }

  lemma {:induction false} IdSetIsElems(s: seq<Node>)
    ensures IdSet(s) == Elems(IdSeq(s))
  {
    forall id: Id
      ensures id in IdSet(s) <==> id in IdSeq(s)
    {
      IdSetMember(s, id);
    }
  }

  lemma SameNodesSameIds(s: seq<Node>, r: seq<Node>)
    requires forall n :: n in s ==> n in r
    ensures IdSet(s) <= IdSet(r)
  {
    forall id | id in IdSet(s)
      ensures id in IdSet(r)
    {
      IdSetMember(s, id);
      var i :| 0 <= i < |s| && s[i].id == id;
      IdSetHas(r, s[i]);
    }
  }

  lemma MultisetMembers(s: seq<Node>, r: seq<Node>)
    requires multiset(s) == multiset(r)
    ensures forall n :: n in s ==> n in r
    ensures |s| == |r|
  {
    assert |s| == |multiset(s)| == |r|;
    forall n | n in s
      ensures n in r
    {
      assert n in multiset(s);
    }
  }

  lemma MultisetKeepsIds(s: seq<Node>, r: seq<Node>)
    requires multiset(s) == multiset(r)
    ensures IdSet(s) == IdSet(r)
    ensures Distinct(s) ==> Distinct(r)
  {
    MultisetMembers(s, r);
    MultisetMembers(r, s);
    SameNodesSameIds(s, r);
    SameNodesSameIds(r, s);
    DistinctCount(s);
    DistinctCount(r);
  }

  /** Sorting distinct nodes by distance and truncating selects the nearest. */
  lemma SortSelectsNearest(target: Id, k: nat, s: seq<Node>)
    requires Distinct(s)
    ensures IdSeq(Take(SortByDistance(target, s), k)) == Nearest(target, k, IdSet(s))
  {
    var r := SortByDistance(target, s);
    SortSorts(target, s);
    MultisetKeepsIds(s, r);
    PrefixIsNearest(target, k, r);
    NearestIs(target, k, IdSet(s), IdSeq(Take(r, k)));
  }

  lemma PrefixIsNearest(target: Id, k: nat, r: seq<Node>)
    requires SortedByDistance(target, r) && Distinct(r)
    ensures IsNearest(target, k, IdSet(r), IdSeq(Take(r, k)))
  {
    SortedNodesAscend(target, r);
    IdSetIsElems(r);
    CutIsNearest(target, k, IdSeq(r));
    TakeIds(r, k);
  }

  lemma TakeIds(r: seq<Node>, k: nat)
    ensures IdSeq(Take(r, k)) == IdSeq(r)[..Min(k, |IdSeq(r)|)]
  {
  }

  lemma CutIsNearest(target: Id, k: nat, ids: seq<Id>)
    requires Ascending(target, ids)
    ensures IsNearest(target, k, Elems(ids), ids[..Min(k, |ids|)])
  {
    AscendingCount(target, ids);
    AscendingPrefix(target, ids, Min(k, |ids|));
  }

  lemma AscendingPrefix(target: Id, ids: seq<Id>, p: nat)
    requires Ascending(target, ids) && p <= |ids|
    ensures Ascending(target, ids[..p]) && Elems(ids[..p]) <= Elems(ids)
    ensures forall x :: x in Elems(ids) && x !in ids[..p] ==> Beyond(target, ids[..p], x)
  {
  }
}
