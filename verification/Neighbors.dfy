/** The contacts the routing table offers a lookup: the nearest of a health
    tier. */
module Neighbors {
  import opened XorMetric
  import opened Nodes
  import opened Selection
  import opened Buckets
  import opened Tables

  /** Which contacts a selection may use. */
  datatype Tier = Healthy | NotStale | Everyone

  predicate InTier(health: map<Id, Health>, tier: Tier, id: Id)
  {
    match tier
    case Healthy => id !in health
    case NotStale => !IsStale(health, id)
    case Everyone => true
  }

  function AllPrimaries(bs: seq<Bucket>): (s: seq<Node>)
  {
    if bs == [] then [] else bs[0].nodes + AllPrimaries(bs[1..])
  }

  predicate Eligible(t: Table, target: Id, exclude: Option<Id>, tier: Tier, id: Id)
  {
    id != target && exclude != Some(id) && InTier(t.health, tier, id)
  }

  function KeepEligible(t: Table, s: seq<Node>, target: Id, exclude: Option<Id>, tier: Tier): (r: seq<Node>)
  {
    if s == [] then []
    else
      var rest := KeepEligible(t, Front(s), target, exclude, tier);
      if Eligible(t, target, exclude, tier, Last(s).id) then rest + [Last(s)] else rest
  }

  function ClosestOf(t: Table, target: Id, exclude: Option<Id>, tier: Tier): (r: seq<Node>)
  {
    Take(SortByDistance(target, KeepEligible(t, AllPrimaries(t.buckets), target, exclude, tier)), t.ksize)
  }

  /** Healthy contacts if there are enough, else those not stale, else all. */
  function FindNeighbors(t: Table, target: Id, exclude: Option<Id>): (r: seq<Node>)
  {
    var healthy := ClosestOf(t, target, exclude, Healthy);
    if |healthy| >= t.minLookup then healthy
    else
      var notStale := ClosestOf(t, target, exclude, NotStale);
      if notStale == [] then ClosestOf(t, target, exclude, Everyone) else notStale
  }

  // --- The pool a tier selects from ---

  ghost function PrimaryIds(t: Table): (ids: set<Id>)
  {
    IdSet(AllPrimaries(t.buckets))
  }

  ghost function Pool(t: Table, target: Id, exclude: Option<Id>, tier: Tier): (ids: set<Id>)
  {
    set id | id in PrimaryIds(t) && Eligible(t, target, exclude, tier, id)
  }

  lemma {:induction false} AllPrimariesIds(bs: seq<Bucket>, from: nat)
    requires Chain(bs, from) && forall i :: 0 <= i < |bs| ==> BucketOk(bs[i])
    ensures Distinct(AllPrimaries(bs))
    ensures forall id :: id in IdSet(AllPrimaries(bs)) ==> from <= id
    ensures forall id: Id :: bs != [] && from <= id ==>
              (id in IdSet(AllPrimaries(bs)) <==> id in IdSet(bs[IndexFor(bs, id)].nodes))
    decreases |bs|
  {
    if bs != [] {
      var rest := bs[1..];
      AllPrimariesIds(rest, bs[0].hi + 1);
      ConcatIds(bs[0].nodes, AllPrimaries(rest));
      assert BucketOk(bs[0]);
      if rest == [] {
        assert IdSet(AllPrimaries(rest)) == {};
      }
      forall id: Id | from <= id
        ensures id in IdSet(AllPrimaries(bs)) <==> id in IdSet(bs[IndexFor(bs, id)].nodes)
      {
        if rest != [] && !Covers(bs[0], id) {
          assert bs[IndexFor(bs, id)] == rest[IndexFor(rest, id)];
        }
      }
    }
  }

  lemma PrimaryIdsMeaning(t: Table, id: Id)
    requires TableOk(t)
    ensures id in PrimaryIds(t) <==> Primary(t, id)
  {
    AllPrimariesIds(t.buckets, 0);
  }

  lemma {:induction false} KeepEligibleIds(t: Table, s: seq<Node>, target: Id, exclude: Option<Id>, tier: Tier)
    requires Distinct(s)
    ensures var kept := KeepEligible(t, s, target, exclude, tier);
            && Distinct(kept)
            && forall id :: id in IdSet(kept) <==> id in IdSet(s) && Eligible(t, target, exclude, tier, id)
    decreases |s|
  {
    if s != [] {
      KeepEligibleIds(t, Front(s), target, exclude, tier);
      AppendIds(KeepEligible(t, Front(s), target, exclude, tier), Last(s));
    }
  }

  lemma ClosestIsNearest(t: Table, target: Id, exclude: Option<Id>, tier: Tier)
    requires TableOk(t)
    ensures IdSeq(ClosestOf(t, target, exclude, tier)) == Nearest(target, t.ksize, Pool(t, target, exclude, tier))
  {
    var all := AllPrimaries(t.buckets);
    AllPrimariesIds(t.buckets, 0);
    KeepEligibleIds(t, all, target, exclude, tier);
    var kept := KeepEligible(t, all, target, exclude, tier);
    assert IdSet(kept) == Pool(t, target, exclude, tier);
    SortSelectsNearest(target, t.ksize, kept);
  }

  /** The tier a lookup is given. */
  ghost function TierFor(t: Table, target: Id, exclude: Option<Id>): (tier: Tier)
  {
    if Min(t.ksize, |Pool(t, target, exclude, Healthy)|) >= t.minLookup then Healthy
    else if Pool(t, target, exclude, NotStale) != {} then NotStale
    else Everyone
  }

  /** The neighbours found are exactly the k closest of the whole tier, closest
      first, whatever the buckets they come from. */
  lemma FindNeighborsIsNearest(t: Table, target: Id, exclude: Option<Id>)
    requires TableOk(t)
    ensures IdSeq(FindNeighbors(t, target, exclude))
         == Nearest(target, t.ksize, Pool(t, target, exclude, TierFor(t, target, exclude)))
  {
    ClosestIsNearest(t, target, exclude, Healthy);
    ClosestIsNearest(t, target, exclude, NotStale);
    ClosestIsNearest(t, target, exclude, Everyone);
    NearestSpec(target, t.ksize, Pool(t, target, exclude, Healthy));
    NearestSpec(target, t.ksize, Pool(t, target, exclude, NotStale));
  }

  lemma NobodyFound(t: Table, target: Id, exclude: Option<Id>)
    requires TableOk(t)
    ensures FindNeighbors(t, target, exclude) == [] <==>
            || Pool(t, target, exclude, Everyone) == {}
            || (t.minLookup == 0 && Pool(t, target, exclude, Healthy) == {})
  {
    FindNeighborsIsNearest(t, target, exclude);
    var pool := Pool(t, target, exclude, TierFor(t, target, exclude));
    NearestSpec(target, t.ksize, pool);
    assert |FindNeighbors(t, target, exclude)| == Min(t.ksize, |pool|);
    assert pool <= Pool(t, target, exclude, Everyone);
  }

  lemma PoolMember(t: Table, target: Id, exclude: Option<Id>, tier: Tier, id: Id)
    requires TableOk(t)
    ensures id in Pool(t, target, exclude, tier) <==> Primary(t, id) && Eligible(t, target, exclude, tier, id)
  {
    PrimaryIdsMeaning(t, id);
  }

  /** A lookup gets nobody exactly when there is nobody but the target and the
      excluded node or, should the minimum be zero, nobody healthy. */
  lemma FindNeighborsNonEmpty(t: Table, target: Id, exclude: Option<Id>)
    requires TableOk(t)
    ensures FindNeighbors(t, target, exclude) == [] <==>
            || (forall id :: Primary(t, id) ==> id == target || exclude == Some(id))
            || (t.minLookup == 0 && forall id :: Primary(t, id) ==> id == target || exclude == Some(id) || id in t.health)
  {
    NobodyFound(t, target, exclude);
    forall id: Id
      ensures id in Pool(t, target, exclude, Everyone) <==>
              Primary(t, id) && id != target && exclude != Some(id)
      ensures id in Pool(t, target, exclude, Healthy) <==>
              Primary(t, id) && id != target && exclude != Some(id) && id !in t.health
    {
      PoolMember(t, target, exclude, Everyone, id);
      PoolMember(t, target, exclude, Healthy, id);
    }
  }

  /** Every contact of the target's own bucket ranks before every contact of
      another bucket, under the full distance. */
  lemma OwnBucketIsCloser(t: Table, target: Id, inside: Id, outside: Id)
    requires TableOk(t)
    requires Covers(BucketOf(t, target), inside) && !Covers(BucketOf(t, target), outside)
    ensures Xor(inside, target) < Xor(outside, target)
  {
    BucketOfCovers(t, target);
    var b := BucketOf(t, target);
    var w: nat :| IsBlock(b.lo, b.hi, w);
    InsideIsCloser(b.lo, b.hi, w, target, inside, outside);
  }

  /** A lookup is given a contact outside the target's bucket only after every
      usable contact inside it. */
  lemma OwnBucketFirst(t: Table, target: Id, exclude: Option<Id>, p: nat, inside: Id)
    requires TableOk(t) && p < |FindNeighbors(t, target, exclude)|
    requires !Covers(BucketOf(t, target), FindNeighbors(t, target, exclude)[p].id)
    requires inside in Pool(t, target, exclude, TierFor(t, target, exclude))
    requires Covers(BucketOf(t, target), inside)
    ensures exists q :: 0 <= q < p && FindNeighbors(t, target, exclude)[q].id == inside
  {
    var r := FindNeighbors(t, target, exclude);
    FindNeighborsIsNearest(t, target, exclude);
    OwnBucketIsCloser(t, target, inside, r[p].id);
    NearestSpec(target, t.ksize, Pool(t, target, exclude, TierFor(t, target, exclude)));
    var q := CloserIsEarlier(target, t.ksize, Pool(t, target, exclude, TierFor(t, target, exclude)),
                             IdSeq(r), p, inside);
    assert r[q].id == inside;
  }
}
