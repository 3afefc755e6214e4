/**
 The routing table as a value: what each operation makes of it, and the
 invariant that every reachable table satisfies. `RoutingTable`
 (RoutingTable.dfy) carries the operations out in place.
 */
module Tables {
  import opened XorMetric
  import opened Nodes
  import opened Selection
  import opened Buckets

  /** Failures in a row after which a contact is stale. */
  const STALE_AFTER_FAILURES: nat := 5

  /** Kept for a primary contact that has failed since its last response.
      Times are in nanoseconds. */
  datatype Health = Health(failures: nat, firstFailure: nat, retryAfter: nat)

  datatype Table = Table(
    local: Id,
    ksize: nat,
    minLookup: nat,
    buckets: seq<Bucket>,
    health: map<Id, Health>)

  // --- The buckets partition the key space ---

  /** The buckets are consecutive, from `from` to the end of the key space. */
  ghost predicate Chain(bs: seq<Bucket>, from: nat)
  {
    if bs == [] then from == KeySpace()
    else bs[0].lo == from && bs[0].lo <= bs[0].hi && Chain(bs[1..], bs[0].hi + 1)
  }

  /** The first bucket covering `id`, or else the last bucket. */
  function IndexFor(bs: seq<Bucket>, id: Id): (idx: nat)
    requires bs != []
    ensures idx < |bs|
  {
    if |bs| == 1 || Covers(bs[0], id) then 0 else 1 + IndexFor(bs[1..], id)
  }

  lemma {:induction false} ChainBounds(bs: seq<Bucket>, from: nat, i: nat)
    requires Chain(bs, from) && i < |bs|
    ensures from <= bs[i].lo <= bs[i].hi
  {
    if i != 0 {
      ChainBounds(bs[1..], bs[0].hi + 1, i - 1);
    }
  }

  /** Every id is covered by exactly one bucket, the one `IndexFor` finds. */
  lemma {:induction false} IndexForUnique(bs: seq<Bucket>, from: nat, id: Id)
    requires Chain(bs, from) && from <= id && bs != []
    ensures forall i :: 0 <= i < |bs| ==> (Covers(bs[i], id) <==> i == IndexFor(bs, id))
  {
    if Covers(bs[0], id) {
      forall i | 0 < i < |bs|
        ensures !Covers(bs[i], id)
      {
        ChainBounds(bs[1..], bs[0].hi + 1, i - 1);
      }
    } else {
      IndexForUnique(bs[1..], bs[0].hi + 1, id);
      forall i | 0 < i < |bs|
        ensures Covers(bs[i], id) <==> i == IndexFor(bs, id)
      {
        assert bs[i] == bs[1..][i - 1];
      }
    }
  }

  lemma {:induction false} ChainUpdate(bs: seq<Bucket>, from: nat, idx: nat, b: Bucket)
    requires Chain(bs, from) && idx < |bs| && b.lo == bs[idx].lo && b.hi == bs[idx].hi
    ensures Chain(bs[idx := b], from)
  {
    if idx == 0 {
      assert bs[0 := b][1..] == bs[1..];
    } else {
      ChainUpdate(bs[1..], bs[0].hi + 1, idx - 1, b);
      assert bs[idx := b][1..] == bs[1..][idx - 1 := b];
    }
  }

  function SplitAt(bs: seq<Bucket>, idx: nat): (r: seq<Bucket>)
    requires idx < |bs| && bs[idx].lo < bs[idx].hi
  {
    bs[..idx] + [Split(bs[idx]).0, Split(bs[idx]).1] + bs[idx + 1..]
  }

  lemma {:induction false} ChainSplit(bs: seq<Bucket>, from: nat, idx: nat)
    requires Chain(bs, from) && idx < |bs| && bs[idx].lo < bs[idx].hi
    ensures Chain(SplitAt(bs, idx), from)
  {
    var r := SplitAt(bs, idx);
    if idx == 0 {
      assert r[1..] == [Split(bs[0]).1] + bs[1..];
      assert r[1..][1..] == bs[1..];
    } else {
      ChainSplit(bs[1..], bs[0].hi + 1, idx - 1);
      assert r[1..] == SplitAt(bs[1..], idx - 1);
    }
  }

  // --- The invariant ---

  predicate IsStale(health: map<Id, Health>, id: Id)
  {
    id in health && health[id].failures >= STALE_AFTER_FAILURES
  }

  /** Failure state only for primary contacts of this block. */
  ghost predicate HealthFits(health: map<Id, Health>, b: Bucket)
  {
    forall id :: id in health && Covers(b, id) ==> id in IdSet(b.nodes)
  }

  ghost predicate NoStale(health: map<Id, Health>, b: Bucket)
  {
    forall id :: id in IdSet(b.nodes) ==> !IsStale(health, id)
  }

  ghost predicate Fits(local: Id, ksize: nat, health: map<Id, Health>, b: Bucket)
  {
    && BucketOk(b) && b.ksize == ksize
    && local !in AllIds(b)
    && HealthFits(health, b)
    && (b.waiting != [] ==> NoStale(health, b))
  }

  ghost predicate BucketFits(t: Table, b: Bucket)
  {
    Fits(t.local, t.ksize, t.health, b)
  }

  ghost predicate AllFit(t: Table)
  {
    forall i :: 0 <= i < |t.buckets| ==> BucketFits(t, t.buckets[i])
  }

  ghost predicate TableOk(t: Table)
  {
    1 <= t.ksize && t.buckets != [] && Chain(t.buckets, 0) && AllFit(t)
  }

  function BucketOf(t: Table, id: Id): (b: Bucket)
    requires t.buckets != []
  {
    t.buckets[IndexFor(t.buckets, id)]
  }

  ghost predicate Primary(t: Table, id: Id)
    requires t.buckets != []
  {
    id in IdSet(BucketOf(t, id).nodes)
  }

  lemma BucketOfCovers(t: Table, id: Id)
    requires TableOk(t)
    ensures Covers(BucketOf(t, id), id) && BucketFits(t, BucketOf(t, id))
  {
    IndexForUnique(t.buckets, 0, id);
  }

  function NewTable(local: Id, ksize: nat): (t: Table)
  {
    Table(local, ksize, 2, [Bucket(0, KeySpace() - 1, [], [], ksize)], map[])
  }

  lemma NewTableOk(local: Id, ksize: nat)
    requires 1 <= ksize
    ensures TableOk(NewTable(local, ksize))
  {
    WholeSpaceIsBlock(ID_BITS);
    KeySpaceIsPow2();
    var b := NewTable(local, ksize).buckets[0];
    assert IsBlock(b.lo, b.hi, ID_BITS);
    assert IdSet([]) == {};
  }

  /** Replacing one bucket by another over the same block that fits, with
      failure state changed at most inside that block. */
  lemma ReplaceBucketOk(t: Table, idx: nat, b: Bucket, health: map<Id, Health>)
    requires TableOk(t) && idx < |t.buckets| && SameBlock(t.buckets[idx], b)
    requires BucketFits(t.(health := health), b)
    requires forall id :: !Covers(b, id) ==>
               (id in health <==> id in t.health) && (id in health ==> health[id] == t.health[id])
    ensures TableOk(t.(buckets := t.buckets[idx := b], health := health))
  {
    ChainUpdate(t.buckets, 0, idx, b);
    var after := t.(buckets := t.buckets[idx := b], health := health);
    forall i | 0 <= i < |after.buckets|
      ensures BucketFits(after, after.buckets[i])
    {
      if i != idx {
        OtherBucketFits(t, idx, i, health);
      }
    }
  }

  lemma OtherBucketFits(t: Table, idx: nat, i: nat, health: map<Id, Health>)
    requires TableOk(t) && idx < |t.buckets| && i < |t.buckets| && i != idx
    requires forall id :: !Covers(t.buckets[idx], id) ==>
               (id in health <==> id in t.health) && (id in health ==> health[id] == t.health[id])
    ensures BucketFits(t.(health := health), t.buckets[i])
  {
    var b := t.buckets[i];
    forall id | Covers(b, id)
      ensures !Covers(t.buckets[idx], id)
    {
      IndexForUnique(t.buckets, 0, id);
    }
    assert AllCovered(b, IdSet(b.nodes));
  }

  // --- remove_contact ---

  function WithBucket(t: Table, idx: nat, b: Bucket): (after: Table)
    requires idx < |t.buckets|
  {
    t.(buckets := t.buckets[idx := b])
  }

  function RemoveContact(t: Table, id: Id): (after: Table)
    requires t.buckets != []
    ensures |after.buckets| == |t.buckets|
  {
    var idx := IndexFor(t.buckets, id);
    WithBucket(t, idx, RemoveNode(t.buckets[idx], id)).(health := t.health - {id})
  }

  lemma RemoveContactOk(t: Table, id: Id)
    requires TableOk(t)
    ensures TableOk(RemoveContact(t, id))
  {
    var idx := IndexFor(t.buckets, id);
    var b := t.buckets[idx];
    var health := t.health - {id};
    BucketOfCovers(t, id);
    RemovedBucketFits(t, b, id);
    ReplaceBucketOk(t, idx, RemoveNode(b, id), health);
    assert RemoveContact(t, id)
        == t.(buckets := t.buckets[idx := RemoveNode(b, id)], health := health);
  }

  lemma RemovedBucketFits(t: Table, b: Bucket, id: Id)
    requires BucketFits(t, b)
    ensures BucketFits(t.(health := t.health - {id}), RemoveNode(b, id))
  {
    RemoveNodeOk(b, id);
    WithoutIds(b.waiting, id);
    if b.waiting == [] {
      assert IdSet(b.waiting) == {};
    } else {
      assert IdSet(b.waiting) == IdSet(Front(b.waiting)) + {Last(b.waiting).id};
    }
  }

  // --- add_contact ---

  /** The first stale contact of `s`, in list order. */
  function FirstStale(s: seq<Node>, health: map<Id, Health>): (n: Option<Node>)
    ensures n.Some? ==> n.value in s && IsStale(health, n.value.id)
  {
    if s == [] then None
    else
      match FirstStale(Front(s), health)
      case Some(n) => Some(n)
      case None => if IsStale(health, Last(s).id) then Some(Last(s)) else None
  }

  lemma {:induction false} FirstStaleNone(s: seq<Node>, health: map<Id, Health>)
    ensures FirstStale(s, health).None? <==> forall id :: id in IdSet(s) ==> !IsStale(health, id)
  {
    if s != [] {
      FirstStaleNone(Front(s), health);
    }
  }

  /** A full bucket gives up a stale contact for a node that is responding. */
  function ReplaceStaleIfFull(t: Table, idx: nat, id: Id): (after: Table)
    requires idx < |t.buckets|
    ensures |after.buckets| == |t.buckets|
  {
    var b := t.buckets[idx];
    if |b.nodes| < t.ksize || Contains(b, id) then t
    else
      match FirstStale(b.nodes, t.health)
      case None => t
      case Some(stale) => RemoveContact(t, stale.id)
  }

  /** Afterwards the bucket has room for the node, or holds it, or has no stale
      contact. */
  lemma ReplaceStaleOk(t: Table, id: Id)
    requires TableOk(t)
    ensures var idx := IndexFor(t.buckets, id);
            var after := ReplaceStaleIfFull(t, idx, id);
            && TableOk(after)
            && |after.buckets| == |t.buckets| && IndexFor(after.buckets, id) == idx
            && SameBlock(after.buckets[idx], t.buckets[idx])
            && (|after.buckets[idx].nodes| < t.ksize
                || id in IdSet(after.buckets[idx].nodes)
                || NoStale(after.health, after.buckets[idx]))
  {
    var idx := IndexFor(t.buckets, id);
    var b := t.buckets[idx];
    BucketOfCovers(t, id);
    PositionFinds(b.nodes, id);
    FirstStaleNone(b.nodes, t.health);
    var after := ReplaceStaleIfFull(t, idx, id);
    if after != t {
      var stale := FirstStale(b.nodes, t.health).value;
      StaleRemoval(t, idx, stale);
      IndexForUnique(after.buckets, 0, id);
    }
  }

  /** Removing a stale contact frees a place: nothing was waiting for it. */
  lemma StaleRemoval(t: Table, idx: nat, stale: Node)
    requires TableOk(t) && idx < |t.buckets|
    requires stale in t.buckets[idx].nodes && IsStale(t.health, stale.id)
    ensures var after := RemoveContact(t, stale.id);
            && TableOk(after)
            && after.buckets == t.buckets[idx := RemoveNode(t.buckets[idx], stale.id)]
            && SameBlock(after.buckets[idx], t.buckets[idx])
            && |after.buckets[idx].nodes| == |t.buckets[idx].nodes| - 1
            && after.buckets[idx].waiting == [] && t.buckets[idx].waiting == []
            && IdSet(after.buckets[idx].nodes) == IdSet(t.buckets[idx].nodes) - {stale.id}
  {
    var b := t.buckets[idx];
    IdSetHas(b.nodes, stale);
    assert BucketFits(t, b);
    assert Covers(b, stale.id);
    IndexForUnique(t.buckets, 0, stale.id);
    RemoveContactOk(t, stale.id);
    RemoveNodeOk(b, stale.id);
  }

  function SplitBucket(t: Table, idx: nat): (after: Table)
    requires idx < |t.buckets| && t.buckets[idx].lo < t.buckets[idx].hi
  {
    t.(buckets := SplitAt(t.buckets, idx))
  }

  lemma SplitBucketOk(t: Table, idx: nat)
    requires TableOk(t) && idx < |t.buckets| && t.buckets[idx].lo < t.buckets[idx].hi
    ensures TableOk(SplitBucket(t, idx))
  {
    ChainSplit(t.buckets, 0, idx);
    HalvesFit(t, t.buckets[idx]);
    var after := SplitBucket(t, idx);
    forall i | 0 <= i < |after.buckets|
      ensures BucketFits(after, after.buckets[i])
    {
      if i < idx {
        assert after.buckets[i] == t.buckets[i];
        assert BucketFits(t, t.buckets[i]);
      } else if i > idx + 1 {
        assert after.buckets[i] == t.buckets[i - 1];
        assert BucketFits(t, t.buckets[i - 1]);
      }
    }
  }

  lemma HalvesFit(t: Table, b: Bucket)
    requires BucketFits(t, b) && b.lo < b.hi
    ensures BucketFits(t, Split(b).0) && BucketFits(t, Split(b).1)
  {
    SplitOk(b);
    HalfKeepsPrimaries(b, b.lo, Mid(b));
    HalfKeepsPrimaries(b, Mid(b) + 1, b.hi);
    HalfHealth(t, b, Split(b).0);
    HalfHealth(t, b, Split(b).1);
  }

  /** A contact that enters a half as primary from the replacement list has no
      failure state, so a half with waiting contacts has no stale one either. */
  lemma HalfHealth(t: Table, b: Bucket, half: Bucket)
    requires BucketFits(t, b) && b.lo <= half.lo && half.hi <= b.hi
    requires BucketOk(half) && AllIds(half) <= AllIds(b)
    requires forall id :: id in IdSet(b.nodes) && Covers(half, id) ==> id in IdSet(half.nodes)
    requires half.waiting != [] ==> b.waiting != []
    ensures HealthFits(t.health, half)
    ensures half.waiting != [] ==> NoStale(t.health, half)
  {
  }

  /** The number of ids, less one, of the block that covers `id`. */
  function Span(t: Table, id: Id): (n: int)
    requires t.buckets != []
  {
    BucketOf(t, id).hi - BucketOf(t, id).lo
  }

  /** The table after the stale contact made room and the node was offered to
      its bucket, and whether the bucket took it as primary. */
  function Offer(t: Table, n: Node): (r: (Table, bool))
    requires t.buckets != []
  {
    var idx := IndexFor(t.buckets, n.id);
    var t1 := ReplaceStaleIfFull(t, idx, n.id);
    var (b, added) := AddNode(t1.buckets[idx], n);
    (WithBucket(t1, idx, b), added)
  }

  lemma OfferOk(t: Table, n: Node)
    requires TableOk(t) && n.id != t.local
    ensures TableOk(Offer(t, n).0)
    ensures Offer(t, n).0.local == t.local && Offer(t, n).0.ksize == t.ksize
    ensures |Offer(t, n).0.buckets| == |t.buckets|
    ensures IndexFor(Offer(t, n).0.buckets, n.id) == IndexFor(t.buckets, n.id)
    ensures OfferedBucket(t, n, BucketOf(Offer(t, n).0, n.id), Offer(t, n).1)
  {
    var idx := IndexFor(t.buckets, n.id);
    ReplaceStaleOk(t, n.id);
    var t1 := ReplaceStaleIfFull(t, idx, n.id);
    BucketOfCovers(t1, n.id);
    OfferedBucketFits(t1, t1.buckets[idx], n);
    WithBucketOk(t1, n.id, AddNode(t1.buckets[idx], n).0);
  }

  lemma WithBucketOk(t: Table, id: Id, b: Bucket)
    requires TableOk(t) && SameBlock(BucketOf(t, id), b) && BucketFits(t, b)
    ensures TableOk(WithBucket(t, IndexFor(t.buckets, id), b))
    ensures IndexFor(WithBucket(t, IndexFor(t.buckets, id), b).buckets, id) == IndexFor(t.buckets, id)
  {
    var idx := IndexFor(t.buckets, id);
    var after := WithBucket(t, idx, b);
    ReplaceBucketOk(t, idx, b, t.health);
    assert after == t.(buckets := t.buckets[idx := b], health := t.health);
    BucketOfCovers(t, id);
    assert Covers(after.buckets[idx], id);
    IndexForUnique(after.buckets, 0, id);
  }

  /** What became of the bucket a node was offered to. A bucket that refuses is
      full of contacts that are not stale, the node waits in it, and it covers
      at least two ids. */
  ghost predicate OfferedBucket(t: Table, n: Node, b: Bucket, added: bool)
    requires t.buckets != []
  {
    && SameBlock(b, BucketOf(t, n.id))
    && (added <==> n.id in IdSet(b.nodes))
    && (!added ==> RefusedBucket(b, n.id))
  }

  lemma OfferedBucketFits(t: Table, b: Bucket, n: Node)
    requires BucketFits(t, b) && Covers(b, n.id) && n.id != t.local
    requires |b.nodes| < t.ksize || n.id in IdSet(b.nodes) || NoStale(t.health, b)
    ensures BucketFits(t, AddNode(b, n).0)
    ensures SameBlock(b, AddNode(b, n).0)
    ensures AddNode(b, n).1 <==> n.id in IdSet(AddNode(b, n).0.nodes)
    ensures !AddNode(b, n).1 ==> RefusedBucket(AddNode(b, n).0, n.id)
  {
    AddNodeOk(b, n);
    PositionFinds(b.nodes, n.id);
    if !AddNode(b, n).1 {
      RefusalSpans(b, n.id);
    }
  }

  ghost predicate RefusedBucket(b: Bucket, id: Id)
  {
    |b.nodes| == b.ksize && id in IdSet(b.waiting) && b.lo < b.hi
  }

  /** A bucket whose contacts all differ from a node of its block holds at
      least two ids, so it can be split. */
  lemma RefusalSpans(b: Bucket, id: Id)
    requires BucketOk(b) && |b.nodes| == b.ksize && Covers(b, id) && id !in IdSet(b.nodes)
    ensures b.lo < b.hi
  {
  }

  lemma SplitIndex(t: Table, idx: nat, id: Id)
    requires TableOk(t) && idx == IndexFor(t.buckets, id) && t.buckets[idx].lo < t.buckets[idx].hi
    ensures TableOk(SplitBucket(t, idx))
    ensures IndexFor(SplitBucket(t, idx).buckets, id) == if id <= Mid(t.buckets[idx]) then idx else idx + 1
  {
    SplitBucketOk(t, idx);
    BucketOfCovers(t, id);
    var after, half := SplitBucket(t, idx), if id <= Mid(t.buckets[idx]) then idx else idx + 1;
    assert Covers(after.buckets[half], id);
    IndexForUnique(after.buckets, 0, id);
  }

  /** Splitting shrinks the block around every id of the split bucket. */
  lemma SplitShrinks(t: Table, idx: nat, id: Id)
    requires TableOk(t) && idx == IndexFor(t.buckets, id) && t.buckets[idx].lo < t.buckets[idx].hi
    ensures TableOk(SplitBucket(t, idx))
    ensures Span(SplitBucket(t, idx), id) < Span(t, id)
    ensures BucketOf(SplitBucket(t, idx), id)
         == (if id <= Mid(t.buckets[idx]) then Split(t.buckets[idx]).0 else Split(t.buckets[idx]).1)
  {
    SplitIndex(t, idx, id);
  }

  /** Insert `n`, splitting its bucket as often as the rule allows. Returns the
      least recently seen contact of a full bucket that may not split. */
  function Insert(t: Table, n: Node): (r: (Table, Option<Node>))
    requires TableOk(t) && n.id != t.local
    decreases Span(t, n.id)
  {
    OfferOk(t, n);
    var (offered, added) := Offer(t, n);
    if added then (offered, None)
    else
      var idx := IndexFor(offered.buckets, n.id);
      var b := offered.buckets[idx];
      if MaySplit(t.local, b) then
        SplitShrinks(offered, idx, n.id);
        Insert(SplitBucket(offered, idx), n)
      else
        (offered, Head(b))
  }

  /** A full bucket splits if it covers the local node, or unless its contacts
      share a prefix whose length is a multiple of five. */
  predicate MaySplit(local: Id, b: Bucket)
  {
    Covers(b, local) || Depth(b) % 5 != 0
  }

  /** The least recently seen primary contact. */
  function Head(b: Bucket): (n: Option<Node>)
  {
    if b.nodes == [] then None else Some(b.nodes[0])
  }

  lemma OfferSpans(t: Table, n: Node, offered: Table, added: bool)
    requires TableOk(t) && n.id != t.local && (offered, added) == Offer(t, n)
    ensures TableOk(offered) && Span(offered, n.id) == Span(t, n.id)
    ensures IndexFor(offered.buckets, n.id) == IndexFor(t.buckets, n.id)
    ensures !added ==> BucketOf(offered, n.id).lo < BucketOf(offered, n.id).hi
  {
    OfferOk(t, n);
  }

  lemma InsertEnds(t: Table, n: Node, offered: Table, added: bool)
    requires TableOk(t) && n.id != t.local && (offered, added) == Offer(t, n) && TableOk(offered)
    requires added || !MaySplit(t.local, BucketOf(offered, n.id))
    ensures Insert(t, n) == (offered, if added then None else Head(BucketOf(offered, n.id)))
  {
  }

  lemma InsertSplits(t: Table, n: Node, offered: Table, idx: nat)
    requires TableOk(t) && n.id != t.local && (offered, false) == Offer(t, n) && TableOk(offered)
    requires idx == IndexFor(offered.buckets, n.id) && MaySplit(t.local, offered.buckets[idx])
    requires offered.buckets[idx].lo < offered.buckets[idx].hi && TableOk(SplitBucket(offered, idx))
    ensures Insert(t, n) == Insert(SplitBucket(offered, idx), n)
  {
  }

  /** What one round of `Insert` comes to on the table after the offer. */
  ghost predicate Round(t: Table, n: Node, offered: Table, added: bool, idx: nat)
    requires TableOk(t) && n.id != t.local && TableOk(offered) && idx < |offered.buckets|
  {
    if added then Insert(t, n) == (offered, None)
    else
      var b := offered.buckets[idx];
      && b.lo < b.hi
      && if MaySplit(t.local, b) then
           TableOk(SplitBucket(offered, idx)) && offered.local == t.local &&
           Insert(t, n) == Insert(SplitBucket(offered, idx), n)
         else Insert(t, n) == (offered, Head(b))
  }

  lemma InsertRound(t: Table, n: Node, offered: Table, added: bool, idx: nat)
    requires TableOk(t) && n.id != t.local && (offered, added) == Offer(t, n)
    requires idx == IndexFor(t.buckets, n.id)
    ensures TableOk(offered) && Span(offered, n.id) == Span(t, n.id) && idx == IndexFor(offered.buckets, n.id)
    ensures Round(t, n, offered, added, idx)
  {
    OfferSpans(t, n, offered, added);
    if added || !MaySplit(t.local, offered.buckets[idx]) {
      InsertEnds(t, n, offered, added);
    } else {
      SplitBucketOk(offered, idx);
      InsertSplits(t, n, offered, idx);
    }
  }

  function AddContact(t: Table, n: Node): (r: (Table, Option<Node>))
    requires TableOk(t)
  {
    if n.id == t.local then (t, None) else Insert(t, n)
  }

  lemma {:induction false} InsertOk(t: Table, n: Node)
    requires TableOk(t) && n.id != t.local
    ensures TableOk(Insert(t, n).0)
    ensures Insert(t, n).0.local == t.local && Insert(t, n).0.ksize == t.ksize
    ensures Insert(t, n).1.None? <==> Primary(Insert(t, n).0, n.id)
    decreases Span(t, n.id)
  {
    OfferOk(t, n);
    var (offered, added) := Offer(t, n);
    if !added {
      var idx := IndexFor(offered.buckets, n.id);
      var b := offered.buckets[idx];
      if MaySplit(t.local, b) {
        SplitShrinks(offered, idx, n.id);
        InsertOk(SplitBucket(offered, idx), n);
      }
    }
  }
}
