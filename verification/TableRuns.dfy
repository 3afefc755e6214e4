/**
 Failure tracking, and what holds of the routing table after any sequence of
 operations.
 */
module TableRuns {
  import opened XorMetric
  import opened Nodes
  import opened Selection
  import opened Buckets
  import opened Tables

  const SECOND: nat := 1_000_000_000
  const BACKOFF_BASE: nat := 5 * SECOND
  const BACKOFF_MAX: nat := 300 * SECOND

  // --- record_failure, record_success ---

  function BackoffBase(failures: nat): (d: nat)
  {
    Min(BACKOFF_BASE * Pow2(Min(if failures == 0 then 0 else failures - 1, 16)), BACKOFF_MAX)
  }

  /** The backoff with the jitter rolled for it, at most a quarter more. */
  function Backoff(failures: nat, roll: nat): (d: nat)
    ensures BackoffBase(failures) <= d && 4 * d <= 5 * BackoffBase(failures)
    ensures BACKOFF_BASE <= d && 4 * d <= 5 * BACKOFF_MAX
  {
    BackoffBase(failures) + Min(roll, BackoffBase(failures) / 4)
  }

  /** The failure state after a counted failure. */
  function Counted(health: map<Id, Health>, id: Id, now: nat, roll: nat): (h: Health)
  {
    if id in health then
      var failures := health[id].failures + 1;
      Health(failures, health[id].firstFailure, now + Backoff(failures, roll))
    else Health(1, now, now + Backoff(1, roll))
  }

  function RecordFailure(t: Table, id: Id, now: nat, roll: nat): (after: Table)
    requires t.buckets != []
  {
    var idx := IndexFor(t.buckets, id);
    var b := t.buckets[idx];
    if !Contains(b, id) then WithBucket(t, idx, RemoveNode(b, id))
    else if id in t.health && now < t.health[id].retryAfter then t
    else
      var h := Counted(t.health, id, now, roll);
      var counted := t.(health := t.health[id := h]);
      if h.failures >= STALE_AFTER_FAILURES && b.waiting != [] then RemoveContact(counted, id)
      else counted
  }

  function RecordSuccess(t: Table, id: Id): (after: Table)
  {
    t.(health := t.health - {id})
  }

  lemma RecordSuccessOk(t: Table, id: Id)
    requires TableOk(t)
    ensures TableOk(RecordSuccess(t, id))
  {
  }

  lemma RecordFailureOk(t: Table, id: Id, now: nat, roll: nat)
    requires TableOk(t)
    ensures TableOk(RecordFailure(t, id, now, roll))
  {
    var idx := IndexFor(t.buckets, id);
    var b := t.buckets[idx];
    BucketOfCovers(t, id);
    PositionFinds(b.nodes, id);
    if !Contains(b, id) {
      RemoveNodeOk(b, id);
      WithoutIds(b.waiting, id);
      WithBucketOk(t, id, RemoveNode(b, id));
    } else if !(id in t.health && now < t.health[id].retryAfter) {
      var h := Counted(t.health, id, now, roll);
      var health := t.health[id := h];
      if h.failures >= STALE_AFTER_FAILURES && b.waiting != [] {
        assert health - {id} == t.health - {id};
        RemoveContactOk(t, id);
      } else {
        CountedFits(t, b, id, h);
        ReplaceBucketOk(t, idx, b, health);
        assert t.buckets[idx := b] == t.buckets;
      }
    }
  }

  lemma CountedFits(t: Table, b: Bucket, id: Id, h: Health)
    requires BucketFits(t, b) && id in IdSet(b.nodes)
    requires h.failures < STALE_AFTER_FAILURES || b.waiting == []
    ensures BucketFits(t.(health := t.health[id := h]), b)
  {
  }

  /** Recording a failure lowers the number of primary contacts of no bucket. */
  lemma FailureKeepsCounts(t: Table, id: Id, now: nat, roll: nat, i: nat)
    requires TableOk(t) && i < |t.buckets|
    ensures var after := RecordFailure(t, id, now, roll);
            |after.buckets| == |t.buckets| && |after.buckets[i].nodes| == |t.buckets[i].nodes|
  {
  }

  // --- A contact is not stale before 75 seconds of failures ---

  /** The least time the first `n` backoffs take together. */
  function BackoffSum(n: nat): (d: nat)
  {
    if n == 0 then 0 else BackoffSum(n - 1) + BackoffBase(n)
  }

  ghost predicate TimesOk(health: map<Id, Health>, now: nat)
  {
    forall id :: id in health ==>
      && 1 <= health[id].failures
      && health[id].firstFailure + BackoffSum(health[id].failures - 1) <= now
      && health[id].firstFailure + BackoffSum(health[id].failures) <= health[id].retryAfter
  }

  lemma FailureKeepsTimes(t: Table, id: Id, now: nat, roll: nat)
    requires t.buckets != [] && TimesOk(t.health, now)
    ensures TimesOk(RecordFailure(t, id, now, roll).health, now)
  {
    if !(id in t.health && now < t.health[id].retryAfter) {
      CountedTimes(t.health, id, now, roll);
    }
  }

  lemma CountedTimes(health: map<Id, Health>, id: Id, now: nat, roll: nat)
    requires TimesOk(health, now) && (id in health ==> health[id].retryAfter <= now)
    ensures TimesOk(health[id := Counted(health, id, now, roll)], now)
  {
  }

  lemma {:induction false} BackoffSumGrows(m: nat, n: nat)
    requires m <= n
    ensures BackoffSum(m) <= BackoffSum(n)
    decreases n
  {
    if m < n {
      BackoffSumGrows(m, n - 1);
    }
  }

  lemma FourBackoffs()
    ensures BackoffSum(4) == 75 * SECOND
  {
  }

  /** Five counted failures take at least 5 + 10 + 20 + 40 seconds. */
  lemma StaleTakes75Seconds(health: map<Id, Health>, now: nat, id: Id)
    requires TimesOk(health, now) && IsStale(health, id)
    ensures health[id].firstFailure + 75 * SECOND <= now
  {
    FourBackoffs();
    BackoffSumGrows(4, health[id].failures - 1);
  }

  // --- Every reachable table ---

  datatype Operation =
    | AddOp(node: Node)
    | RemoveOp(id: Id)
    | FailureOp(id: Id, roll: nat)
    | SuccessOp(id: Id)

  datatype Event = Event(now: nat, op: Operation)

  function Apply(t: Table, e: Event): (after: Table)
    requires TableOk(t)
  {
    match e.op
    case AddOp(n) => AddContact(t, n).0
    case RemoveOp(id) => RemoveContact(t, id)
    case FailureOp(id, roll) => RecordFailure(t, id, e.now, roll)
    case SuccessOp(id) => RecordSuccess(t, id)
  }

  /** `after` is again a table of the same node. */
  ghost predicate Evolves(t: Table, after: Table)
  {
    TableOk(after) && after.local == t.local && after.ksize == t.ksize
  }

  lemma ApplyOk(t: Table, e: Event)
    requires TableOk(t)
    ensures Evolves(t, Apply(t, e))
  {
    match e.op
    case AddOp(n) => if n.id != t.local { InsertOk(t, n); }
    case RemoveOp(id) => RemoveContactOk(t, id);
    case FailureOp(id, roll) => RecordFailureOk(t, id, e.now, roll);
    case SuccessOp(id) => RecordSuccessOk(t, id);
  }

  function Run(t: Table, events: seq<Event>): (after: Table)
    requires TableOk(t)
    decreases |events|
  {
    if events == [] then t
    else
      ApplyOk(t, events[0]);
      Run(Apply(t, events[0]), events[1..])
  }

  lemma {:induction false} RunOk(t: Table, events: seq<Event>)
    requires TableOk(t)
    ensures Evolves(t, Run(t, events))
    decreases |events|
  {
    if events != [] {
      ApplyOk(t, events[0]);
      RunOk(Apply(t, events[0]), events[1..]);
    }
  }

  /** The clock never goes back. */
  ghost predicate Timed(events: seq<Event>, from: nat)
  {
    events == [] || (from <= events[0].now && Timed(events[1..], events[0].now))
  }

  function Clock(events: seq<Event>, from: nat): (now: nat)
  {
    if events == [] then from else events[|events| - 1].now
  }

  lemma ApplyKeepsTimes(t: Table, e: Event)
    requires TableOk(t) && TimesOk(t.health, e.now)
    ensures TimesOk(Apply(t, e).health, e.now)
  {
    match e.op
    case AddOp(n) =>
      if n.id != t.local {
        InsertHealth(t, n);
        FewerTimes(t.health, Insert(t, n).0.health, e.now);
      }
    case RemoveOp(id) => FewerTimes(t.health, RemoveContact(t, id).health, e.now);
    case FailureOp(id, roll) => FailureKeepsTimes(t, id, e.now, roll);
    case SuccessOp(id) => FewerTimes(t.health, RecordSuccess(t, id).health, e.now);
  }

  ghost predicate Within(health: map<Id, Health>, whole: map<Id, Health>)
  {
    forall id :: id in health ==> id in whole && health[id] == whole[id]
  }

  lemma FewerTimes(whole: map<Id, Health>, health: map<Id, Health>, now: nat)
    requires TimesOk(whole, now) && Within(health, whole)
    ensures TimesOk(health, now)
  {
  }

  lemma LaterTimes(health: map<Id, Health>, from: nat, now: nat)
    requires TimesOk(health, from) && from <= now
    ensures TimesOk(health, now)
  {
  }

  /** Inserting never adds or changes failure state. */
  lemma {:induction false} InsertHealth(t: Table, n: Node)
    requires TableOk(t) && n.id != t.local
    ensures Within(Insert(t, n).0.health, t.health)
    decreases Span(t, n.id)
  {
    OfferOk(t, n);
    var (offered, added) := Offer(t, n);
    if !added {
      var idx := IndexFor(offered.buckets, n.id);
      var b := offered.buckets[idx];
      if MaySplit(t.local, b) {
        SplitShrinks(offered, idx, n.id);
        InsertHealth(SplitBucket(offered, idx), n);
      }
    }
  }

  lemma ClockStep(events: seq<Event>, from: nat)
    requires events != []
    ensures Clock(events, from) == Clock(events[1..], events[0].now)
  {
  }

  lemma {:induction false} RunKeepsTimes(t: Table, events: seq<Event>, from: nat)
    requires TableOk(t) && TimesOk(t.health, from) && Timed(events, from)
    ensures TimesOk(Run(t, events).health, Clock(events, from))
    decreases |events|
  {
    if events != [] {
      var now := events[0].now;
      ApplyOk(t, events[0]);
      ClockStep(events, from);
      LaterTimes(t.health, from, now);
      ApplyKeepsTimes(t, events[0]);
      RunKeepsTimes(Apply(t, events[0]), events[1..], now);
    }
  }

  /** Event `i` reported a failure of `id` at this time, and `id` has neither
      responded nor been removed since. */
  ghost predicate FailingFrom(events: seq<Event>, i: nat, id: Id, at: nat)
  {
    && i < |events| && events[i].now == at && events[i].op.FailureOp? && events[i].op.id == id
    && forall j :: i < j < |events| ==> events[j].op != SuccessOp(id) && events[j].op != RemoveOp(id)
  }

  /** The first failure on record of every contact is such an event. */
  ghost predicate FailuresHappened(health: map<Id, Health>, events: seq<Event>)
  {
    forall id :: id in health ==> exists i: nat :: FailingFrom(events, i, id, health[id].firstFailure)
  }

  lemma StillFailing(events: seq<Event>, e: Event, i: nat, id: Id, at: nat)
    requires FailingFrom(events, i, id, at) && e.op != SuccessOp(id) && e.op != RemoveOp(id)
    ensures FailingFrom(events + [e], i, id, at)
  {
  }

  /** Failure state that an event leaves was there before, or begins with it. */
  lemma ApplyHealth(t: Table, e: Event, id: Id)
    requires TableOk(t) && id in Apply(t, e).health
    ensures e.op != SuccessOp(id) && e.op != RemoveOp(id)
    ensures || (id in t.health && Apply(t, e).health[id].firstFailure == t.health[id].firstFailure)
            || (e.op.FailureOp? && e.op.id == id && Apply(t, e).health[id].firstFailure == e.now)
  {
    if e.op.AddOp? && e.op.node.id != t.local {
      InsertHealth(t, e.op.node);
    }
  }

  lemma ApplyFailures(t: Table, events: seq<Event>, e: Event)
    requires TableOk(t) && FailuresHappened(t.health, events)
    ensures FailuresHappened(Apply(t, e).health, events + [e])
  {
    var health := Apply(t, e).health;
    forall id | id in health
      ensures exists i: nat :: FailingFrom(events + [e], i, id, health[id].firstFailure)
    {
      ApplyHealth(t, e, id);
      if id in t.health && health[id].firstFailure == t.health[id].firstFailure {
        var i: nat :| FailingFrom(events, i, id, t.health[id].firstFailure);
        StillFailing(events, e, i, id, t.health[id].firstFailure);
      } else {
        assert FailingFrom(events + [e], |events|, id, health[id].firstFailure);
      }
    }
  }

  lemma {:induction false} RunFailures(t: Table, past: seq<Event>, events: seq<Event>)
    requires TableOk(t) && FailuresHappened(t.health, past)
    ensures FailuresHappened(Run(t, events).health, past + events)
    decreases |events|
  {
    if events == [] {
      assert past + events == past;
    } else {
      ApplyOk(t, events[0]);
      ApplyFailures(t, past, events[0]);
      RunFailures(Apply(t, events[0]), past + [events[0]], events[1..]);
      assert past + [events[0]] + events[1..] == past + events;
    }
  }

  /** In every run, a contact is stale only if it has been failing for at least 75
      seconds: a failure of it was reported that long ago, and since then it has
      neither responded nor been removed. */
  lemma StaleAfterRun(local: Id, ksize: nat, events: seq<Event>, id: Id)
    requires 1 <= ksize && Timed(events, 0)
    requires TableOk(NewTable(local, ksize)) && IsStale(Run(NewTable(local, ksize), events).health, id)
    ensures exists i: nat, at: nat :: FailingFrom(events, i, id, at) && at + 75 * SECOND <= Clock(events, 0)
  {
    var t := NewTable(local, ksize);
    var first := Run(t, events).health[id].firstFailure;
    RunKeepsTimes(t, events, 0);
    StaleTakes75Seconds(Run(t, events).health, Clock(events, 0), id);
    RunFailures(t, [], events);
    assert [] + events == events;
    var i: nat :| FailingFrom(events, i, id, first);
    assert first + 75 * SECOND <= Clock(events, 0);
  }

  /** A bucket of a reachable table, in terms of its two lists: an aligned
      block, every id once and inside it, never the local node, the sizes, and
      nobody waiting while a place is free or held by a stale contact. */
  ghost predicate ReachableBucket(t: Table, b: Bucket)
  {
    var all := b.nodes + b.waiting;
    && IsAligned(b)
    && (forall i, j :: 0 <= i < j < |all| ==> all[i].id != all[j].id)
    && (forall n :: n in all ==> Covers(b, n.id) && n.id != t.local)
    && |b.nodes| <= t.ksize && |b.waiting| <= 5 * t.ksize
    && (b.waiting != [] ==> |b.nodes| == t.ksize)
    && (b.waiting != [] ==> forall n :: n in b.nodes ==> !IsStale(t.health, n.id))
  }

  lemma BucketMeaning(t: Table, b: Bucket)
    requires BucketFits(t, b)
    ensures ReachableBucket(t, b)
  {
    var all := b.nodes + b.waiting;
    ConcatIds(b.nodes, b.waiting);
    DistinctMeaning(all);
    forall n | n in all
      ensures n.id in AllIds(b)
    {
      IdSetHas(all, n);
    }
    forall n | n in b.nodes
      ensures n.id in IdSet(b.nodes)
    {
      IdSetHas(b.nodes, n);
    }
  }

  lemma {:induction false} ChainOrder(bs: seq<Bucket>, from: nat, i: nat, j: nat)
    requires Chain(bs, from) && i < j < |bs|
    ensures bs[i].hi < bs[j].lo
  {
    if i == 0 {
      ChainBounds(bs[1..], bs[0].hi + 1, j - 1);
    } else {
      ChainOrder(bs[1..], bs[0].hi + 1, i - 1, j - 1);
    }
  }

  /** No id is in two buckets. */
  lemma OneBucketPerId(t: Table, i: nat, j: nat)
    requires TableOk(t) && i < j < |t.buckets|
    ensures AllIds(t.buckets[i]) !! AllIds(t.buckets[j])
  {
    ChainOrder(t.buckets, 0, i, j);
    assert BucketFits(t, t.buckets[i]) && BucketFits(t, t.buckets[j]);
  }

  /** Every id is covered by a bucket, the buckets are in order, no id is in two
      of them, and failure state exists only for primary contacts. */
  ghost predicate ReachableParts(t: Table)
    requires t.buckets != []
  {
    && (forall id: Id :: Covers(BucketOf(t, id), id))
    && (forall i, j :: 0 <= i < j < |t.buckets| ==> t.buckets[i].hi < t.buckets[j].lo)
    && (forall i, j :: 0 <= i < j < |t.buckets| ==> AllIds(t.buckets[i]) !! AllIds(t.buckets[j]))
    && (forall id :: id in t.health ==> Primary(t, id))
  }

  /** The routing table after any sequence of operations. */
  lemma ReachableTable(local: Id, ksize: nat, events: seq<Event>)
    requires 1 <= ksize
    ensures TableOk(NewTable(local, ksize))
    ensures var t := Run(NewTable(local, ksize), events);
            && Evolves(NewTable(local, ksize), t) && ReachableParts(t)
            && forall i :: 0 <= i < |t.buckets| ==> ReachableBucket(t, t.buckets[i])
  {
    NewTableOk(local, ksize);
    RunOk(NewTable(local, ksize), events);
    var t := Run(NewTable(local, ksize), events);
    forall id: Id
      ensures Covers(BucketOf(t, id), id)
      ensures id in t.health ==> Primary(t, id)
    {
      BucketOfCovers(t, id);
    }
    forall i, j | 0 <= i < j < |t.buckets|
      ensures t.buckets[i].hi < t.buckets[j].lo && AllIds(t.buckets[i]) !! AllIds(t.buckets[j])
    {
      ChainOrder(t.buckets, 0, i, j);
      OneBucketPerId(t, i, j);
    }
    forall i | 0 <= i < |t.buckets|
      ensures ReachableBucket(t, t.buckets[i])
    {
      BucketMeaning(t, t.buckets[i]);
    }
  }

  // --- What adding a contact keeps ---

  /** Offering a node demotes no contact that is not stale. */
  lemma OfferKeepsPrimary(t: Table, n: Node, id: Id)
    requires TableOk(t) && n.id != t.local
    requires Primary(t, id) && !IsStale(t.health, id)
    ensures TableOk(Offer(t, n).0)
    ensures Primary(Offer(t, n).0, id) && !IsStale(Offer(t, n).0.health, id)
  {
    OfferOk(t, n);
    ReplaceStaleKeepsPrimary(t, n.id, id);
    ReplaceStaleOk(t, n.id);
    var idx := IndexFor(t.buckets, n.id);
    AddedKeepsPrimary(ReplaceStaleIfFull(t, idx, n.id), idx, n, id);
  }

  /** Nor does adding it to a bucket. */
  lemma AddedKeepsPrimary(t: Table, idx: nat, n: Node, id: Id)
    requires TableOk(t) && idx < |t.buckets| && Covers(t.buckets[idx], n.id) && Primary(t, id)
    requires TableOk(WithBucket(t, idx, AddNode(t.buckets[idx], n).0))
    ensures Primary(WithBucket(t, idx, AddNode(t.buckets[idx], n).0), id)
  {
    AddNodeOk(t.buckets[idx], n);
    BucketOfCovers(t, id);
    var after := WithBucket(t, idx, AddNode(t.buckets[idx], n).0);
    var at := IndexFor(t.buckets, id);
    assert SameBlock(after.buckets[at], t.buckets[at]);
    IndexForUnique(after.buckets, 0, id);
  }

  lemma ReplaceStaleKeepsPrimary(t: Table, arrival: Id, id: Id)
    requires TableOk(t) && Primary(t, id) && !IsStale(t.health, id)
    ensures var after := ReplaceStaleIfFull(t, IndexFor(t.buckets, arrival), arrival);
            TableOk(after) && Primary(after, id) && !IsStale(after.health, id)
  {
    var idx := IndexFor(t.buckets, arrival);
    var b := t.buckets[idx];
    var after := ReplaceStaleIfFull(t, idx, arrival);
    ReplaceStaleOk(t, arrival);
    if after != t {
      var stale := FirstStale(b.nodes, t.health).value;
      RemovalKeepsPrimary(t, idx, stale, id);
    }
  }

  lemma RemovalKeepsPrimary(t: Table, idx: nat, stale: Node, id: Id)
    requires TableOk(t) && idx < |t.buckets|
    requires stale in t.buckets[idx].nodes && IsStale(t.health, stale.id)
    requires Primary(t, id) && id != stale.id
    ensures Primary(RemoveContact(t, stale.id), id)
  {
    var after := RemoveContact(t, stale.id);
    StaleRemoval(t, idx, stale);
    BucketOfCovers(t, id);
    var at := IndexFor(t.buckets, id);
    assert SameBlock(after.buckets[at], t.buckets[at]);
    IndexForUnique(after.buckets, 0, id);
  }

  lemma SplitKeepsPrimary(t: Table, idx: nat, id: Id)
    requires TableOk(t) && idx < |t.buckets| && t.buckets[idx].lo < t.buckets[idx].hi
    requires Primary(t, id)
    ensures TableOk(SplitBucket(t, idx)) && Primary(SplitBucket(t, idx), id)
  {
    SplitBucketOk(t, idx);
    if IndexFor(t.buckets, id) == idx {
      SplitShrinks(t, idx, id);
      BucketOfCovers(t, id);
      HalvesKeep(t.buckets[idx], id);
    } else {
      SplitElsewhere(t, idx, id);
    }
  }

  lemma HalvesKeep(b: Bucket, id: Id)
    requires BucketOk(b) && b.lo < b.hi && id in IdSet(b.nodes)
    ensures id in IdSet((if id <= Mid(b) then Split(b).0 else Split(b).1).nodes)
  {
    HalfKeepsPrimaries(b, b.lo, Mid(b));
    HalfKeepsPrimaries(b, Mid(b) + 1, b.hi);
    assert Covers(b, id);
  }

  lemma SplitElsewhere(t: Table, idx: nat, id: Id)
    requires TableOk(t) && idx < |t.buckets| && t.buckets[idx].lo < t.buckets[idx].hi
    requires TableOk(SplitBucket(t, idx)) && IndexFor(t.buckets, id) != idx
    ensures BucketOf(SplitBucket(t, idx), id) == BucketOf(t, id)
  {
    var at := IndexFor(t.buckets, id);
    BucketOfCovers(t, id);
    var after := SplitBucket(t, idx);
    var to := if at < idx then at else at + 1;
    assert after.buckets[to] == t.buckets[at];
    IndexForUnique(after.buckets, 0, id);
  }

  /** Adding a contact, with all the splits it causes, takes its place from no
      primary contact that is not stale. */
  lemma {:induction false} InsertKeepsPrimary(t: Table, n: Node, id: Id)
    requires TableOk(t) && n.id != t.local
    requires Primary(t, id) && !IsStale(t.health, id)
    ensures TableOk(Insert(t, n).0) && Primary(Insert(t, n).0, id)
    decreases Span(t, n.id)
  {
    InsertOk(t, n);
    OfferOk(t, n);
    OfferKeepsPrimary(t, n, id);
    var (offered, added) := Offer(t, n);
    if !added {
      var idx := IndexFor(offered.buckets, n.id);
      var b := offered.buckets[idx];
      if MaySplit(t.local, b) {
        SplitShrinks(offered, idx, n.id);
        SplitKeepsPrimary(offered, idx, id);
        InsertKeepsPrimary(SplitBucket(offered, idx), n, id);
      }
    }
  }

  /** A responding node that meets a full bucket with a stale contact becomes
      primary at once: no replacement is waiting ahead of it. */
  lemma ResponderReplacesStale(t: Table, n: Node)
    requires TableOk(t) && n.id != t.local
    requires var b := BucketOf(t, n.id);
             |b.nodes| == t.ksize && !Contains(b, n.id) && !NoStale(t.health, b)
    ensures var (after, oldest) := AddContact(t, n);
            TableOk(after) && Primary(after, n.id) && oldest.None?
    ensures var stale := FirstStale(BucketOf(t, n.id).nodes, t.health);
            stale.Some? && TableOk(AddContact(t, n).0) && !Primary(AddContact(t, n).0, stale.value.id)
  {
    var idx := IndexFor(t.buckets, n.id);
    var b := t.buckets[idx];
    FirstStaleNone(b.nodes, t.health);
    var stale := FirstStale(b.nodes, t.health).value;
    StaleRemoval(t, idx, stale);
    OfferOk(t, n);
    InsertOk(t, n);
    PositionFinds(b.nodes, n.id);
    IdSetHas(b.nodes, stale);
    var t1 := RemoveContact(t, stale.id);
    assert t1 == ReplaceStaleIfFull(t, idx, n.id);
    var after := AddContact(t, n).0;
    assert after == Offer(t, n).0;
    RefreshIds(t1.buckets[idx].nodes, n);
    BucketOfCovers(t, stale.id);
    IndexForUnique(t.buckets, 0, stale.id);
    IndexForUnique(after.buckets, 0, stale.id);
  }
}
