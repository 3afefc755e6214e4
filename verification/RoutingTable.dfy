/** The routing table, updated in place. Each method is proved to do what the
    function of the same name in `Tables` or `TableRuns` says, so what those
    modules prove of every run holds of the object. */
module RoutingTables {
  import opened XorMetric
  import opened Nodes
  import B = Buckets
  import T = Tables
  import R = TableRuns
  import opened KBuckets

  class RoutingTable {
    const local: Id
    const ksize: nat
    var minLookup: nat
    var buckets: seq<KBucket>
    var health: map<Id, T.Health>

    ghost function Views(): (bs: seq<B.Bucket>)
      reads this, buckets
      ensures |bs| == |buckets|
      ensures forall i :: 0 <= i < |buckets| ==> bs[i] == buckets[i].View()
    {
      seq(|buckets|, i requires 0 <= i < |buckets| reads this, buckets => buckets[i].View())
    }

    ghost function View(): (t: T.Table)
      reads this, buckets
    {
      T.Table(local, ksize, minLookup, Views(), health)
    }

    ghost function Parts(): (parts: set<KBucket>)
      reads this
    {
      set b | b in buckets
    }

    ghost predicate Separate()
      reads this
    {
      forall i, j :: 0 <= i < j < |buckets| ==> buckets[i] != buckets[j]
    }

    ghost predicate Valid()
      reads this, buckets
    {
      Separate() && T.TableOk(View())
    }

    constructor (local: Id, ksize: nat)
      requires 1 <= ksize
      ensures Valid() && View() == T.NewTable(local, ksize)
      ensures fresh(buckets)
    {
      this.local, this.ksize, minLookup := local, ksize, 2;
      health := map[];
      var bucket := new KBucket(0, KeySpace() - 1, ksize);
      buckets := [bucket];
      new;
      T.NewTableOk(local, ksize);
      assert View() == T.NewTable(local, ksize);
    }

    method BucketIndexFor(id: Id) returns (idx: nat)
      requires buckets != []
      ensures idx == T.IndexFor(Views(), id) && idx < |buckets|
    {
      idx := 0;
      ghost var rest := Views();
      assert rest == Views()[0..];
      while idx < |buckets| - 1 && !(buckets[idx].lo <= id <= buckets[idx].hi)
        invariant idx < |buckets| && rest == Views()[idx..]
        invariant idx + T.IndexFor(rest, id) == T.IndexFor(Views(), id)
        decreases |buckets| - idx
      {
        assert rest[0] == buckets[idx].View();
        rest := rest[1..];
        idx := idx + 1;
      }
      assert rest[0] == buckets[idx].View();
    }

    method RemoveFrom(idx: nat, id: Id)
      requires Separate() && idx < |buckets|
      modifies buckets[idx]
      ensures View() == T.WithBucket(old(View()), idx, B.RemoveNode(old(Views())[idx], id))
    {
      buckets[idx].RemoveNode(id);
      assert Views() == old(Views())[idx := buckets[idx].View()];
    }

    method RemoveContact(id: Id)
      requires Separate() && buckets != []
      modifies this, Parts()
      ensures buckets == old(buckets) && minLookup == old(minLookup)
      ensures View() == T.RemoveContact(old(View()), id)
      ensures old(Valid()) ==> Valid()
    {
      if T.TableOk(View()) {
        T.RemoveContactOk(View(), id);
      }
      var idx := BucketIndexFor(id);
      RemoveFrom(idx, id);
      ghost var removed := Views();
      health := health - {id};
      assert Views() == removed;
    }

    /** A full bucket gives up a stale contact for a node that is responding. */
    method ReplaceStaleIfFull(idx: nat, id: Id)
      requires Separate() && idx < |buckets|
      modifies this, Parts()
      ensures buckets == old(buckets) && minLookup == old(minLookup)
      ensures View() == T.ReplaceStaleIfFull(old(View()), idx, id)
    {
      var bucket := buckets[idx];
      if |bucket.nodes| < ksize || bucket.Contains(id) {
        return;
      }
      var stale := T.FirstStale(bucket.nodes, health);
      if stale.Some? {
        RemoveContact(stale.value.id);
      }
    }

    /** Make room if a contact is stale, and offer the node to its bucket. */
    method Offer(n: Node) returns (idx: nat, added: bool)
      requires Separate() && buckets != []
      modifies this, Parts()
      ensures buckets == old(buckets) && minLookup == old(minLookup)
      ensures idx == T.IndexFor(old(Views()), n.id) && idx < |buckets|
      ensures (View(), added) == T.Offer(old(View()), n)
    {
      idx := BucketIndexFor(n.id);
      ReplaceStaleIfFull(idx, n.id);
      ghost var replaced := Views();
      added := buckets[idx].AddNode(n);
      assert Views() == replaced[idx := buckets[idx].View()];
    }

    method SplitBucket(idx: nat)
      requires Separate() && idx < |buckets| && buckets[idx].lo < buckets[idx].hi
      requires B.ListsOk(buckets[idx].View())
      modifies this`buckets
      ensures Separate() && fresh(Parts() - old(Parts()))
      ensures View() == T.SplitBucket(old(View()), idx)
    {
      var low, high := buckets[idx].Split();
      ghost var before := Views();
      ghost var halves := [low.View(), high.View()];
      SpliceDistinct(buckets, idx, low, high);
      buckets := buckets[..idx] + [low, high] + buckets[idx + 1..];
      assert Views() == before[..idx] + halves + before[idx + 1..];
    }

    static lemma SpliceDistinct(s: seq<KBucket>, idx: nat, low: KBucket, high: KBucket)
      requires idx < |s| && low !in s && high !in s && low != high
      requires forall i, j :: 0 <= i < j < |s| ==> s[i] != s[j]
      ensures var r := s[..idx] + [low, high] + s[idx + 1..];
              forall i, j :: 0 <= i < j < |r| ==> r[i] != r[j]
    {
    }

    /** The split rule, and the contact to ping when it forbids a split. */
    method SplitRule(idx: nat) returns (split: bool, head: Option<Node>)
      requires idx < |buckets|
      ensures split == T.MaySplit(local, buckets[idx].View())
      ensures head == T.Head(buckets[idx].View())
    {
      var depth := buckets[idx].Depth();
      split := buckets[idx].lo <= local <= buckets[idx].hi || depth % 5 != 0;
      head := if buckets[idx].nodes == [] then None else Some(buckets[idx].nodes[0]);
    }

    /** Offer the node, and consult the split rule if its bucket is full. */
    method OfferRound(n: Node) returns (idx: nat, added: bool, split: bool, head: Option<Node>)
      requires Valid() && n.id != local
      modifies this, Parts()
      ensures Valid() && buckets == old(buckets)
      ensures idx == T.IndexFor(Views(), n.id) && T.Span(View(), n.id) == old(T.Span(View(), n.id))
      ensures added ==> (View(), None) == T.Insert(old(View()), n)
      ensures !added ==> buckets[idx].lo < buckets[idx].hi
      ensures !added && !split ==> (View(), head) == T.Insert(old(View()), n)
      ensures !added && split ==> T.TableOk(T.SplitBucket(View(), idx))
      ensures !added && split ==> T.Insert(T.SplitBucket(View(), idx), n) == T.Insert(old(View()), n)
    {
      ghost var start := View();
      idx, added := Offer(n);
      T.InsertRound(start, n, View(), added, idx);
      split, head := SplitRule(idx);
    }

    method Insert(n: Node) returns (oldest: Option<Node>)
      requires Valid() && n.id != local
      modifies this, Parts()
      ensures Separate() && fresh(Parts() - old(Parts()))
      ensures (View(), oldest) == T.Insert(old(View()), n)
      decreases T.Span(View(), n.id), 1
    {
      var idx, added, split, head := OfferRound(n);
      if added {
        oldest := None;
      } else if split {
        oldest := SplitAndInsert(idx, n);
      } else {
        oldest := head;
      }
    }

    method SplitAndInsert(idx: nat, n: Node) returns (oldest: Option<Node>)
      requires Valid() && n.id != local && idx == T.IndexFor(Views(), n.id)
      requires buckets[idx].lo < buckets[idx].hi
      modifies this, Parts()
      ensures Separate() && fresh(Parts() - old(Parts()))
      ensures T.TableOk(T.SplitBucket(old(View()), idx))
      ensures (View(), oldest) == T.Insert(T.SplitBucket(old(View()), idx), n)
      decreases T.Span(View(), n.id), 0
    {
      T.SplitShrinks(View(), idx, n.id);
      assert T.BucketFits(View(), Views()[idx]);
      SplitBucket(idx);
      oldest := Insert(n);
    }

    method AddContact(n: Node) returns (oldest: Option<Node>)
      requires Valid()
      modifies this, Parts()
      ensures Valid() && fresh(Parts() - old(Parts()))
      ensures (View(), oldest) == T.AddContact(old(View()), n)
    {
      if n.id == local {
        return None;
      }
      T.InsertOk(View(), n);
      oldest := Insert(n);
    }

    /** Count a failure unless it falls inside the backoff of the last one. */
    method CountFailure(id: Id, now: nat, roll: nat) returns (counted: bool, failures: nat)
      modifies this`health
      ensures counted == !(id in old(health) && now < old(health)[id].retryAfter)
      ensures health == if counted then old(health)[id := R.Counted(old(health), id, now, roll)] else old(health)
      ensures counted ==> failures == health[id].failures
    {
      failures := 1;
      if id in health {
        if now < health[id].retryAfter {
          return false, failures;
        }
        failures := health[id].failures + 1;
        health := health[id := T.Health(failures, health[id].firstFailure, now + R.Backoff(failures, roll))];
      } else {
        health := health[id := T.Health(1, now, now + R.Backoff(1, roll))];
      }
      counted := true;
    }

    /** `roll` is the jitter drawn for the backoff. */
    method RecordFailureAt(id: Id, now: nat, roll: nat)
      requires Valid()
      modifies this, Parts()
      ensures Valid() && buckets == old(buckets)
      ensures View() == R.RecordFailure(old(View()), id, now, roll)
    {
      R.RecordFailureOk(View(), id, now, roll);
      var idx := BucketIndexFor(id);
      if !buckets[idx].Contains(id) {
        RemoveFrom(idx, id);
        return;
      }
      var counted, failures := CountFailure(id, now, roll);
      assert Views() == old(Views());
      if counted && failures >= T.STALE_AFTER_FAILURES && buckets[idx].waiting != [] {
        RemoveContact(id);
      }
    }

    method RecordSuccess(id: Id) returns (failedSince: Option<nat>)
      requires Valid()
      modifies this`health
      ensures Valid()
      ensures View() == R.RecordSuccess(old(View()), id)
      ensures failedSince == if id in old(health) then Some(old(health)[id].firstFailure) else None
    {
      R.RecordSuccessOk(View(), id);
      failedSince := if id in health then Some(health[id].firstFailure) else None;
      health := health - {id};
      assert Views() == old(Views());
    }
  }
}
