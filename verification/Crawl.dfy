/**
 The state shared by all iterative lookups, and one round of asking.

 Peers are an arbitrary oracle. No lookup asks a peer twice, so what a peer
 would answer is a function of its id, however the peers collude or adapt;
 the order in which the answers of a round arrive is chosen by the methods
 that process them, without any assumption.
 */
module Crawls {
  import opened Wire
  import opened XorMetric
  import opened Nodes
  import opened Selection
  import opened NodeHeaps

  /** No answer, a list of nodes closer to the target, or a value. */
  datatype Answer = Silence | Closer(nodes: seq<Node>) | Hit(value: Bytes)

  function NodeList(a: Answer): (nodes: seq<Node>)
  {
    match a
    case Closer(nodes) => nodes
    case _ => []
  }

  /** `failing(n, id)`: this node knows that `id` is not responding, when the
      lookup processes its n-th answer. */
  datatype Network = Network(answer: Id -> Answer, failing: (nat, Id) -> bool)

  /** Everything the lookup started from or was told by the peers that
      answered, in the order their answers were processed. */
  ghost function Heard(net: Network, start: set<Id>, answers: seq<Id>): (ids: set<Id>)
  {
    if answers == [] then start
    else
      var last := |answers| - 1;
      Heard(net, start, answers[..last]) + IdSet(NodeList(net.answer(answers[last])))
  }

  lemma {:induction false} HeardMember(net: Network, start: set<Id>, answers: seq<Id>, x: Id)
    ensures x in Heard(net, start, answers) <==>
            x in start || exists i :: 0 <= i < |answers| && x in IdSet(NodeList(net.answer(answers[i])))
  {
    if answers != [] {
      var last := |answers| - 1;
      HeardMember(net, start, answers[..last], x);
      if i :| 0 <= i < last && x in IdSet(NodeList(net.answer(answers[i]))) {
        assert answers[..last][i] == answers[i];
      }
    }
  }

  /** What was heard depends on who answered: the order does not matter, and
      silent peers add nothing. */
  lemma HeardSame(net: Network, start: set<Id>, one: seq<Id>, other: seq<Id>)
    requires forall x :: x in one && !net.answer(x).Silence? <==> x in other && !net.answer(x).Silence?
    ensures Heard(net, start, one) == Heard(net, start, other)
  {
    assert IdSet([]) == {};
    forall x: Id
      ensures x in Heard(net, start, one) <==> x in Heard(net, start, other)
    {
      HeardMember(net, start, one, x);
      HeardMember(net, start, other, x);
      if exists i :: 0 <= i < |one| && x in IdSet(NodeList(net.answer(one[i]))) {
        HeardFrom(net, one, other, x);
      }
      if exists i :: 0 <= i < |other| && x in IdSet(NodeList(net.answer(other[i]))) {
        HeardFrom(net, other, one, x);
      }
    }
  }

  lemma HeardFrom(net: Network, one: seq<Id>, other: seq<Id>, x: Id)
    requires forall y :: y in one && !net.answer(y).Silence? ==> y in other
    requires exists i :: 0 <= i < |one| && x in IdSet(NodeList(net.answer(one[i])))
    ensures exists i :: 0 <= i < |other| && x in IdSet(NodeList(net.answer(other[i])))
  {
    var i :| 0 <= i < |one| && x in IdSet(NodeList(net.answer(one[i])));
    assert one[i] in one && !net.answer(one[i]).Silence?;
    var j :| 0 <= j < |other| && other[j] == one[i];
  }

  /** All of the k closest nodes the lookup started from, or heard of from the
      peers it asked, have been asked, but for those left out because this node
      knew they were not responding: there is nobody closer left to ask. */
  ghost predicate Closed(net: Network, target: Id, k: nat, start: set<Id>, asked: seq<Id>, skipped: set<Id>)
  {
    Elems(Nearest(target, k, Heard(net, start, asked))) - skipped <= Elems(asked) && Justified(net, skipped)
  }

  /** Those of `nodes` known not to respond. */
  function KnownFailing(net: Network, clock: nat, nodes: seq<Node>): (ids: set<Id>)
    decreases |nodes|
  {
    if nodes == [] then {}
    else
      var rest := KnownFailing(net, clock, Front(nodes));
      if net.failing(clock, Last(nodes).id) then rest + {Last(nodes).id} else rest
  }

  lemma {:induction false} KnownFailingIds(net: Network, clock: nat, nodes: seq<Node>)
    ensures forall x :: x in KnownFailing(net, clock, nodes) <==> x in IdSet(nodes) && net.failing(clock, x)
    decreases |nodes|
  {
    if nodes != [] {
      KnownFailingIds(net, clock, Front(nodes));
    }
  }

  /** What a lookup takes of a report. */
  ghost function Usable(net: Network, failed: set<Id>, clock: nat, nodes: seq<Node>): (ids: set<Id>)
  {
    IdSet(nodes) - (failed + KnownFailing(net, clock, nodes))
  }

  /** Every id left out was known not to respond. */
  ghost predicate Justified(net: Network, skipped: set<Id>)
  {
    forall x :: x in skipped ==> exists clock: nat :: net.failing(clock, x)
  }

  /** The shortlist's ids after merging the reports of a round one by one. */
  ghost function MergeReports(target: Id, k: nat, shortlist: set<Id>, reports: seq<set<Id>>): (r: seq<Id>)
    decreases |reports|
  {
    if reports == [] then Nearest(target, k, shortlist)
    else
      var before := MergeReports(target, k, shortlist, reports[..|reports| - 1]);
      Nearest(target, k, Elems(before) + reports[|reports| - 1])
  }

  ghost function UnionOf(reports: seq<set<Id>>): (ids: set<Id>)
  {
    if reports == [] then {} else UnionOf(reports[..|reports| - 1]) + reports[|reports| - 1]
  }

  lemma {:induction false} UnionMember(reports: seq<set<Id>>, x: Id)
    ensures x in UnionOf(reports) <==> exists r :: r in multiset(reports) && x in r
  {
    if reports != [] {
      var front, last := reports[..|reports| - 1], reports[|reports| - 1];
      assert reports == front + [last];
      UnionMember(front, x);
      if x in last {
        assert last in multiset(reports);
      }
    }
  }

  lemma {:induction false} MergeIsUnion(target: Id, k: nat, shortlist: set<Id>, reports: seq<set<Id>>)
    ensures MergeReports(target, k, shortlist, reports) == Nearest(target, k, shortlist + UnionOf(reports))
    decreases |reports|
  {
    if reports == [] {
      assert shortlist + UnionOf(reports) == shortlist;
    } else {
      var front, last := reports[..|reports| - 1], reports[|reports| - 1];
      MergeIsUnion(target, k, shortlist, front);
      MergeNearest(target, k, shortlist + UnionOf(front), last);
      assert shortlist + UnionOf(front) + last == shortlist + UnionOf(reports);
    }
  }

  /** The shortlist after a round does not depend on the order in which the
      answers of the round are processed, although it is cut to `k` after each
      of them. */
  lemma RoundOrderIrrelevant(target: Id, k: nat, shortlist: set<Id>, one: seq<set<Id>>, other: seq<set<Id>>)
    requires multiset(one) == multiset(other)
    ensures MergeReports(target, k, shortlist, one) == MergeReports(target, k, shortlist, other)
  {
    MergeIsUnion(target, k, shortlist, one);
    MergeIsUnion(target, k, shortlist, other);
    forall x: Id
      ensures x in UnionOf(one) <==> x in UnionOf(other)
    {
      UnionMember(one, x);
      UnionMember(other, x);
    }
    assert UnionOf(one) == UnionOf(other);
  }

  /** There are finitely many ids. */
  lemma {:induction false} IdsBelow(n: nat) returns (all: set<nat>)
    ensures forall x: nat :: x < n ==> x in all
  {
    if n == 0 {
      all := {};
    } else {
      all := IdsBelow(n - 1);
      all := all + {n - 1};
    }
  }

  ghost predicate AllDifferent(s: seq<Id>)
  {
    forall i, j :: 0 <= i < j < |s| ==> s[i] != s[j]
  }

  lemma ElemsSnoc(s: seq<Id>, x: Id)
    ensures Elems(s + [x]) == Elems(s) + {x}
    ensures AllDifferent(s) && x !in Elems(s) ==> AllDifferent(s + [x])
  {
  }

  lemma ElemsConcat(s: seq<Id>, r: seq<Id>)
    ensures Elems(s + r) == Elems(s) + Elems(r)
    ensures AllDifferent(s) && AllDifferent(r) && Elems(s) !! Elems(r) ==> AllDifferent(s + r)
  {
    if AllDifferent(s) && AllDifferent(r) && Elems(s) !! Elems(r) {
      forall i, j | 0 <= i < j < |s + r|
        ensures (s + r)[i] != (s + r)[j]
      {
        if i < |s| <= j {
          assert (s + r)[i] in Elems(s) && (s + r)[j] in Elems(r);
        }
      }
    }
  }

  /** The closest `count` entries not contacted yet. */
  function Chosen(entries: seq<Node>, contacted: set<Id>, count: nat): (peers: seq<Id>)
  {
    IdSeq(Take(Outside(entries, contacted), count))
  }

  lemma TakenIds(s: seq<Node>, count: nat)
    requires Distinct(s)
    ensures var peers := IdSeq(Take(s, count));
            && AllDifferent(peers)
            && Elems(peers) <= IdSet(s)
            && (|s| <= count ==> Elems(peers) == IdSet(s))
  {
    var taken := Take(s, count);
    CutIds(s, |taken|);
    DistinctMeaning(taken);
    IdSetIsElems(taken);
    if |s| <= count {
      assert taken == s;
    }
  }

  lemma ChosenIds(entries: seq<Node>, contacted: set<Id>, count: nat)
    requires Distinct(entries)
    ensures var peers := Chosen(entries, contacted, count);
            && AllDifferent(peers)
            && Elems(peers) <= IdSet(entries) - contacted
            && |peers| == Min(count, |Outside(entries, contacted)|)
            && (|entries| <= count ==> IdSet(entries) <= contacted + Elems(peers))
  {
    OutsideIds(entries, contacted);
    TakenIds(Outside(entries, contacted), count);
  }

  /** The shortlist holds only nodes heard of that did not fail. Of the k nearest
      of everything heard it holds all but those that failed and those left out:
      no failure of another node, and nothing the peers make up, costs one of them
      its place. */
  ghost predicate ShortlistOk(
    target: Id, k: nat, heard: set<Id>, failed: set<Id>, skipped: set<Id>, entries: seq<Node>)
  {
    && IdSet(entries) !! failed
    && IdSet(entries) <= heard
    && Elems(Nearest(target, k, heard)) - failed - skipped <= IdSet(entries)
  }

  lemma NearestIds(target: Id, k: nat, pool: set<Id>, s: seq<Node>)
    requires IdSeq(s) == Nearest(target, k, pool)
    ensures IdSet(s) == Elems(Nearest(target, k, pool)) && IdSet(s) <= pool
  {
    NearestSpec(target, k, pool);
    IdSetIsElems(s);
  }

  /** Merging a report, without the failed and the skipped, keeps it so. */
  lemma ReportKeepsShortlist(
    target: Id, k: nat, heard: set<Id>, failed: set<Id>, skipped: set<Id>, entries: seq<Node>,
    report: set<Id>, known: set<Id>, after: seq<Node>)
    requires ShortlistOk(target, k, heard, failed, skipped, entries)
    requires IdSeq(after) == Nearest(target, k, IdSet(entries) + (report - (failed + known)))
    ensures ShortlistOk(target, k, heard + report, failed, skipped + known, after)
  {
    var pool := IdSet(entries) + (report - (failed + known));
    NearestIds(target, k, pool, after);
    forall id | id in Elems(Nearest(target, k, heard + report)) - failed - (skipped + known)
      ensures id in IdSet(after)
    {
      NearestSpec(target, k, heard + report);
      if id in heard {
        SelectedFromPart(target, k, heard + report, heard, id);
      }
      assert id in pool;
      SelectedFromPart(target, k, heard + report, pool, id);
    }
  }

  /** With nobody failed or left out, the shortlist is exactly the k nearest. */
  lemma NobodyMissing(target: Id, k: nat, heard: set<Id>, entries: seq<Node>)
    requires ShortlistOk(target, k, heard, {}, {}, entries) && Ordered(target, entries) && |entries| <= k
    ensures IdSeq(entries) == Nearest(target, k, heard)
  {
    var all := Nearest(target, k, heard);
    NearestSpec(target, k, heard);
    AscendingCount(target, all);
    DistinctCount(entries);
    SubsetSize(IdSet(entries), heard);
    SubsetSize(Elems(all), IdSet(entries));
    OrderedIsNearest(target, k, entries);
    AllSelected(target, k, heard, IdSet(entries));
  }

  lemma AllSelected(target: Id, k: nat, pool: set<Id>, part: set<Id>)
    requires part == Elems(Nearest(target, k, pool))
    ensures Nearest(target, k, part) == Nearest(target, k, pool)
  {
    MergeNearest(target, k, pool, {});
    assert part + {} == part && pool + {} == pool;
  }

  class SpiderCrawl {
    const net: Network
    const target: Id
    const ksize: nat
    const alpha: nat
    const nearest: NodeHeap
    var lastIds: seq<Id>
    var failed: set<Id>
    var skipped: set<Id>
    var askEveryone: bool
    var rounds: nat
    /** Answers processed so far. */
    var clock: nat

    /** What the lookup started from, the peers asked, in order, and those
        that answered, in the order their answers were processed. */
    ghost const start: set<Id>
    ghost var asked: seq<Id>
    ghost var answers: seq<Id>
    ghost var answered: set<Id>
    ghost var heard: set<Id>

    ghost predicate Shape()
      reads this, nearest
    {
      && nearest.Valid() && nearest.pivot == target && nearest.maxsize == ksize
      && 1 <= ksize && 1 <= alpha
      && AllDifferent(asked) && Elems(asked) == nearest.contacted
      && Told()
    }

    /** Every peer asked has answered, has failed, or is still `open`. */
    ghost predicate Account(open: set<Id>)
      reads this, nearest
    {
      && nearest.contacted == answered + failed + open
      && answered !! failed && answered !! open && failed !! open
      && (forall peer :: peer in answered ==> !net.answer(peer).Silence?)
      && (forall peer :: peer in failed ==> net.answer(peer).Silence?)
      && Justified(net, skipped)
    }

    ghost predicate Shortlist()
      reads this, nearest
    {
      ShortlistOk(target, ksize, heard, failed, skipped, nearest.entries) && nearest.contacted <= heard
    }

    ghost predicate During(open: set<Id>)
      reads this, nearest
    {
      Shape() && Account(open) && Shortlist()
    }

    constructor (net: Network, target: Id, peers: seq<Node>, ksize: nat, alpha: nat)
      requires 1 <= ksize && 1 <= alpha
      ensures fresh(nearest) && asked == [] && start == IdSet(peers)
      ensures this.net == net && this.target == target && this.ksize == ksize && this.alpha == alpha
      ensures skipped == {} && !askEveryone
      ensures During({})
      ensures IdSeq(nearest.entries) == Nearest(target, ksize, IdSet(peers))
    {
      this.net, this.target, this.ksize, this.alpha := net, target, ksize, alpha;
      var heap := new NodeHeap(target, ksize);
      heap.Push(peers);
      nearest := heap;
      lastIds, failed, skipped, askEveryone, rounds, clock := [], {}, {}, false, 0, 0;
      answered, answers, asked, start, heard := {}, [], [], IdSet(peers), IdSet(peers);
      new;
      assert IdSet([]) + IdSet(peers) == IdSet(peers);
      NearestIds(target, ksize, start, nearest.entries);
    }

    ghost predicate Told()
      reads this
    {
      Elems(answers) == answered && heard == Heard(net, start, answers)
    }

    /** `peer` answered. */
    ghost method NoteAnswer(peer: Id)
      requires Told()
      modifies this`answers, this`answered, this`heard
      ensures Told()
      ensures answered == old(answered) + {peer}
      ensures heard == old(heard) + IdSet(NodeList(net.answer(peer)))
    {
      ElemsSnoc(answers, peer);
      assert (answers + [peer])[..|answers|] == answers;
      answers, answered := answers + [peer], answered + {peer};
      heard := heard + IdSet(NodeList(net.answer(peer)));
    }

    /** Merge reported contacts, leaving out those that failed in this lookup or
        are known not to respond. */
    method MergeReport(nodes: seq<Node>)
      requires nearest.Valid() && nearest.pivot == target && nearest.maxsize == ksize && Shortlist()
      modifies this`skipped, this`clock, nearest`entries
      ensures nearest.Valid() && clock == old(clock) + 1
      ensures nearest.entries
           == Pushed(target, ksize, old(nearest.entries), Outside(nodes, failed + KnownFailing(net, old(clock), nodes)))
      ensures IdSeq(nearest.entries)
           == Nearest(target, ksize, old(IdSet(nearest.entries)) + Usable(net, failed, old(clock), nodes))
      ensures ShortlistOk(target, ksize, heard + IdSet(nodes), failed, skipped, nearest.entries)
      ensures Justified(net, old(skipped)) ==> Justified(net, skipped)
    {
      KnownFailingIds(net, clock, nodes);
      var knownFailing := KnownFailing(net, clock, nodes);
      var usable := Outside(nodes, failed + knownFailing);
      OutsideIds(nodes, failed + knownFailing);
      clock := clock + 1;
      skipped := skipped + knownFailing;
      nearest.Push(usable);
      ReportKeepsShortlist(target, ksize, heard, failed, old(skipped), old(nearest.entries),
                           IdSet(nodes), knownFailing, nearest.entries);
    }

    /** `peer` answered with `nodes`. */
    method AddReported(peer: Id, nodes: seq<Node>, ghost open: set<Id>)
      requires During(open) && peer in open
      requires net.answer(peer) != Silence && nodes == NodeList(net.answer(peer))
      modifies this`skipped, this`clock, this`answered, this`answers, this`heard, nearest`entries
      ensures During(open - {peer}) && clock == old(clock) + 1
      ensures answered == old(answered) + {peer}
      ensures IdSeq(nearest.entries)
           == Nearest(target, ksize, old(IdSet(nearest.entries)) + Usable(net, failed, old(clock), nodes))
    {
      MergeReport(nodes);
      NoteAnswer(peer);
    }

    /** Drop peers that did not respond from this lookup for good. */
    method RemoveFailed(peers: set<Id>)
      requires During(peers)
      requires forall peer :: peer in peers ==> net.answer(peer).Silence?
      modifies this`failed, nearest`entries
      ensures During({})
      ensures failed == old(failed) + peers
      ensures nearest.entries == Outside(old(nearest.entries), peers)
    {
      nearest.Remove(peers);
      failed := failed + peers;
    }

    /** How many peers the next round asks. */
    function RoundSize(limit: Option<nat>): (count: nat)
      reads this, nearest
    {
      var size := if askEveryone || IdSeq(nearest.entries) == lastIds then |nearest.entries| else alpha;
      if limit.Some? && limit.value < size then limit.value else size
    }

    /** Choose up to `limit` peers for the next round and mark them as
        contacted. */
    method NextPeers(limit: Option<nat>) returns (peers: seq<Id>)
      requires During({})
      modifies this`lastIds, this`rounds, this`asked, nearest`contacted
      ensures During(Elems(peers))
      ensures peers == Chosen(nearest.entries, old(nearest.contacted), old(RoundSize(limit)))
      ensures lastIds == IdSeq(nearest.entries)
      ensures rounds == old(rounds) + if peers == [] then 0 else 1
      ensures asked == old(asked) + peers
      ensures Elems(peers) <= IdSet(nearest.entries)
      ensures Elems(peers) !! old(nearest.contacted)
      ensures nearest.contacted == old(nearest.contacted) + Elems(peers)
      ensures limit.Some? ==> |peers| <= limit.value
      ensures old(askEveryone) && limit.None? ==> IdSet(nearest.entries) <= nearest.contacted
      ensures !old(nearest.HaveContactedAll()) && limit != Some(0) ==> peers != []
    {
      var count := RoundSize(limit);
      lastIds := IdSeq(nearest.entries);
      peers := Chosen(nearest.entries, nearest.contacted, count);
      ChosenIds(nearest.entries, nearest.contacted, count);
      ElemsConcat(asked, peers);
      MarkContacted(peers);
      if peers != [] {
        rounds := rounds + 1;
      }
      asked := asked + peers;
    }

    /** Between two rounds. */
    lemma HeardFromAsked()
      requires During({})
      ensures heard == Heard(net, start, asked) && Elems(asked) <= heard
    {
      assert forall peer :: peer in asked <==> peer in Elems(asked);
      assert forall peer :: peer in answers <==> peer in Elems(answers);
      HeardSame(net, start, asked, answers);
    }

    /** Whoever failed and whatever was made up. */
    lemma ClosedWhenAllAsked()
      requires During({}) && IdSet(nearest.entries) <= nearest.contacted
      ensures Closed(net, target, ksize, start, asked, skipped)
    {
      HeardFromAsked();
    }

    method MarkContacted(peers: seq<Id>)
      modifies nearest`contacted
      ensures nearest.contacted == old(nearest.contacted) + Elems(peers)
    {
      var i := 0;
      while i < |peers|
        invariant 0 <= i <= |peers|
        invariant nearest.contacted == old(nearest.contacted) + Elems(peers[..i])
      {
        nearest.MarkContacted(peers[i]);
        assert peers[..i + 1] == peers[..i] + [peers[i]];
        ElemsSnoc(peers[..i], peers[i]);
        i := i + 1;
      }
      assert peers[..i] == peers;
    }
  }
}
