/** The lookup that returns the k closest nodes to a target. */
module NodeLookups {
  import opened XorMetric
  import opened Nodes
  import opened Selection
  import opened NodeHeaps
  import opened Crawls
  import opened LookupRuns

  /** The nodes found, all of which responded, and how many others did not. */
  datatype LookupNodes = LookupNodes(nodes: seq<Node>, unresponsive: nat)

  lemma ReportedStep(net: Network, target: Id, k: nat, failed: set<Id>, entries: set<Id>, done: Round, peer: Id, clock: nat)
    requires peer !in done
    ensures Nearest(target, k, Elems(Nearest(target, k, entries + Reported(net, failed, done)))
                               + Usable(net, failed, clock, NodeList(net.answer(peer))))
         == Nearest(target, k, entries + Reported(net, failed, done[peer := clock]))
  {
    var usable := Usable(net, failed, clock, NodeList(net.answer(peer)));
    MergeNearest(target, k, entries + Reported(net, failed, done), usable);
    ReportedMore(net, failed, done, peer, clock);
    assert entries + Reported(net, failed, done[peer := clock]) == entries + Reported(net, failed, done) + usable;
  }

  lemma ReportedMore(net: Network, failed: set<Id>, done: Round, peer: Id, clock: nat)
    requires peer !in done
    ensures Reported(net, failed, done[peer := clock])
         == Reported(net, failed, done) + Usable(net, failed, clock, NodeList(net.answer(peer)))
  {
    var after := done[peer := clock];
    KnownFailingIds(net, clock, NodeList(net.answer(peer)));
    forall x: Id
      ensures x in Reported(net, failed, after) <==>
              x in Reported(net, failed, done) || x in Usable(net, failed, clock, NodeList(net.answer(peer)))
    {
      if x in Reported(net, failed, done) {
        var p :| p in done && x in IdSet(NodeList(net.answer(p))) && x !in failed && !net.failing(done[p], x);
        assert p in after && after[p] == done[p];
      }
      if x in Usable(net, failed, clock, NodeList(net.answer(peer))) {
        assert peer in after && after[peer] == clock;
      }
    }
  }

  lemma SilentReportsNothing(net: Network, failed: set<Id>, done: Round, peer: Id, clock: nat)
    requires peer !in done && net.answer(peer).Silence?
    ensures Reported(net, failed, done[peer := clock]) == Reported(net, failed, done)
  {
    ReportedMore(net, failed, done, peer, clock);
  }

  /** The shortlist is what the answers in `done` leave of `before`. */
  ghost predicate Merged(crawl: SpiderCrawl, before: set<Id>, done: Round)
    reads crawl, crawl.nearest
  {
    IdSeq(crawl.nearest.entries)
      == Nearest(crawl.target, crawl.ksize, before + Reported(crawl.net, crawl.failed, done))
  }

  /** Process one answer, at the present moment. */
  method ProcessAnswer(crawl: SpiderCrawl, peer: Id, ghost pending: set<Id>, ghost before: set<Id>, ghost done: Round)
    returns (answered: bool)
    requires crawl.During(pending) && peer in pending && peer !in done && Merged(crawl, before, done)
    modifies crawl`skipped, crawl`clock, crawl`answered, crawl`answers, crawl`heard, crawl.nearest`entries
    ensures answered <==> !crawl.net.answer(peer).Silence?
    ensures crawl.During(if answered then pending - {peer} else pending)
    ensures Merged(crawl, before, done[peer := old(crawl.clock)]) && crawl.clock >= old(crawl.clock)
  {
    var answer := crawl.net.answer(peer);
    answered := !answer.Silence?;
    if answered {
      ReportedStep(crawl.net, crawl.target, crawl.ksize, crawl.failed, before, done, peer, crawl.clock);
      IdSetIsElems(crawl.nearest.entries);
      crawl.AddReported(peer, NodeList(answer), pending);
    } else {
      SilentReportsNothing(crawl.net, crawl.failed, done, peer, crawl.clock);
    }
  }

  /** Some answers of a round have been processed, at moments since `from`. */
  ghost predicate Halfway(crawl: SpiderCrawl, before: set<Id>, from: nat, open: set<Id>, toRemove: set<Id>, round: Round)
    reads crawl, crawl.nearest
  {
    && open !! round.Keys && toRemove == Silent(crawl.net, round.Keys)
    && crawl.During(open + toRemove) && Merged(crawl, before, round)
    && from <= crawl.clock && Within(round, from, crawl.clock)
  }

  method CollectOne(crawl: SpiderCrawl, peer: Id, open: set<Id>, toRemove: set<Id>,
                    ghost before: set<Id>, ghost from: nat, ghost round: Round)
    returns (left: set<Id>, silent: set<Id>, ghost done: Round)
    requires Halfway(crawl, before, from, open, toRemove, round) && peer in open
    modifies crawl`skipped, crawl`clock, crawl`answered, crawl`answers, crawl`heard, crawl.nearest`entries
    ensures Halfway(crawl, before, from, left, silent, done)
    ensures left == open - {peer} && done.Keys == round.Keys + {peer}
  {
    RoundSets(crawl.net, round.Keys, open, peer);
    done := round[peer := crawl.clock];
    assert done.Keys == round.Keys + {peer};
    var answered := ProcessAnswer(crawl, peer, open + toRemove, before, round);
    left := open - {peer};
    silent := if answered then toRemove else toRemove + {peer};
  }

  /** Process the answers of a round, in whatever order they are picked up. */
  method CollectAnswers(crawl: SpiderCrawl, peers: set<Id>, ghost before: set<Id>)
    returns (toRemove: set<Id>, ghost round: Round)
    requires crawl.During(peers) && before == IdSet(crawl.nearest.entries)
    modifies crawl`skipped, crawl`clock, crawl`answered, crawl`answers, crawl`heard, crawl.nearest`entries
    ensures round.Keys == peers && Within(round, old(crawl.clock), crawl.clock)
    ensures toRemove == Silent(crawl.net, peers) && crawl.During(toRemove) && Merged(crawl, before, round)
    ensures peers == {} ==> crawl.nearest.entries == old(crawl.nearest.entries)
  {
    var open := peers;
    round, toRemove := map[], {};
    RoundStarts(crawl, before);
    assert open + toRemove == peers;
    while open != {}
      invariant open + round.Keys == peers && Halfway(crawl, before, old(crawl.clock), open, toRemove, round)
      invariant peers == {} ==> crawl.nearest.entries == old(crawl.nearest.entries)
      decreases open
    {
      var peer :| peer in open;
      open, toRemove, round := CollectOne(crawl, peer, open, toRemove, before, old(crawl.clock), round);
    }
    assert round.Keys == peers && open + toRemove == toRemove;
  }

  lemma RoundStarts(crawl: SpiderCrawl, before: set<Id>)
    requires crawl.nearest.Valid() && crawl.nearest.pivot == crawl.target && crawl.nearest.maxsize == crawl.ksize
    requires before == IdSet(crawl.nearest.entries)
    ensures Merged(crawl, before, map[])
  {
    OrderedIsNearest(crawl.target, crawl.ksize, crawl.nearest.entries);
    assert before + Reported(crawl.net, crawl.failed, map[]) == before;
  }

  /** One round's answers. What they leave on the shortlist is what `AfterRound`
      says of the peers asked and the moments at which they were heard. */
  method ProcessRound(crawl: SpiderCrawl, peers: seq<Id>) returns (ghost round: Round)
    requires crawl.During(Elems(peers))
    modifies crawl`failed, crawl`skipped, crawl`clock, crawl`answered, crawl`answers, crawl`heard,
             crawl.nearest`entries
    ensures crawl.During({})
    ensures round.Keys == Elems(peers) && Within(round, old(crawl.clock), crawl.clock)
    ensures crawl.failed == old(crawl.failed) + Silent(crawl.net, Elems(peers))
    ensures IdSet(crawl.nearest.entries)
         == AfterRound(crawl.net, crawl.target, crawl.ksize, old(crawl.failed), old(IdSet(crawl.nearest.entries)), round)
    ensures Elems(peers) == {} ==> crawl.nearest.entries == old(crawl.nearest.entries)
  {
    ghost var before := IdSet(crawl.nearest.entries);
    var toRemove;
    toRemove, round := CollectAnswers(crawl, Elems(peers), before);
    RoundEnds(crawl, before, round, toRemove);
    crawl.RemoveFailed(toRemove);
  }

  lemma RoundEnds(crawl: SpiderCrawl, before: set<Id>, round: Round, toRemove: set<Id>)
    requires toRemove == Silent(crawl.net, round.Keys) && Merged(crawl, before, round)
    ensures var left := Outside(crawl.nearest.entries, toRemove);
            && IdSet(left) == AfterRound(crawl.net, crawl.target, crawl.ksize, crawl.failed, before, round)
            && (round.Keys == {} ==> left == crawl.nearest.entries)
  {
    OutsideIds(crawl.nearest.entries, toRemove);
    IdSetIsElems(crawl.nearest.entries);
    if round.Keys == {} {
      assert toRemove == {};
      OutsideNone(crawl.nearest.entries, toRemove);
    }
  }

  /** What a finished lookup guarantees, whatever the peers did. Of the k closest
      of all nodes it started with or heard of, it returns every one that answered
      and was not left out. */
  ghost predicate LookupGuarantee(
    net: Network, target: Id, start: set<Id>, k: nat, found: LookupNodes, asked: seq<Id>, skipped: set<Id>)
  {
    && AllDifferent(asked) && Elems(asked) <= Heard(net, start, asked)
    && (forall id :: id in IdSet(found.nodes) ==> id in asked && !net.answer(id).Silence?)
    && Ordered(target, found.nodes) && |found.nodes| <= k
    && found.unresponsive == |Silent(net, Elems(asked)) + skipped| && Justified(net, skipped)
    && Elems(Nearest(target, k, Heard(net, start, asked))) - Silent(net, Elems(asked)) - skipped <= IdSet(found.nodes)
    && Closed(net, target, k, start, asked, skipped)
  }

  lemma FinishedLookup(crawl: SpiderCrawl, found: LookupNodes)
    requires crawl.During({}) && IdSet(crawl.nearest.entries) <= crawl.nearest.contacted
    requires found == LookupNodes(crawl.nearest.entries, |crawl.failed + crawl.skipped|)
    ensures LookupGuarantee(crawl.net, crawl.target, crawl.start, crawl.ksize, found, crawl.asked, crawl.skipped)
  {
    crawl.HeardFromAsked();
    crawl.ClosedWhenAllAsked();
    SilentOnesFailed(crawl);
    assert forall peer :: peer in crawl.asked <==> peer in Elems(crawl.asked);
  }

  lemma SilentOnesFailed(crawl: SpiderCrawl)
    requires crawl.During({})
    ensures crawl.failed == Silent(crawl.net, Elems(crawl.asked))
  {
  }

  /** Where the lookup stands, in terms of sets of ids. */
  ghost function ProgressOf(crawl: SpiderCrawl): (p: Progress)
    reads crawl, crawl.nearest
  {
    Progress(IdSet(crawl.nearest.entries), crawl.failed, crawl.nearest.contacted)
  }

  /** One round: unless everybody in the shortlist has been asked, it asked
      somebody new. */
  method AskRound(crawl: SpiderCrawl, ghost all: set<nat>) returns (ghost round: Round)
    requires crawl.During({}) && forall id: Id :: id in all
    modifies crawl, crawl.nearest
    ensures crawl.During({})
    ensures crawl.nearest.HaveContactedAll() || all - crawl.nearest.contacted < old(all - crawl.nearest.contacted)
    ensures round.Keys <= old(IdSet(crawl.nearest.entries) - crawl.nearest.contacted)
    ensures round.Keys == {} ==> ProgressOf(crawl) == old(ProgressOf(crawl))
    ensures ProgressOf(crawl) == NextProgress(crawl.net, crawl.target, crawl.ksize, old(ProgressOf(crawl)), round)
  {
    var peers := crawl.NextPeers(None);
    if peers == [] {
      assert Elems(peers) == {};
    } else {
      assert peers[0] in Elems(peers) && peers[0] in all;
    }
    round := ProcessRound(crawl, peers);
    NothingNew(crawl.net);
  }

  lemma NothingNew(net: Network)
    ensures Silent(net, {}) == {}
  {
  }

  /** The lookup has gone through these rounds. */
  ghost predicate Through(crawl: SpiderCrawl, rounds: seq<Round>)
    reads crawl, crawl.nearest
  {
    && Scheduled(crawl.net, crawl.target, crawl.ksize, crawl.start, rounds)
    && After(crawl.net, crawl.target, crawl.ksize, crawl.start, rounds) == ProgressOf(crawl)
  }

  method NextRound(crawl: SpiderCrawl, ghost all: set<nat>, ghost before: seq<Round>)
    returns (ghost rounds: seq<Round>)
    requires crawl.During({}) && Through(crawl, before) && forall id: Id :: id in all
    modifies crawl, crawl.nearest
    ensures crawl.During({}) && Through(crawl, rounds)
    ensures crawl.nearest.HaveContactedAll() || all - crawl.nearest.contacted < old(all - crawl.nearest.contacted)
  {
    ghost var round := AskRound(crawl, all);
    rounds := before;
    if round.Keys != {} {
      rounds := before + [round];
      assert rounds[..|before|] == before && rounds[|before|] == round;
    }
  }

  /** Run the lookup. It ends whatever the peers answer, because every round
      but the last asks somebody new. */
  method FindLookupNodes(net: Network, target: Id, peers: seq<Node>, k: nat, alpha: nat)
    returns (found: LookupNodes, ghost asked: seq<Id>, ghost skipped: set<Id>, ghost rounds: seq<Round>)
    requires 1 <= k && 1 <= alpha
    ensures LookupGuarantee(net, target, IdSet(peers), k, found, asked, skipped)
    ensures IsLookup(net, target, k, IdSet(peers), rounds)
    ensures After(net, target, k, IdSet(peers), rounds)
         == Progress(IdSet(found.nodes), Silent(net, Elems(asked)), Elems(asked))
  {
    var crawl := new SpiderCrawl(net, target, peers, k, alpha);
    ghost var all := IdsBelow(KeySpace());
    rounds := [];
    IdSetIsElems(crawl.nearest.entries);
    while true
      invariant fresh(crawl) && fresh(crawl.nearest) && crawl.During({}) && Through(crawl, rounds)
      decreases all - crawl.nearest.contacted
    {
      rounds := NextRound(crawl, all, rounds);
      if crawl.nearest.HaveContactedAll() {
        crawl.nearest.ContactedAllIds();
        found := LookupNodes(crawl.nearest.entries, |crawl.failed + crawl.skipped|);
        asked, skipped := crawl.asked, crawl.skipped;
        FinishedLookup(crawl, found);
        SilentOnesFailed(crawl);
        return;
      }
    }
  }

  /** Whenever nothing is lost, the result is exactly the k closest of the nodes
      that did not fail and were not left out. */
  lemma ExactUnderFailures(
    net: Network, target: Id, start: set<Id>, k: nat, found: LookupNodes, asked: seq<Id>, skipped: set<Id>)
    requires LookupGuarantee(net, target, start, k, found, asked, skipped)
    requires var heard, failed := Heard(net, start, asked), Silent(net, Elems(asked));
             || Elems(Nearest(target, k, heard)) !! failed + skipped
             || (skipped == {} && heard - failed <= Elems(Nearest(target, k, heard)))
    ensures IdSeq(found.nodes)
         == Nearest(target, k, Heard(net, start, asked) - (Silent(net, Elems(asked)) + skipped))
  {
    var heard, failed := Heard(net, start, asked), Silent(net, Elems(asked));
    DistinctCount(found.nodes);
    FoundAreLive(net, target, start, k, found, asked, skipped);
    ExactWhenNothingLost(target, k, heard, failed, skipped, IdSet(found.nodes));
    OrderedIsNearest(target, k, found.nodes);
    AllSelected(target, k, heard - (failed + skipped), IdSet(found.nodes));
  }

  lemma FoundAreLive(
    net: Network, target: Id, start: set<Id>, k: nat, found: LookupNodes, asked: seq<Id>, skipped: set<Id>)
    requires LookupGuarantee(net, target, start, k, found, asked, skipped)
    ensures IdSet(found.nodes) <= Heard(net, start, asked) - Silent(net, Elems(asked))
  {
    assert forall peer :: peer in asked <==> peer in Elems(asked);
  }

  /** A lookup started from peers 1 and 2 with room for one, of which peer 1 is
      silent: it returns nobody, although node 2 did not fail. */
  method LookupLosesNode(alpha: nat) returns (found: LookupNodes)
    requires 1 <= alpha
    ensures found.nodes == []
    ensures !Mute({1}).answer(2).Silence?
  {
    var one, two := Node(1, None, None), Node(2, None, None);
    assert Front([one, two]) == [one] && Front([one]) == [] && IdSet([]) == {};
    assert IdSet([one]) == {1};
    assert IdSet([one, two]) == {1, 2};
    ghost var asked, skipped, rounds;
    found, asked, skipped, rounds := FindLookupNodes(Mute({1}), 0, [one, two], 1, alpha);
    CutNodeIsLost(Mute({1}), rounds);
  }
}
