/** The value lookup that must hear from every peer it asks. */
module ValueSearches {
  import opened XorMetric
  import opened Nodes
  import opened Selection
  import opened NodeHeaps
  import opened Crawls
  import opened LookupRuns
  import opened Wire

  datatype ValueSearch = Found(value: Bytes) | NotFound | Incomplete

  /** No value of a peer that answered was approved. */
  ghost predicate NoneApproved(crawl: SpiderCrawl, accept: Bytes -> bool)
    reads crawl
  {
    forall peer :: peer in crawl.answered && crawl.net.answer(peer).Hit? ==>
      !accept(crawl.net.answer(peer).value)
  }

  /** `peer` answered with a value that was not approved. */
  method DiscardValue(crawl: SpiderCrawl, peer: Id, ghost open: set<Id>)
    requires crawl.During(open) && peer in open && crawl.net.answer(peer).Hit?
    modifies crawl`answered, crawl`answers, crawl`heard
    ensures crawl.During(open - {peer})
    ensures crawl.answered == old(crawl.answered) + {peer}
  {
    crawl.NoteAnswer(peer);
    assert IdSet([]) == {};
    assert crawl.heard == old(crawl.heard);
  }

  /** Process one answer: an approved value ends the search, any other is
      discarded, a list of nodes is merged, silence is noted. */
  method HandleAnswer(crawl: SpiderCrawl, peer: Id, accept: Bytes -> bool, ghost pending: set<Id>)
    returns (approved: Option<Bytes>, silent: bool)
    requires crawl.During(pending) && peer in pending && NoneApproved(crawl, accept)
    modifies crawl`skipped, crawl`clock, crawl`answered, crawl`answers, crawl`heard, crawl.nearest`entries
    ensures silent <==> crawl.net.answer(peer).Silence?
    ensures approved.Some? ==> accept(approved.value) && crawl.net.answer(peer) == Hit(approved.value)
    ensures approved.None? ==> NoneApproved(crawl, accept)
    ensures approved.None? ==> crawl.During(if silent then pending else pending - {peer})
  {
    approved := None;
    var answer := crawl.net.answer(peer);
    silent := answer.Silence?;
    match answer {
      case Silence =>
      case Hit(value) =>
        if accept(value) {
          return Some(value), false;
        }
        DiscardValue(crawl, peer, pending);
      case Closer(nodes) =>
        crawl.AddReported(peer, nodes, pending);
    }
  }

  /** Process the answers of a round as they arrive, in any order. Stops early
      when a value is approved or the deadline passes; `late(n)` says whether it
      has passed at the n-th look at the clock. */
  method AwaitAnswers(crawl: SpiderCrawl, peers: set<Id>, late: nat -> bool, looks: nat, accept: Bytes -> bool)
    returns (stopped: Option<ValueSearch>, toRemove: set<Id>, now: nat)
    requires crawl.During(peers) && NoneApproved(crawl, accept)
    modifies crawl`skipped, crawl`clock, crawl`answered, crawl`answers, crawl`heard, crawl.nearest`entries
    ensures stopped.None? ==> crawl.During(toRemove) && NoneApproved(crawl, accept)
    ensures stopped.None? ==> toRemove == Silent(crawl.net, peers)
    ensures stopped.Some? ==> stopped.value != NotFound
    ensures stopped.Some? && stopped.value.Found? ==>
              accept(stopped.value.value) &&
              exists peer :: peer in peers && crawl.net.answer(peer) == Hit(stopped.value.value)
    ensures stopped == Some(Incomplete) ==> exists n :: late(n)
  {
    var open := peers;
    ghost var done: set<Id> := {};
    toRemove, now, stopped := {}, looks, None;
    while open != {}
      invariant open + done == peers && open !! done && toRemove == Silent(crawl.net, done)
      invariant crawl.During(open + toRemove) && NoneApproved(crawl, accept)
      decreases open
    {
      if late(now) {
        return Some(Incomplete), toRemove, now;
      }
      now := now + 1;
      var peer :| peer in open;
      RoundSets(crawl.net, done, open, peer);
      var approved, silent := HandleAnswer(crawl, peer, accept, open + toRemove);
      if approved.Some? {
        return Some(Found(approved.value)), toRemove, now;
      }
      open, done := open - {peer}, done + {peer};
      if silent {
        toRemove := toRemove + {peer};
      }
    }
    assert done == peers && open + toRemove == toRemove;
  }

  method AwaitRound(crawl: SpiderCrawl, peers: seq<Id>, late: nat -> bool, looks: nat, accept: Bytes -> bool)
    returns (stopped: Option<ValueSearch>, silent: bool, now: nat)
    requires crawl.During(Elems(peers)) && NoneApproved(crawl, accept)
    modifies crawl`failed, crawl`skipped, crawl`clock, crawl`answered, crawl`answers, crawl`heard,
             crawl.nearest`entries
    ensures stopped.None? ==> crawl.During({}) && NoneApproved(crawl, accept)
    ensures stopped.None? ==> (silent <==> crawl.failed != old(crawl.failed))
    ensures stopped.None? ==> old(crawl.failed) <= crawl.failed
    ensures stopped.Some? ==> stopped.value != NotFound
    ensures stopped.Some? && stopped.value.Found? ==>
              accept(stopped.value.value) &&
              exists peer :: peer in peers && crawl.net.answer(peer) == Hit(stopped.value.value)
    ensures stopped == Some(Incomplete) ==> exists n :: late(n)
  {
    var toRemove;
    stopped, toRemove, now := AwaitAnswers(crawl, Elems(peers), late, looks, accept);
    silent := toRemove != {};
    if stopped.None? {
      crawl.RemoveFailed(toRemove);
    }
  }

  /** The peer answered, and not with an approved value. */
  predicate Declined(answer: Answer, accept: Bytes -> bool)
  {
    !answer.Silence? && (answer.Hit? ==> !accept(answer.value))
  }

  /** What the outcome of a search says about the peers asked. */
  ghost predicate SearchGuarantee(
    net: Network, asked: seq<Id>, accept: Bytes -> bool, late: nat -> bool, outcome: ValueSearch)
  {
    match outcome
    case Found(value) =>
      accept(value) && exists peer :: peer in asked && net.answer(peer) == Hit(value)
    case NotFound =>
      forall peer :: peer in asked ==> Declined(net.answer(peer), accept)
    case Incomplete =>
      (exists n :: late(n)) || exists peer :: peer in asked && net.answer(peer).Silence?
  }

  /** Nobody failed, or somebody asked was silent. */
  ghost predicate SilenceNoted(crawl: SpiderCrawl, incomplete: bool)
    reads crawl
  {
    (crawl.failed != {} <==> incomplete)
  }

  lemma FinishedSearch(crawl: SpiderCrawl, late: nat -> bool, accept: Bytes -> bool, incomplete: bool)
    requires crawl.During({}) && NoneApproved(crawl, accept) && SilenceNoted(crawl, incomplete)
    ensures SearchGuarantee(crawl.net, crawl.asked, accept, late, if incomplete then Incomplete else NotFound)
  {
  }

  /** Where a search stands between two rounds. */
  ghost predicate Searching(crawl: SpiderCrawl, initial: set<Id>, accept: Bytes -> bool, incomplete: bool)
    reads crawl, crawl.nearest
  {
    && crawl.During({}) && NoneApproved(crawl, accept) && SilenceNoted(crawl, incomplete)
    && (crawl.asked == [] ==> IdSet(crawl.nearest.entries) == initial)
    && (crawl.asked != [] && crawl.askEveryone ==> initial <= crawl.nearest.contacted)
  }

  /** Ask the peers of the next round: somebody new and, in a lookup that asks
      everyone, everybody it started with. */
  method BeginRound(crawl: SpiderCrawl, ghost initial: set<Id>, ghost all: set<nat>) returns (peers: seq<Id>)
    requires crawl.During({}) && !crawl.nearest.HaveContactedAll()
    requires crawl.asked == [] ==> IdSet(crawl.nearest.entries) == initial
    requires crawl.asked != [] && crawl.askEveryone ==> initial <= crawl.nearest.contacted
    requires forall id: Id :: id in all
    modifies crawl`lastIds, crawl`rounds, crawl`asked, crawl.nearest`contacted
    ensures crawl.During(Elems(peers)) && crawl.asked != [] && forall peer :: peer in peers ==> peer in crawl.asked
    ensures crawl.askEveryone ==> initial <= crawl.nearest.contacted
    ensures all - crawl.nearest.contacted < old(all - crawl.nearest.contacted)
  {
    peers := crawl.NextPeers(None);
    assert peers[0] in Elems(peers) && peers[0] in all;
  }

  /** One round of a search that is not over. */
  method SearchRound(crawl: SpiderCrawl, late: nat -> bool, looks: nat, accept: Bytes -> bool,
                     incomplete: bool, ghost initial: set<Id>, ghost all: set<nat>)
    returns (stopped: Option<ValueSearch>, silent: bool, now: nat)
    requires Searching(crawl, initial, accept, incomplete) && !crawl.nearest.HaveContactedAll()
    requires forall id: Id :: id in all
    modifies crawl, crawl.nearest
    ensures crawl.askEveryone == old(crawl.askEveryone)
    ensures AllDifferent(crawl.asked)
    ensures stopped.None? ==> Searching(crawl, initial, accept, incomplete || silent)
    ensures stopped.None? ==> all - crawl.nearest.contacted < old(all - crawl.nearest.contacted)
    ensures stopped.Some? ==> stopped.value != NotFound
    ensures stopped.Some? ==> SearchGuarantee(crawl.net, crawl.asked, accept, late, stopped.value)
  {
    var peers := BeginRound(crawl, initial, all);
    stopped, silent, now := AwaitRound(crawl, peers, late, looks, accept);
  }

  /** Ask until everybody in the shortlist has been asked, a value is approved
      or the deadline passes. A lookup that asks everyone has asked, when it
      finds nothing, every peer it started with: none can be pushed out of the
      shortlist unasked, whatever nodes the others make up. */
  method Search(crawl: SpiderCrawl, late: nat -> bool, accept: Bytes -> bool)
    returns (outcome: ValueSearch)
    requires crawl.During({}) && crawl.asked == [] && crawl.failed == {} && crawl.answered == {}
    modifies crawl, crawl.nearest
    ensures SearchGuarantee(crawl.net, crawl.asked, accept, late, outcome)
    ensures AllDifferent(crawl.asked)
    ensures outcome == NotFound && old(crawl.askEveryone) ==>
              old(IdSet(crawl.nearest.entries)) <= Elems(crawl.asked)
    ensures outcome == NotFound ==>
              Closed(crawl.net, crawl.target, crawl.ksize, crawl.start, crawl.asked, crawl.skipped)
    ensures outcome == NotFound && old(IdSet(crawl.nearest.entries)) != {} ==> crawl.asked != []
  {
    var incomplete := false;
    var looks := 0;
    ghost var all := IdsBelow(KeySpace());
    ghost var initial := IdSet(crawl.nearest.entries);
    while !crawl.nearest.HaveContactedAll()
      invariant Searching(crawl, initial, accept, incomplete)
      invariant crawl.askEveryone == old(crawl.askEveryone)
      decreases all - crawl.nearest.contacted
    {
      if late(looks) {
        return Incomplete;
      }
      var stopped, silent;
      stopped, silent, looks := SearchRound(crawl, late, looks + 1, accept, incomplete, initial, all);
      if stopped.Some? {
        return stopped.value;
      }
      incomplete := incomplete || silent;
    }
    crawl.nearest.ContactedAllIds();
    crawl.ClosedWhenAllAsked();
    FinishedSearch(crawl, late, accept, incomplete);
    return if incomplete then Incomplete else NotFound;
  }
}
