/** Reading the Status List: a byte-identical value backed by a strict quorum. */
module QuorumReads {
  import opened XorMetric
  import opened Nodes
  import opened Selection
  import opened NodeHeaps
  import opened Crawls
  import opened LookupRuns
  import opened Wire
  import opened ValueSearches

  function Max(a: nat, b: nat): (m: nat)
  {
    if a < b then b else a
  }

  /** Votes needed among `n`: a strict majority, and at least `minimum`. */
  function Required(n: nat, minimum: nat): (r: nat)
  {
    Max(minimum, n / 2 + 1)
  }

  ghost predicate HasQuorum(values: seq<Bytes>, minimum: nat, v: Bytes)
  {
    multiset(values)[v] >= Required(|values|, minimum)
  }

  /** Byte-identical responses a Status List read needs. */
  function ReadQuorum(alpha: nat): (q: nat)
  {
    Max(alpha, 1) / 2 + 1
  }

  lemma TwoCounts(values: seq<Bytes>, u: Bytes, v: Bytes)
    requires u != v
    ensures multiset(values)[u] + multiset(values)[v] <= |values|
  {
    var m := multiset(values);
    var rest := m[u := 0][v := 0];
    assert m == rest + multiset{}[u := m[u]] + multiset{}[v := m[v]];
    assert |m| == |values|;
  }

  lemma OneQuorum(values: seq<Bytes>, minimum: nat, u: Bytes, v: Bytes)
    requires HasQuorum(values, minimum, u) && HasQuorum(values, minimum, v)
    ensures u == v
  {
    if u != v {
      TwoCounts(values, u, v);
    }
  }

  /** Count how often each value occurs. */
  method CountValues(values: seq<Bytes>) returns (counts: map<Bytes, nat>)
    ensures forall v :: v in counts <==> v in values
    ensures forall v :: v in counts ==> counts[v] == multiset(values)[v]
  {
    counts := map[];
    var i := 0;
    while i < |values|
      invariant 0 <= i <= |values|
      invariant forall v :: v in counts <==> v in values[..i]
      invariant forall v :: v in counts ==> counts[v] == multiset(values[..i])[v]
    {
      var v := values[i];
      assert values[..i + 1] == values[..i] + [v];
      var seen := if v in counts then counts[v] else 0;
      counts := counts[v := seen + 1];
      i := i + 1;
    }
    assert values[..i] == values;
  }

  /** The highest count, if there is any value. */
  method HighestCount(counts: map<Bytes, nat>) returns (highest: Option<nat>)
    ensures highest.None? <==> counts == map[]
    ensures highest.Some? ==> exists v :: v in counts && counts[v] == highest.value
    ensures highest.Some? ==> forall v :: v in counts ==> counts[v] <= highest.value
  {
    highest := None;
    var left := counts.Keys;
    while left != {}
      invariant left <= counts.Keys
      invariant highest.None? ==> left == counts.Keys
      invariant highest.Some? ==> exists v :: v in counts && counts[v] == highest.value
      invariant highest.Some? ==> forall v :: v in counts && v !in left ==> counts[v] <= highest.value
      decreases left
    {
      var v :| v in left;
      left := left - {v};
      if highest.None? || highest.value < counts[v] {
        highest := Some(counts[v]);
      }
    }
  }

  /** The unique value with the highest count, if it reaches the quorum: exactly
      the value that has a strict quorum, if there is one. */
  method StrictQuorumValue(values: seq<Bytes>, minimum: nat) returns (winner: Option<Bytes>)
    ensures winner.Some? ==> HasQuorum(values, minimum, winner.value)
    ensures winner.None? ==> forall v :: !HasQuorum(values, minimum, v)
  {
    var counts := CountValues(values);
    var required := Max(minimum, |values| / 2 + 1);
    var highest := HighestCount(counts);
    assert forall v :: v !in counts ==> multiset(values)[v] == 0;
    if highest.None? || highest.value < required {
      return None;
    }
    var winners := set v | v in counts && counts[v] == highest.value;
    assert winners != {} by {
      var v :| v in counts && counts[v] == highest.value;
      assert v in winners;
    }
    var first :| first in winners;
    if winners - {first} != {} {
      ghost var second :| second in winners - {first};
      OneQuorum(values, minimum, first, second);
      return None;
    }
    return Some(first);
  }

  /** The votes: the initial values, then the value each voter answered with. */
  ghost function VotesOf(net: Network, initial: seq<Bytes>, voters: seq<Id>): (votes: seq<Bytes>)
    ensures |votes| == |initial| + |voters|
  {
    if voters == [] then initial
    else
      var answer := net.answer(voters[|voters| - 1]);
      VotesOf(net, initial, voters[..|voters| - 1]) + [if answer.Hit? then answer.value else []]
  }

  /** The voters are exactly the peers that answered with a value, each once. */
  ghost predicate VotersOk(net: Network, answered: set<Id>, voters: seq<Id>)
  {
    && AllDifferent(voters)
    && forall peer :: peer in Elems(voters) <==> peer in answered && net.answer(peer).Hit?
  }

  lemma VoteSnoc(net: Network, initial: seq<Bytes>, answered: set<Id>, voters: seq<Id>, peer: Id, v: Bytes)
    requires VotersOk(net, answered, voters) && net.answer(peer) == Hit(v) && peer !in answered
    ensures VotersOk(net, answered + {peer}, voters + [peer])
    ensures VotesOf(net, initial, voters + [peer]) == VotesOf(net, initial, voters) + [v]
  {
  }

  /** Account for the answer of one peer: a value is a vote. */
  method TakeAnswer(crawl: SpiderCrawl, peer: Id, values: seq<Bytes>, ghost pending: set<Id>,
                    ghost initial: seq<Bytes>, ghost before: seq<Id>)
    returns (votes: seq<Bytes>, ghost voters: seq<Id>)
    requires crawl.During(pending) && peer in pending && !crawl.net.answer(peer).Silence?
    requires values == VotesOf(crawl.net, initial, before) && VotersOk(crawl.net, crawl.answered, before)
    modifies crawl`skipped, crawl`clock, crawl`answered, crawl`answers, crawl`heard, crawl.nearest`entries
    ensures crawl.During(pending - {peer})
    ensures votes == VotesOf(crawl.net, initial, voters) && VotersOk(crawl.net, crawl.answered, voters)
    ensures Elems(voters) <= Elems(before) + {peer}
  {
    var answer := crawl.net.answer(peer);
    votes, voters := values, before;
    if answer.Hit? {
      ElemsSnoc(before, peer);
      VoteSnoc(crawl.net, initial, crawl.answered, before, peer, answer.value);
      DiscardValue(crawl, peer, pending);
      votes, voters := values + [answer.value], before + [peer];
    } else {
      crawl.AddReported(peer, answer.nodes, pending);
    }
  }

  /** Process the answers of a round in any order. */
  method CollectRound(crawl: SpiderCrawl, peers: seq<Id>, values: seq<Bytes>,
                      ghost initial: seq<Bytes>, ghost before: seq<Id>)
    returns (votes: seq<Bytes>, ghost voters: seq<Id>)
    requires crawl.During(Elems(peers))
    requires values == VotesOf(crawl.net, initial, before) && VotersOk(crawl.net, crawl.answered, before)
    modifies crawl`failed, crawl`skipped, crawl`clock, crawl`answered, crawl`answers, crawl`heard,
             crawl.nearest`entries
    ensures crawl.During({})
    ensures votes == VotesOf(crawl.net, initial, voters) && VotersOk(crawl.net, crawl.answered, voters)
    ensures |votes| <= |values| + |peers|
  {
    var open := Elems(peers);
    ghost var done: set<Id> := {};
    var toRemove := {};
    votes, voters := values, before;
    while open != {}
      invariant open + done == Elems(peers) && open !! done && toRemove == Silent(crawl.net, done)
      invariant crawl.During(open + toRemove)
      invariant votes == VotesOf(crawl.net, initial, voters) && VotersOk(crawl.net, crawl.answered, voters)
      invariant Elems(voters) <= Elems(before) + done
      decreases open
    {
      var peer :| peer in open;
      RoundSets(crawl.net, done, open, peer);
      if crawl.net.answer(peer).Silence? {
        toRemove := toRemove + {peer};
      } else {
        votes, voters := TakeAnswer(crawl, peer, votes, open + toRemove, initial, voters);
      }
      open, done := open - {peer}, done + {peer};
    }
    assert done == Elems(peers) && open + toRemove == toRemove;
    crawl.RemoveFailed(toRemove);
    FewVoters(before, voters, peers);
  }

  /** No more new voters than peers asked. */
  lemma FewVoters(before: seq<Id>, voters: seq<Id>, peers: seq<Id>)
    requires AllDifferent(voters) && Elems(voters) <= Elems(before) + Elems(peers)
    ensures |voters| <= |before| + |peers|
  {
    ElemsSize(before);
    ElemsSize(peers);
    DifferentSize(voters);
    SubsetSize(Elems(voters), Elems(before) + Elems(peers));
  }

  lemma {:induction false} DifferentSize(s: seq<Id>)
    requires AllDifferent(s)
    ensures |Elems(s)| == |s|
  {
    if s == [] {
      assert Elems(s) == {};
    } else {
      var front, last := s[..|s| - 1], s[|s| - 1];
      DifferentSize(front);
      assert s == front + [last];
      ElemsSnoc(front, last);
    }
  }

  lemma {:induction false} ElemsSize(s: seq<Id>)
    ensures |Elems(s)| <= |s|
  {
    if s == [] {
      assert Elems(s) == {};
    } else {
      ElemsSize(s[..|s| - 1]);
      assert s == s[..|s| - 1] + [s[|s| - 1]];
      ElemsSnoc(s[..|s| - 1], s[|s| - 1]);
    }
  }

  /** The voters are exactly the peers asked that answered with a value. */
  lemma VotersAsked(crawl: SpiderCrawl, voters: seq<Id>)
    requires crawl.During({}) && VotersOk(crawl.net, crawl.answered, voters)
    ensures forall peer :: peer in voters <==> peer in crawl.asked && crawl.net.answer(peer).Hit?
  {
  }

  /** Collect values until one has a strict quorum, the votes are used up, or
      everybody in the shortlist has been asked. Every value heard is a vote. */
  method FindQuorum(net: Network, target: Id, peers: seq<Node>, k: nat, alpha: nat,
                    initial: seq<Bytes>, minimum: nat, maximum: nat)
    returns (result: Option<Bytes>, ghost votes: seq<Bytes>, ghost voters: seq<Id>,
             ghost asked: seq<Id>, ghost skipped: set<Id>)
    requires 1 <= k && 1 <= alpha
    ensures AllDifferent(voters) && AllDifferent(asked)
    ensures forall peer :: peer in voters <==> peer in asked && net.answer(peer).Hit?
    ensures votes == VotesOf(net, initial, voters)
    ensures |votes| <= Max(|initial|, maximum)
    ensures result.Some? ==> HasQuorum(votes, minimum, result.value)
    ensures result.None? ==> forall v :: !HasQuorum(votes, minimum, v)
    ensures result.None? && |votes| < maximum ==> Closed(net, target, k, IdSet(peers), asked, skipped)
  {
    var crawl := new SpiderCrawl(net, target, peers, k, alpha);
    var found := initial;
    ghost var all := IdsBelow(KeySpace());
    voters := [];
    assert Elems(voters) == {};
    while true
      invariant fresh(crawl) && fresh(crawl.nearest) && crawl.During({}) && crawl.net == net
      invariant found == VotesOf(net, initial, voters) && VotersOk(net, crawl.answered, voters)
      invariant |found| <= Max(|initial|, maximum)
      decreases all - crawl.nearest.contacted
    {
      votes, asked, skipped := found, crawl.asked, crawl.skipped;
      VotersAsked(crawl, voters);
      result := StrictQuorumValue(found, minimum);
      if result.Some? {
        return;
      }
      if maximum <= |found| {
        return;
      }
      if crawl.nearest.HaveContactedAll() {
        crawl.nearest.ContactedAllIds();
        crawl.ClosedWhenAllAsked();
        return;
      }
      found, voters := VoteRound(crawl, maximum - |found|, found, initial, voters, all);
    }
  }

  method VoteRound(crawl: SpiderCrawl, limit: nat, values: seq<Bytes>,
                   ghost initial: seq<Bytes>, ghost before: seq<Id>, ghost all: set<nat>)
    returns (votes: seq<Bytes>, ghost voters: seq<Id>)
    requires crawl.During({}) && !crawl.nearest.HaveContactedAll() && 1 <= limit
    requires values == VotesOf(crawl.net, initial, before) && VotersOk(crawl.net, crawl.answered, before)
    requires forall id: Id :: id in all
    modifies crawl, crawl.nearest
    ensures crawl.During({})
    ensures votes == VotesOf(crawl.net, initial, voters) && VotersOk(crawl.net, crawl.answered, voters)
    ensures |votes| <= |values| + limit
    ensures all - crawl.nearest.contacted < old(all - crawl.nearest.contacted)
  {
    var round := crawl.NextPeers(Some(limit));
    assert round[0] in Elems(round) && round[0] in all;
    votes, voters := CollectRound(crawl, round, values, initial, before);
  }

  /** A value elected by the read quorum stays elected by every continuation of
      the votes up to the maximum, so stopping early changes no outcome. */
  lemma ElectionIsFinal(alpha: nat, votes: seq<Bytes>, more: seq<Bytes>, v: Bytes, u: Bytes)
    requires HasQuorum(votes, ReadQuorum(alpha), v)
    requires |votes + more| <= Max(alpha, 1)
    ensures HasQuorum(votes + more, ReadQuorum(alpha), u) <==> u == v
  {
    assert multiset(votes + more) == multiset(votes) + multiset(more);
    if HasQuorum(votes + more, ReadQuorum(alpha), u) {
      OneQuorum(votes + more, ReadQuorum(alpha), u, v);
    }
  }
}
