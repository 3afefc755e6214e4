/**
 The rounds of a node lookup as sets of ids, and what failures cost its result.

 A round is the set of peers it asks, each with the moment at which its answer is
 processed, because what this node knows of failing peers may change at any
 moment. `NodeLookups` proves that every lookup goes through such rounds.
 */
module LookupRuns {
  import opened XorMetric
  import opened Nodes
  import opened Selection
  import opened Crawls

  type Round = map<Id, nat>

  /** What the peers of a round report that the lookup takes. */
  ghost function Reported(net: Network, failed: set<Id>, round: Round): (ids: set<Id>)
  {
    set peer, x | peer in round && x in IdSet(NodeList(net.answer(peer))) && x !in failed && !net.failing(round[peer], x) :: x
  }

  ghost function Silent(net: Network, peers: set<Id>): (ids: set<Id>)
  {
    set peer | peer in peers && net.answer(peer).Silence?
  }

  /** The sets of peers of a round when one more answer has been processed. */
  lemma RoundSets(net: Network, done: set<Id>, open: set<Id>, peer: Id)
    requires peer in open
    ensures (open - {peer}) + (done + {peer}) == open + done
    ensures var silent := Silent(net, done);
            if net.answer(peer).Silence? then
              && Silent(net, done + {peer}) == silent + {peer}
              && (open - {peer}) + (silent + {peer}) == open + silent
            else
              && Silent(net, done + {peer}) == silent
              && (peer !in done ==> (open - {peer}) + silent == open + silent - {peer})
  {
  }

  /** The shortlist after a round. */
  ghost function AfterRound(net: Network, target: Id, k: nat, failed: set<Id>, entries: set<Id>, round: Round): (ids: set<Id>)
  {
    Elems(Nearest(target, k, entries + Reported(net, failed, round))) - Silent(net, round.Keys)
  }

  // --- The order of the answers ---

  lemma SameSelection(target: Id, k: nat, one: set<Id>, other: set<Id>)
    requires Elems(Nearest(target, k, one)) <= other && Elems(Nearest(target, k, other)) <= one
    ensures Elems(Nearest(target, k, one)) == Elems(Nearest(target, k, other))
  {
    SelectedFromBoth(target, k, one, other);
    SelectedFromBoth(target, k, other, one);
    assert one * other == other * one;
  }

  lemma SelectedFromBoth(target: Id, k: nat, one: set<Id>, other: set<Id>)
    requires Elems(Nearest(target, k, one)) <= other
    ensures Elems(Nearest(target, k, one)) == Elems(Nearest(target, k, one * other))
  {
    var all, both := Elems(Nearest(target, k, one)), Elems(Nearest(target, k, one * other));
    NearestSpec(target, k, one);
    forall id | id in all
      ensures id in both
    {
      SelectedFromPart(target, k, one, one * other, id);
    }
    NearestSize(target, k, one);
    NearestSize(target, k, one * other);
    SubsetSize(one * other, one);
    SubsetSize(all, both);
  }

  lemma SelectionIff(target: Id, k: nat, one: set<Id>, other: set<Id>, silent: set<Id>)
    requires silent <= one && silent <= other
    ensures Elems(Nearest(target, k, one)) - silent == Elems(Nearest(target, k, other)) - silent <==>
            Elems(Nearest(target, k, one)) <= other && Elems(Nearest(target, k, other)) <= one
  {
    NearestWithin(target, k, one);
    NearestWithin(target, k, other);
    if Elems(Nearest(target, k, one)) <= other && Elems(Nearest(target, k, other)) <= one {
      SameSelection(target, k, one, other);
    }
    if Elems(Nearest(target, k, one)) - silent == Elems(Nearest(target, k, other)) - silent {
      SelectedInOther(Elems(Nearest(target, k, one)), Elems(Nearest(target, k, other)), other, silent);
      SelectedInOther(Elems(Nearest(target, k, other)), Elems(Nearest(target, k, one)), one, silent);
    }
  }

  lemma SelectedInOther(ids: set<Id>, others: set<Id>, pool: set<Id>, silent: set<Id>)
    requires ids - silent == others - silent && others <= pool && silent <= pool
    ensures ids <= pool
  {
    forall id | id in ids
      ensures id in pool
    {
      if id !in silent {
        assert id in ids - silent;
      }
    }
  }

  /** The same peers asked, their answers processed at other moments: the shortlist
      is the same exactly when every id selected the one way was on the shortlist or
      usable the other way. */
  lemma OrderIff(net: Network, target: Id, k: nat, failed: set<Id>, entries: set<Id>, one: Round, other: Round)
    requires one.Keys == other.Keys <= entries
    ensures var pool, pool2 := entries + Reported(net, failed, one), entries + Reported(net, failed, other);
            AfterRound(net, target, k, failed, entries, one) == AfterRound(net, target, k, failed, entries, other) <==>
            Elems(Nearest(target, k, pool)) <= pool2 && Elems(Nearest(target, k, pool2)) <= pool
  {
    SelectionIff(target, k, entries + Reported(net, failed, one), entries + Reported(net, failed, other),
                 Silent(net, one.Keys));
  }

  /** What this node knows of failing peers does not change between two moments. */
  ghost predicate Steady(net: Network, from: nat, until: nat)
  {
    forall clock: nat, id: Id :: from <= clock <= until ==> (net.failing(clock, id) <==> net.failing(from, id))
  }

  ghost predicate Within(round: Round, from: nat, until: nat)
  {
    forall peer :: peer in round ==> from <= round[peer] <= until
  }

  /** As long as that does not change during the round, the order of its answers
      plays no part. */
  lemma OrderFree(net: Network, target: Id, k: nat, failed: set<Id>, entries: set<Id>, one: Round, other: Round,
                  from: nat, until: nat)
    requires one.Keys == other.Keys && Within(one, from, until) && Within(other, from, until) && Steady(net, from, until)
    ensures AfterRound(net, target, k, failed, entries, one) == AfterRound(net, target, k, failed, entries, other)
  {
    ReportedSteady(net, failed, one, other, from, until);
    ReportedSteady(net, failed, other, one, from, until);
    assert Reported(net, failed, one) == Reported(net, failed, other);
  }

  lemma ReportedSteady(net: Network, failed: set<Id>, one: Round, other: Round, from: nat, until: nat)
    requires one.Keys == other.Keys && Within(one, from, until) && Within(other, from, until) && Steady(net, from, until)
    ensures Reported(net, failed, one) <= Reported(net, failed, other)
  {
    forall x | x in Reported(net, failed, one)
      ensures x in Reported(net, failed, other)
    {
      var peer :| peer in one && x in IdSet(NodeList(net.answer(peer))) && x !in failed && !net.failing(one[peer], x);
      IsReported(net, failed, other, peer, x);
    }
  }

  /** Peer 1 reports node 3, peer 2 nobody, and node 3 is known to fail until the
      first answer has been processed: the order decides whether it is taken. */
  lemma OrderMatters(net: Network, three: Node)
    requires three.id == 3 && net.answer(1) == Closer([three]) && net.answer(2) == Closer([])
    requires net.failing(0, 3) && !net.failing(1, 3)
    ensures AfterRound(net, 0, 3, {}, {1, 2}, map[1 := 0, 2 := 1]) == {1, 2}
    ensures AfterRound(net, 0, 3, {}, {1, 2}, map[1 := 1, 2 := 0]) == {1, 2, 3}
  {
    assert Front([three]) == [] && IdSet([]) == {} && IdSet([three]) == {3};
    TakenOrNot(net, map[1 := 0, 2 := 1], {1, 2});
    TakenOrNot(net, map[1 := 1, 2 := 0], {1, 2, 3});
  }

  lemma TakenOrNot(net: Network, round: Round, after: set<Id>)
    requires round.Keys == {1, 2} && net.answer(1).Closer? && net.answer(2).Closer?
    requires IdSet(net.answer(1).nodes) == {3} && IdSet(net.answer(2).nodes) == {}
    requires after == {1, 2} + (if net.failing(round[1], 3) then {} else {3})
    ensures AfterRound(net, 0, 3, {}, {1, 2}, round) == after
  {
    OneReport(net, round);
    NearestOfFew(0, 3, after);
  }

  lemma OneReport(net: Network, round: Round)
    requires round.Keys == {1, 2} && net.answer(1).Closer? && net.answer(2).Closer?
    requires IdSet(net.answer(1).nodes) == {3} && IdSet(net.answer(2).nodes) == {}
    ensures Reported(net, {}, round) == if net.failing(round[1], 3) then {} else {3}
    ensures Silent(net, round.Keys) == {}
  {
    var reported := Reported(net, {}, round);
    forall x | x in reported
      ensures x == 3 && !net.failing(round[1], 3)
    {
      var peer :| peer in round && x in IdSet(NodeList(net.answer(peer))) && !net.failing(round[peer], x);
      assert peer in round.Keys;
    }
    if !net.failing(round[1], 3) {
      IsReported(net, {}, round, 1, 3);
    }
  }

  lemma IsReported(net: Network, failed: set<Id>, round: Round, peer: Id, x: Id)
    requires peer in round && x in IdSet(NodeList(net.answer(peer))) && x !in failed && !net.failing(round[peer], x)
    ensures x in Reported(net, failed, round)
  {
  }

  // --- Whole lookups ---

  /** Where a lookup stands after some rounds. */
  datatype Progress = Progress(entries: set<Id>, failed: set<Id>, asked: set<Id>)

  ghost function NextProgress(net: Network, target: Id, k: nat, p: Progress, round: Round): (after: Progress)
  {
    Progress(AfterRound(net, target, k, p.failed, p.entries, round), p.failed + Silent(net, round.Keys), p.asked + round.Keys)
  }

  ghost function After(net: Network, target: Id, k: nat, start: set<Id>, rounds: seq<Round>): (p: Progress)
  {
    if rounds == [] then Progress(Elems(Nearest(target, k, start)), {}, {})
    else
      NextProgress(net, target, k, After(net, target, k, start, rounds[..|rounds| - 1]), rounds[|rounds| - 1])
  }

  /** Every round asks somebody on the shortlist, and nobody a second time. */
  ghost predicate Scheduled(net: Network, target: Id, k: nat, start: set<Id>, rounds: seq<Round>)
  {
    rounds == [] ||
    (var front, peers := rounds[..|rounds| - 1], rounds[|rounds| - 1].Keys;
     var p := After(net, target, k, start, front);
     Scheduled(net, target, k, start, front) && peers != {} && peers <= p.entries - p.asked)
  }

  /** The rounds of a whole lookup: in the end everybody on the shortlist has been
      asked. */
  ghost predicate IsLookup(net: Network, target: Id, k: nat, start: set<Id>, rounds: seq<Round>)
  {
    var p := After(net, target, k, start, rounds);
    Scheduled(net, target, k, start, rounds) && p.entries <= p.asked
  }

  /** All ids the lookup started with or heard of from `peers`. */
  ghost function HeardBy(net: Network, start: set<Id>, peers: set<Id>): (ids: set<Id>)
  {
    start + set peer, x | peer in peers && x in IdSet(NodeList(net.answer(peer))) :: x
  }

  lemma HeardBySame(net: Network, start: set<Id>, asked: seq<Id>)
    ensures HeardBy(net, start, Elems(asked)) == Heard(net, start, asked)
  {
    forall x: Id
      ensures x in HeardBy(net, start, Elems(asked)) <==> x in Heard(net, start, asked)
    {
      HeardMember(net, start, asked, x);
      if i :| 0 <= i < |asked| && x in IdSet(NodeList(net.answer(asked[i]))) {
        assert asked[i] in Elems(asked);
      }
      if peer :| peer in Elems(asked) && x in IdSet(NodeList(net.answer(peer))) {
        var i :| 0 <= i < |asked| && asked[i] == peer;
      }
    }
  }

  /** The ids heard of that did not fail. */
  ghost function Live(net: Network, start: set<Id>, p: Progress): (ids: set<Id>)
  {
    HeardBy(net, start, p.asked) - p.failed
  }

  /** What the shortlist was last selected from: itself and the reports of the last
      round, or what the lookup started with. */
  ghost function LastPool(net: Network, target: Id, k: nat, start: set<Id>, rounds: seq<Round>): (ids: set<Id>)
  {
    if rounds == [] then start
    else
      var p := After(net, target, k, start, rounds[..|rounds| - 1]);
      p.entries + Reported(net, p.failed, rounds[|rounds| - 1])
  }

  lemma {:induction false} ShortlistIsLive(net: Network, target: Id, k: nat, start: set<Id>, rounds: seq<Round>)
    ensures var p := After(net, target, k, start, rounds);
            p.entries <= HeardBy(net, start, p.asked) && p.entries !! p.failed
  {
    if rounds == [] {
      NearestWithin(target, k, start);
    } else {
      var p, round := After(net, target, k, start, rounds[..|rounds| - 1]), rounds[|rounds| - 1];
      ShortlistIsLive(net, target, k, start, rounds[..|rounds| - 1]);
      NearestWithin(target, k, p.entries + Reported(net, p.failed, round));
      HeardMore(net, start, p.failed, p.asked, round);
    }
  }

  lemma HeardMore(net: Network, start: set<Id>, failed: set<Id>, asked: set<Id>, round: Round)
    ensures HeardBy(net, start, asked) + Reported(net, failed, round) <= HeardBy(net, start, asked + round.Keys)
    ensures Reported(net, failed, round) !! failed
  {
  }

  lemma PoolIsHeard(net: Network, target: Id, k: nat, start: set<Id>, rounds: seq<Round>)
    ensures LastPool(net, target, k, start, rounds) <= HeardBy(net, start, After(net, target, k, start, rounds).asked)
    ensures rounds != [] ==>
              LastPool(net, target, k, start, rounds) !! After(net, target, k, start, rounds[..|rounds| - 1]).failed
  {
    if rounds != [] {
      var p := After(net, target, k, start, rounds[..|rounds| - 1]);
      ShortlistIsLive(net, target, k, start, rounds[..|rounds| - 1]);
      HeardMore(net, start, p.failed, p.asked, rounds[|rounds| - 1]);
    }
  }

  /** The shortlist is what the failures leave of the last selection. */
  lemma SelectedFromPool(net: Network, target: Id, k: nat, start: set<Id>, rounds: seq<Round>)
    ensures var p := After(net, target, k, start, rounds);
            p.entries == Elems(Nearest(target, k, LastPool(net, target, k, start, rounds))) - p.failed
  {
    PoolIsHeard(net, target, k, start, rounds);
    NearestWithin(target, k, LastPool(net, target, k, start, rounds));
  }

  lemma {:induction false} ProgressGrows(net: Network, target: Id, k: nat, start: set<Id>, rounds: seq<Round>, i: nat)
    requires i <= |rounds|
    ensures var before, after := After(net, target, k, start, rounds[..i]), After(net, target, k, start, rounds);
            before.asked <= after.asked && before.failed <= after.failed
  {
    if i == |rounds| {
      assert rounds[..i] == rounds;
    } else {
      ProgressGrows(net, target, k, start, rounds[..|rounds| - 1], i);
      assert rounds[..|rounds| - 1][..i] == rounds[..i];
    }
  }

  // --- Which nodes are missing, and why ---

  /** `x` was last sighted in the selection after `i` rounds, and was cut there. */
  ghost predicate CutAt(net: Network, target: Id, k: nat, start: set<Id>, rounds: seq<Round>, x: Id, i: nat)
  {
    && i <= |rounds|
    && x in LastPool(net, target, k, start, rounds[..i])
    && x !in Nearest(target, k, LastPool(net, target, k, start, rounds[..i]))
    && forall j :: i < j <= |rounds| ==> x !in LastPool(net, target, k, start, rounds[..j])
  }

  /** `x` was never selected from: not at the start, and in no report that could be
      used. */
  ghost predicate Unseen(net: Network, target: Id, k: nat, start: set<Id>, rounds: seq<Round>, x: Id)
  {
    forall j :: 0 <= j <= |rounds| ==> x !in LastPool(net, target, k, start, rounds[..j])
  }

  /** After every run of rounds: an id that did not fail is missing exactly when it
      was never selected from, or was cut when it was last sighted. */
  lemma {:induction false} MissingIff(net: Network, target: Id, k: nat, start: set<Id>, rounds: seq<Round>, x: Id)
    requires x !in After(net, target, k, start, rounds).failed
    ensures x !in After(net, target, k, start, rounds).entries <==>
            || Unseen(net, target, k, start, rounds, x)
            || exists i: nat :: CutAt(net, target, k, start, rounds, x, i)
  {
    var n := |rounds|;
    assert rounds[..n] == rounds;
    SelectedFromPool(net, target, k, start, rounds);
    if x in LastPool(net, target, k, start, rounds) {
      if x !in After(net, target, k, start, rounds).entries {
        assert CutAt(net, target, k, start, rounds, x, n);
      } else {
        NotCut(net, target, k, start, rounds, x);
      }
    } else {
      NearestSpec(target, k, LastPool(net, target, k, start, rounds));
      if n != 0 {
        var front := rounds[..n - 1];
        MissingIff(net, target, k, start, front, x);
        if i: nat :| CutAt(net, target, k, start, front, x, i) {
          CutBefore(net, target, k, start, rounds, x, i);
        } else {
          UnseenBefore(net, target, k, start, rounds, x);
        }
      }
    }
  }

  lemma NotCut(net: Network, target: Id, k: nat, start: set<Id>, rounds: seq<Round>, x: Id)
    requires x in LastPool(net, target, k, start, rounds) && x in Nearest(target, k, LastPool(net, target, k, start, rounds))
    ensures !Unseen(net, target, k, start, rounds, x)
    ensures forall i: nat :: !CutAt(net, target, k, start, rounds, x, i)
  {
    assert rounds[..|rounds|] == rounds;
  }

  lemma CutBefore(net: Network, target: Id, k: nat, start: set<Id>, rounds: seq<Round>, x: Id, i: nat)
    requires rounds != [] && x !in LastPool(net, target, k, start, rounds)
    requires CutAt(net, target, k, start, rounds[..|rounds| - 1], x, i)
    ensures CutAt(net, target, k, start, rounds, x, i)
  {
    var front := rounds[..|rounds| - 1];
    assert rounds[..|rounds|] == rounds && front[..i] == rounds[..i];
    forall j | i < j <= |rounds|
      ensures x !in LastPool(net, target, k, start, rounds[..j])
    {
      if j < |rounds| {
        assert front[..j] == rounds[..j];
      }
    }
  }

  lemma UnseenBefore(net: Network, target: Id, k: nat, start: set<Id>, rounds: seq<Round>, x: Id)
    requires rounds != [] && x !in LastPool(net, target, k, start, rounds)
    requires Unseen(net, target, k, start, rounds[..|rounds| - 1], x)
    ensures Unseen(net, target, k, start, rounds, x)
  {
    var front := rounds[..|rounds| - 1];
    assert rounds[..|rounds|] == rounds;
    forall j | 0 <= j <= |rounds|
      ensures x !in LastPool(net, target, k, start, rounds[..j])
    {
      if j < |rounds| {
        assert front[..j] == rounds[..j];
      }
    }
  }

  /** If one of the k nearest ids that did not fail was cut, then by a closer one
      that failed: in that round or later. */
  lemma CutByFailed(net: Network, target: Id, k: nat, start: set<Id>, rounds: seq<Round>, x: Id, i: nat)
    requires CutAt(net, target, k, start, rounds, x, i)
    requires x in Nearest(target, k, Live(net, start, After(net, target, k, start, rounds)))
    ensures exists y :: y in Nearest(target, k, LastPool(net, target, k, start, rounds[..i]))
                     && Xor(y, target) < Xor(x, target) && y in After(net, target, k, start, rounds).failed
  {
    var p, pool := After(net, target, k, start, rounds), LastPool(net, target, k, start, rounds[..i]);
    var live := Live(net, start, p);
    PoolIsHeard(net, target, k, start, rounds[..i]);
    ProgressGrows(net, target, k, start, rounds, i);
    assert pool <= HeardBy(net, start, p.asked);
    NearestSpec(target, k, pool);
    assert Beyond(target, Nearest(target, k, pool), x);
    if Elems(Nearest(target, k, pool)) !! p.failed {
      NearestSpec(target, k, live);
      CrowdedOut(target, k, pool, live, x);
    } else {
      var y :| y in Elems(Nearest(target, k, pool)) && y in p.failed;
    }
  }

  lemma CrowdedOut(target: Id, k: nat, pool: set<Id>, live: set<Id>, x: Id)
    requires x in pool && x !in Nearest(target, k, pool) && Elems(Nearest(target, k, pool)) <= live && x in live
    ensures x !in Nearest(target, k, live)
  {
    var all := Nearest(target, k, pool);
    NearestSpec(target, k, pool);
    AscendingCount(target, all);
    SubsetSize(Elems(all) + {x}, pool);
    if x in Nearest(target, k, live) {
      SelectedFromPart(target, k, live, Elems(all) + {x}, x);
      var r := Nearest(target, k, Elems(all) + {x});
      NearestSpec(target, k, Elems(all) + {x});
      AscendingCount(target, r);
      assert Beyond(target, all, x);
      assert forall y :: y in all && y !in r ==> Beyond(target, r, y);
      assert Elems(all) + {x} <= Elems(r);
      SubsetSize(Elems(all) + {x}, Elems(r));
    }
  }

  /** If an id that did not fail was never selected from, it was reported only when
      this node knew it was not responding. */
  lemma UnseenWasLeftOut(net: Network, target: Id, k: nat, start: set<Id>, rounds: seq<Round>, x: Id)
    requires Unseen(net, target, k, start, rounds, x)
    requires x in Live(net, start, After(net, target, k, start, rounds))
    ensures exists i, peer :: 0 <= i < |rounds| && peer in rounds[i] && LeftOut(net, rounds[i], peer, x)
  {
    assert rounds[..0] == [];
    var peer :| peer in After(net, target, k, start, rounds).asked && x in IdSet(NodeList(net.answer(peer)));
    var i := AskedWhen(net, target, k, start, rounds, peer);
    var p := After(net, target, k, start, rounds[..i]);
    assert rounds[..i + 1][..i] == rounds[..i];
    ProgressGrows(net, target, k, start, rounds, i);
    assert x !in LastPool(net, target, k, start, rounds[..i + 1]);
    assert LeftOut(net, rounds[i], peer, x);
  }

  ghost predicate LeftOut(net: Network, round: Round, peer: Id, x: Id)
    requires peer in round
  {
    x in IdSet(NodeList(net.answer(peer))) && net.failing(round[peer], x)
  }

  lemma {:induction false} AskedWhen(net: Network, target: Id, k: nat, start: set<Id>, rounds: seq<Round>, peer: Id)
    returns (i: nat)
    requires peer in After(net, target, k, start, rounds).asked
    ensures i < |rounds| && peer in rounds[i]
  {
    if peer in rounds[|rounds| - 1] {
      i := |rounds| - 1;
    } else {
      i := AskedWhen(net, target, k, start, rounds[..|rounds| - 1], peer);
    }
  }

  /** After every run of rounds the shortlist is exactly the k nearest of the ids
      that did not fail if, and only if, each of those has been selected from and
      none was cut when it was last sighted. */
  lemma ExactIff(net: Network, target: Id, k: nat, start: set<Id>, rounds: seq<Round>)
    ensures var p := After(net, target, k, start, rounds);
            var best := Nearest(target, k, Live(net, start, p));
            p.entries == Elems(best) <==>
            forall x :: x in best ==>
              && !Unseen(net, target, k, start, rounds, x)
              && forall i: nat :: !CutAt(net, target, k, start, rounds, x, i)
  {
    var p := After(net, target, k, start, rounds);
    var best := Nearest(target, k, Live(net, start, p));
    NearestSpec(target, k, Live(net, start, p));
    forall x | x in best
      ensures x in p.entries <==>
              && !Unseen(net, target, k, start, rounds, x)
              && forall i: nat :: !CutAt(net, target, k, start, rounds, x, i)
    {
      assert x in Elems(best);
      MissingIff(net, target, k, start, rounds, x);
    }
    ShortlistIsLive(net, target, k, start, rounds);
    SelectedFromPool(net, target, k, start, rounds);
    PartIsSmall(target, k, LastPool(net, target, k, start, rounds), p.entries);
    ContainsAll(target, k, Live(net, start, p), p.entries);
  }

  lemma ContainsAll(target: Id, k: nat, live: set<Id>, ids: set<Id>)
    requires ids <= live && |ids| <= k
    ensures ids == Elems(Nearest(target, k, live)) <==> forall x :: x in Nearest(target, k, live) ==> x in ids
  {
    if forall x :: x in Nearest(target, k, live) ==> x in ids {
      NearestSize(target, k, live);
      SubsetSize(Elems(Nearest(target, k, live)), ids);
      SubsetSize(ids, live);
    }
  }

  // --- In terms of what was heard and who failed ---

  /** No id of the k nearest failed, or nobody else is left. */
  ghost predicate NothingLost(target: Id, k: nat, heard: set<Id>, failed: set<Id>)
  {
    Elems(Nearest(target, k, heard)) !! failed || heard - failed <= Elems(Nearest(target, k, heard))
  }

  lemma DropFromNearest(target: Id, k: nat, pool: set<Id>, failed: set<Id>)
    ensures Elems(Nearest(target, k, pool)) - failed == Elems(Nearest(target, k, pool - failed)) <==>
            NothingLost(target, k, pool, failed)
  {
    var all, left := Nearest(target, k, pool), Nearest(target, k, pool - failed);
    NearestSpec(target, k, pool);
    NearestSpec(target, k, pool - failed);
    AscendingCount(target, all);
    AscendingCount(target, left);
    SubsetSize(Elems(all), pool);
    if pool - failed <= Elems(all) {
      assert Elems(all) - failed == pool - failed;
      SubsetSize(pool - failed, Elems(all));
      NearestOfFew(target, k, pool - failed);
    } else if Elems(all) !! failed {
      SubsetSize(Elems(all), pool - failed);
      NearestIs(target, k, pool - failed, all);
      assert Elems(all) - failed == Elems(all);
    } else {
      FewerLeft(Elems(all), failed);
      SubsetSize(Elems(left), pool - failed);
    }
  }

  /** Whatever else a selection contains, it is exact when nothing is lost. */
  lemma ExactWhenNothingLost(target: Id, k: nat, heard: set<Id>, failed: set<Id>, skipped: set<Id>, ids: set<Id>)
    requires ids <= heard - failed && |ids| <= k && Elems(Nearest(target, k, heard)) - failed - skipped <= ids
    requires Elems(Nearest(target, k, heard)) !! failed + skipped
             || (skipped == {} && heard - failed <= Elems(Nearest(target, k, heard)))
    ensures ids == Elems(Nearest(target, k, heard - (failed + skipped)))
  {
    var all := Elems(Nearest(target, k, heard));
    NearestSize(target, k, heard);
    SubsetSize(ids, heard);
    if all !! failed + skipped {
      assert all <= ids;
      SubsetSize(all, ids);
    }
    assert ids == all - (failed + skipped);
    DropFromNearest(target, k, heard, failed + skipped);
  }

  lemma FewerLeft(all: set<Id>, failed: set<Id>)
    requires !(all !! failed)
    ensures |all - failed| < |all|
  {
    SubsetSize(all - failed, all);
  }

  /** `failed` are silent, and the others report nobody. */
  ghost predicate IsMute(net: Network, failed: set<Id>)
  {
    forall id: Id :: net.answer(id) == if id in failed then Silence else Closer([])
  }

  function Mute(failed: set<Id>): (net: Network)
    ensures IsMute(net, failed)
  {
    Network((id: Id) => if id in failed then Silence else Closer([]), (clock: nat, id: Id) => false)
  }

  lemma MuteSets(net: Network, failed: set<Id>, gone: set<Id>, round: Round)
    requires IsMute(net, failed)
    ensures Reported(net, gone, round) == {} && Silent(net, round.Keys) == failed * round.Keys
  {
    assert IdSet([]) == {};
  }

  lemma MuteRound(net: Network, target: Id, k: nat, failed: set<Id>, p: Progress, round: Round)
    requires IsMute(net, failed) && |p.entries| <= k
    ensures NextProgress(net, target, k, p, round)
         == Progress(p.entries - failed * round.Keys, p.failed + failed * round.Keys, p.asked + round.Keys)
  {
    MuteSets(net, failed, p.failed, round);
    assert p.entries + {} == p.entries;
    NearestOfFew(target, k, p.entries);
  }

  lemma {:induction false} MuteRounds(net: Network, target: Id, k: nat, pool: set<Id>, failed: set<Id>, rounds: seq<Round>)
    requires IsMute(net, failed) && Scheduled(net, target, k, pool, rounds)
    ensures var p, all := After(net, target, k, pool, rounds), Elems(Nearest(target, k, pool));
            p.asked <= all && p.entries == all - failed * p.asked && p.failed == failed * p.asked
  {
    var all := Elems(Nearest(target, k, pool));
    if rounds != [] {
      var front, round := rounds[..|rounds| - 1], rounds[|rounds| - 1];
      var p := After(net, target, k, pool, front);
      MuteRounds(net, target, k, pool, failed, front);
      PartIsSmall(target, k, pool, p.entries);
      MuteRound(net, target, k, failed, p, round);
      MuteStep(all, failed, p.asked, p.entries, round.Keys);
    }
  }

  lemma MuteStep(all: set<Id>, failed: set<Id>, asked: set<Id>, entries: set<Id>, peers: set<Id>)
    requires asked <= all && entries == all - failed * asked && peers <= entries - asked
    ensures asked + peers <= all
    ensures entries - failed * peers == all - failed * (asked + peers)
    ensures failed * asked + failed * peers == failed * (asked + peers)
  {
  }

  lemma PartIsSmall(target: Id, k: nat, pool: set<Id>, part: set<Id>)
    requires part <= Elems(Nearest(target, k, pool))
    ensures |part| <= k
  {
    NearestSize(target, k, pool);
    SubsetSize(part, Elems(Nearest(target, k, pool)));
  }

  lemma NearestSize(target: Id, k: nat, pool: set<Id>)
    ensures |Elems(Nearest(target, k, pool))| == Min(k, |pool|)
  {
    NearestSpec(target, k, pool);
    AscendingCount(target, Nearest(target, k, pool));
  }

  /** For every set of ids heard of and every set of failures among the k nearest
      there is a network in which every lookup, however it is scheduled, is exact
      only if nothing is lost: for such failures no weaker condition on these sets
      guarantees it. */
  lemma LostInMute(net: Network, target: Id, k: nat, pool: set<Id>, failed: set<Id>, rounds: seq<Round>)
    requires IsMute(net, failed) && failed <= Elems(Nearest(target, k, pool))
    requires IsLookup(net, target, k, pool, rounds)
    ensures var p := After(net, target, k, pool, rounds);
            && p.failed == failed && HeardBy(net, pool, p.asked) == pool
            && p.entries == Elems(Nearest(target, k, pool)) - failed
            && (p.entries == Elems(Nearest(target, k, pool - failed)) <==> NothingLost(target, k, pool, failed))
  {
    MuteRounds(net, target, k, pool, failed, rounds);
    DropFromNearest(target, k, pool, failed);
    assert IdSet([]) == {};
    assert After(net, target, k, pool, rounds).asked == Elems(Nearest(target, k, pool));
  }

  /** One place, two peers, and the closer one is silent: every lookup returns
      nobody, although node 2 did not fail. */
  lemma CutNodeIsLost(net: Network, rounds: seq<Round>)
    requires IsMute(net, {1}) && IsLookup(net, 0, 1, {1, 2}, rounds)
    ensures var p := After(net, 0, 1, {1, 2}, rounds);
            p.entries == {} && Live(net, {1, 2}, p) == {2}
  {
    OneIsNearest();
    LostInMute(net, 0, 1, {1, 2}, {1}, rounds);
    assert {1, 2} - {1} == {2};
  }

  lemma OneIsNearest()
    ensures Elems(Nearest(0, 1, {1, 2})) == {1}
  {
    var all := Nearest(0, 1, {1, 2});
    NearestSpec(0, 1, {1, 2});
    assert Xor(1, 0) == 1 && Xor(2, 0) == 2;
    assert |all| == 1 && all[0] in Elems(all);
    assert all == [1];
  }
}
