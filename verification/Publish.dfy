/** SET: publishing a record on the nodes responsible for its key. */
module Publications {
  import opened XorMetric
  import opened Nodes
  import opened Selection
  import opened NodeHeaps
  import opened Crawls
  import opened Wire
  import opened Messages
  import opened Replicas
  import opened NodeLookups

  // --- The responsible nodes ---

  /** Drop every node with the id of the node before it. */
  function DedupById(s: seq<Node>): (r: seq<Node>)
    ensures |r| <= |s|
  {
    if |s| <= 1 then s
    else if Last(s).id == Last(Front(s)).id then DedupById(Front(s))
    else DedupById(Front(s)) + [Last(s)]
  }

  /** Sorted by distance, equal ids stand together, so looking at neighbours is
      enough to drop every duplicate. */
  lemma {:induction false} DedupIds(target: Id, s: seq<Node>)
    requires SortedByDistance(target, s)
    ensures Distinct(DedupById(s)) && IdSet(DedupById(s)) == IdSet(s)
  {
    if |s| == 1 {
      DistinctMeaning(s);
    } else if |s| > 1 {
      var front, last := Front(s), Last(s);
      DedupIds(target, front);
      assert s == front + [last];
      if last.id == Last(front).id {
        assert last.id in IdSet(front);
      } else {
        EqualIdsAdjacent(target, front, last);
        AppendIds(DedupById(front), last);
      }
    }
  }

  lemma {:induction false} DedupSorted(target: Id, s: seq<Node>)
    requires SortedByDistance(target, s)
    ensures forall n :: n in DedupById(s) ==> n in s
    ensures SortedByDistance(target, DedupById(s))
  {
    if |s| > 1 {
      DedupSorted(target, Front(s));
      if Last(s).id != Last(Front(s)).id {
        assert forall n :: n in Front(s) ==> Xor(n.id, target) <= Xor(Last(s).id, target);
        SnocSorted(target, DedupById(Front(s)), Last(s));
      }
    }
  }

  lemma EqualIdsAdjacent(target: Id, front: seq<Node>, last: Node)
    requires front != [] && SortedByDistance(target, front + [last]) && last.id != Last(front).id
    ensures last.id !in IdSet(front)
  {
    var s := front + [last];
    if last.id in IdSet(front) {
      IdSetMember(front, last.id);
      var i :| 0 <= i < |front| && front[i].id == last.id;
      assert s[i] == front[i] && s[|front| - 1] == Last(front) && s[|front|] == last;
      assert Xor(last.id, target) == Xor(Last(front).id, target);
      XorInjective(last.id, Last(front).id, target);
    }
  }

  /** The k closest of the nodes found and the local node: exactly the nearest,
      with the local node reported apart. */
  method SelectResponsibleNodes(local: Node, target: Id, remote: seq<Node>, k: nat)
    returns (storeLocal: bool, nodes: seq<Node>)
    ensures storeLocal <==> local.id in Nearest(target, k, IdSet(remote) + {local.id})
    ensures IdSet(nodes) == Elems(Nearest(target, k, IdSet(remote) + {local.id})) - {local.id}
    ensures Ordered(target, nodes)
    ensures forall n :: n in nodes ==> n in remote
  {
    var all := remote + [local];
    AppendIds(remote, local);
    all := SortByDistance(target, all);
    SortedRemotes(target, remote, local);
    all := DedupById(all);
    DedupSorted(target, SortByDistance(target, remote + [local]));
    DedupIds(target, SortByDistance(target, remote + [local]));
    PrefixIsNearest(target, k, all);
    TakeOrdered(target, k, all);
    all := Take(all, k);
    NearestIs(target, k, IdSet(remote) + {local.id}, IdSeq(all));
    IdSetIsElems(all);
    PositionFinds(all, local.id);
    storeLocal := Position(all, local.id).Some?;
    OutsideIds(all, {local.id});
    OutsideOrdered(target, all, {local.id});
    nodes := Outside(all, {local.id});
    OutsideAreRemote(all, remote, local);
  }

  lemma SortedRemotes(target: Id, remote: seq<Node>, local: Node)
    ensures var s := SortByDistance(target, remote + [local]);
            && SortedByDistance(target, s)
            && IdSet(s) == IdSet(remote + [local])
            && forall n :: n in s ==> n in remote || n == local
  {
    var s := SortByDistance(target, remote + [local]);
    SortSorts(target, remote + [local]);
    MultisetKeepsIds(remote + [local], s);
    MultisetMembers(s, remote + [local]);
  }

  lemma {:induction false} OutsideAreRemote(all: seq<Node>, remote: seq<Node>, local: Node)
    requires forall n :: n in all ==> n in remote || n == local
    ensures forall n :: n in Outside(all, {local.id}) ==> n in remote
  {
    OutsideIds(all, {local.id});
    OutsideNodes(all, {local.id});
    forall n | n in Outside(all, {local.id})
      ensures n in remote
    {
      IdSetHas(Outside(all, {local.id}), n);
    }
  }

  // --- The report of a publication ---

  datatype SetReport = SetReport(
    expected: nat,
    stored: nat,
    already: nat,
    capacity: nat,
    unavailable: nat,
    conflict: nat,
    invalid: nat)

  datatype SetRejection = ReplicaConflict | InvalidValue | NoCapacity | Unavailable | NoResponsibleNodes

  datatype SetOutcome =
    | Complete(report: SetReport)
    | Degraded(report: SetReport)
    | Rejected(reason: SetRejection, report: SetReport)

  function RecordStatus(r: SetReport, status: Option<StoreStatus>): (after: SetReport)
  {
    match status
    case Some(Stored) => r.(stored := r.stored + 1)
    case Some(AlreadyStored) => r.(already := r.already + 1)
    case Some(CapacityExceeded) => r.(capacity := r.capacity + 1)
    case Some(Conflict) => r.(conflict := r.conflict + 1)
    case Some(InvalidRecord) => r.(invalid := r.invalid + 1)
    case None => r.(unavailable := r.unavailable + 1)
  }

  function ClassifySetReport(r: SetReport): (outcome: SetOutcome)
  {
    if r.conflict > 0 then Rejected(ReplicaConflict, r)
    else if r.invalid > 0 then Rejected(InvalidValue, r)
    else if r.expected == 0 then Rejected(NoResponsibleNodes, r)
    else if r.stored + r.already == r.expected then Complete(r)
    else if r.stored + r.already > 0 then Degraded(r)
    else if r.capacity > 0 then Rejected(NoCapacity, r)
    else Rejected(Unavailable, r)
  }

  predicate Acknowledged(status: Option<StoreStatus>)
  {
    status == Some(Stored) || status == Some(AlreadyStored)
  }

  /** The report after recording the statuses in turn. */
  function RecordAll(r: SetReport, statuses: seq<Option<StoreStatus>>): (after: SetReport)
  {
    if statuses == [] then r
    else RecordStatus(RecordAll(r, statuses[..|statuses| - 1]), statuses[|statuses| - 1])
  }

  ghost function Count(statuses: seq<Option<StoreStatus>>, status: Option<StoreStatus>): (n: nat)
  {
    multiset(statuses)[status]
  }

  /** Every status is counted once, in its own column. */
  lemma {:induction false} RecordAllCounts(r: SetReport, statuses: seq<Option<StoreStatus>>)
    ensures RecordAll(r, statuses) == SetReport(
              r.expected,
              r.stored + Count(statuses, Some(Stored)),
              r.already + Count(statuses, Some(AlreadyStored)),
              r.capacity + Count(statuses, Some(CapacityExceeded)),
              r.unavailable + Count(statuses, None),
              r.conflict + Count(statuses, Some(Conflict)),
              r.invalid + Count(statuses, Some(InvalidRecord)))
  {
    if statuses != [] {
      var front, last := statuses[..|statuses| - 1], statuses[|statuses| - 1];
      RecordAllCounts(r, front);
      assert statuses == front + [last];
    }
  }

  lemma {:induction false} AllAcknowledged(statuses: seq<Option<StoreStatus>>)
    ensures Count(statuses, Some(Stored)) + Count(statuses, Some(AlreadyStored)) <= |statuses|
    ensures Count(statuses, Some(Stored)) + Count(statuses, Some(AlreadyStored)) == |statuses| <==>
            forall s :: s in statuses ==> Acknowledged(s)
  {
    if statuses != [] {
      var front, last := statuses[..|statuses| - 1], statuses[|statuses| - 1];
      AllAcknowledged(front);
      assert statuses == front + [last];
      assert multiset(statuses) == multiset(front) + multiset{last};
      assert last in statuses && forall s :: s in front ==> s in statuses;
      if forall s :: s in front ==> Acknowledged(s) {
        assert forall s :: s in statuses ==> s in front || s == last;
      }
    }
  }

  /** The report a publication starts from. */
  function InitialReport(replicas: nat, cutOff: bool, unresponsive: nat): (r: SetReport)
  {
    var extra := if cutOff then 1 else 0;
    SetReport(replicas + extra, 0, 0, 0, if unresponsive < extra then extra else unresponsive, 0, 0)
  }

  /** A publication is complete exactly when there is a responsible node, every
      one of them acknowledged the record, and the node is not cut off from
      replicas it does not know. */
  lemma CompleteMeansAll(statuses: seq<Option<StoreStatus>>, cutOff: bool, unresponsive: nat)
    ensures ClassifySetReport(RecordAll(InitialReport(|statuses|, cutOff, unresponsive), statuses)).Complete? <==>
            statuses != [] && !cutOff && forall s :: s in statuses ==> Acknowledged(s)
  {
    RecordAllCounts(InitialReport(|statuses|, cutOff, unresponsive), statuses);
    AllAcknowledged(statuses);
    if forall s :: s in statuses ==> Acknowledged(s) {
      assert Some(Conflict) !in statuses && Some(InvalidRecord) !in statuses;
    }
  }

  /** It is degraded exactly when somebody acknowledged it, nobody found fault
      with it, and it is not complete. */
  lemma DegradedMeansSome(statuses: seq<Option<StoreStatus>>, cutOff: bool, unresponsive: nat)
    ensures ClassifySetReport(RecordAll(InitialReport(|statuses|, cutOff, unresponsive), statuses)).Degraded? <==>
            && (exists s :: s in statuses && Acknowledged(s))
            && Some(Conflict) !in statuses && Some(InvalidRecord) !in statuses
            && (cutOff || exists s :: s in statuses && !Acknowledged(s))
  {
    RecordAllCounts(InitialReport(|statuses|, cutOff, unresponsive), statuses);
    AllAcknowledged(statuses);
    assert (exists s :: s in statuses && Acknowledged(s)) <==>
           Some(Stored) in statuses || Some(AlreadyStored) in statuses;
  }

  /** One conflicting or invalid answer rejects the publication, whatever the
      others said. */
  lemma ConflictRejects(statuses: seq<Option<StoreStatus>>, cutOff: bool, unresponsive: nat)
    requires Some(Conflict) in statuses || Some(InvalidRecord) in statuses
    ensures ClassifySetReport(RecordAll(InitialReport(|statuses|, cutOff, unresponsive), statuses)).Rejected?
  {
    RecordAllCounts(InitialReport(|statuses|, cutOff, unresponsive), statuses);
  }

  /** The statuses collected are those of the responsible nodes. */
  lemma StatusesCoverAll(statuses: seq<Option<StoreStatus>>, own: seq<Option<StoreStatus>>,
                         remote: seq<Node>, replies: Id -> Option<StoreStatus>)
    requires |own| <= 1 && |statuses| == |own| + |remote| && statuses[..|own|] == own
    requires forall j :: 0 <= j < |remote| ==> statuses[|own| + j] == replies(remote[j].id)
    ensures (forall s :: s in statuses ==> Acknowledged(s)) <==>
            && (own != [] ==> Acknowledged(own[0]))
            && (forall id :: id in IdSet(remote) ==> Acknowledged(replies(id)))
  {
    if forall s :: s in statuses ==> Acknowledged(s) {
      forall id | id in IdSet(remote)
        ensures Acknowledged(replies(id))
      {
        IdSetMember(remote, id);
        var j :| 0 <= j < |remote| && remote[j].id == id;
        assert statuses[|own| + j] in statuses;
      }
      if own != [] {
        assert statuses[0] == own[0];
      }
    }
    if (own != [] ==> Acknowledged(own[0])) && forall id :: id in IdSet(remote) ==> Acknowledged(replies(id)) {
      forall s | s in statuses
        ensures Acknowledged(s)
      {
        var i :| 0 <= i < |statuses| && statuses[i] == s;
        if i < |own| {
          assert statuses[..|own|][i] == s;
        } else {
          IdSetHas(remote, remote[i - |own|]);
        }
      }
    }
  }

  /** Somebody is always responsible. */
  lemma SomebodyResponsible(key: Id, k: nat, found: set<Id>, local: Id)
    requires 1 <= k
    ensures Elems(Nearest(key, k, found + {local})) != {}
  {
    NearestSpec(key, k, found + {local});
    var r := Nearest(key, k, found + {local});
    assert |r| >= 1;
    assert r[0] in Elems(r);
  }

  /** Store the record on the responsible nodes and report. `replies` is what
      each remote node answers, `reachable` whether this node knows contacts or
      seeds at all. */
  method SetDigestDetailed(self: Replica, local: Node, key: Id, value: Bytes, lookup: LookupNodes, k: nat,
                           reachable: bool, fits: bool, replies: Id -> Option<StoreStatus>)
    returns (outcome: SetOutcome, ghost responsible: set<Id>)
    requires 1 <= k && self.Valid()
    modifies self
    ensures self.Valid()
    ensures responsible == Elems(Nearest(key, k, IdSet(lookup.nodes) + {local.id}))
    ensures outcome.Complete? <==>
              && (local.id in responsible ==> self.Holding(key, value))
              && (forall id :: id in responsible && id != local.id ==> Acknowledged(replies(id)))
              && (responsible == {local.id} ==> !reachable)
    ensures self.records == old(self.records) || self.records == old(self.records)[key := value]
  {
    var storeLocal, remote := SelectResponsibleNodes(local, key, lookup.nodes, k);
    responsible := Elems(Nearest(key, k, IdSet(lookup.nodes) + {local.id}));
    var cutOff := remote == [] && reachable;
    var statuses := [];
    if storeLocal {
      var status := self.InsertIfAbsent(key, value, fits);
      statuses := [Some(status)];
    }
    ghost var own := statuses;
    var i := 0;
    while i < |remote|
      invariant 0 <= i <= |remote|
      invariant |statuses| == |own| + i && statuses[..|own|] == own
      invariant forall j :: 0 <= j < i ==> statuses[|own| + j] == replies(remote[j].id)
    {
      statuses := statuses + [replies(remote[i].id)];
      i := i + 1;
    }
    outcome := ClassifySetReport(RecordAll(InitialReport(|statuses|, cutOff, lookup.unresponsive), statuses));
    CompleteMeansAll(statuses, cutOff, lookup.unresponsive);
    StatusesCoverAll(statuses, own, remote, replies);
    SomebodyResponsible(key, k, IdSet(lookup.nodes), local.id);
    assert IdSet(remote) == responsible - {local.id};
    assert remote != [] ==> Last(remote).id in IdSet(remote);
  }
}
