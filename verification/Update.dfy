/** UPDATE: replacing a record on its replicas under a quorum of the closest. */
module Updates {
  import opened XorMetric
  import opened Nodes
  import opened Selection
  import opened Crawls
  import opened Wire
  import opened Messages
  import opened Tables
  import opened StoreChecks
  import opened Replicas
  import opened NodeHeaps
  import Publications

  /** What a remote replica meets during one update: what other tasks make of its
      records before the request arrives, while it is handled and after it has
      been answered, whether each message and its answer get through, whether the
      bytes fit, and its own view of the network. */
  datatype Site = Site(
    before: map<Id, Bytes>,
    updateArrives: bool, updateAnswered: bool, duringUpdate: map<Id, Bytes>, updateFits: bool,
    storeArrives: bool, storeAnswered: bool, duringStore: map<Id, Bytes>, storeFits: bool,
    afterwards: map<Id, Bytes>,
    table: Table, net: Network, alpha: nat, late: nat -> bool)

  ghost predicate SiteOk(site: Site)
  {
    TableOk(site.table) && 1 <= site.alpha
  }

  /** The replica accepts the update and its answer gets through. */
  ghost predicate Answers(statusList: Id, site: Site, isStatusList: bool, key: Id, value: Bytes,
                          signature: Bytes, crypto: Crypto)
  {
    && site.updateArrives && site.updateAnswered
    && if isStatusList
       then StatusListAccepted(statusList, site.before, key, value, crypto, site.duringUpdate, site.updateFits)
       else UpdateAccepted(statusList, site.before, key, value, signature, crypto, site.duringUpdate, site.updateFits)
  }

  /** Update one replica: an UPDATE, then a STORE if it refused. */
  method UpdateReplica(peer: Replica, site: Site, key: Id, value: Bytes, signature: Bytes, crypto: Crypto)
    returns (ok: bool)
    requires peer.Valid() && SiteOk(site) && peer.records == site.before
    modifies peer
    ensures peer.Valid() && old(peer.past) <= peer.past
    ensures ok ==> peer.Holding(key, value)
    ensures Answers(peer.statusList, site, false, key, value, signature, crypto) ==> ok
    ensures !site.updateArrives || !site.updateAnswered ==> !ok
  {
    var accepted := false;
    if site.updateArrives {
      accepted := peer.RpcUpdate(key, value, signature, crypto, site.duringUpdate, site.updateFits);
    }
    if !site.updateArrives || !site.updateAnswered {
      return false;
    }
    if accepted {
      return true;
    }
    var reply: Option<StoreStatus> := None;
    if site.storeArrives {
      ghost var asked, skipped;
      reply, asked, skipped := peer.RpcStore(site.table, site.net, key, value, site.alpha, crypto, site.late,
                                             site.duringStore, site.storeFits);
    }
    return site.storeArrives && site.storeAnswered && (reply == Some(Stored) || reply == Some(AlreadyStored));
  }

  method UpdateStatusReplica(peer: Replica, site: Site, key: Id, value: Bytes, crypto: Crypto) returns (ok: bool)
    requires peer.Valid() && peer.records == site.before
    modifies peer
    ensures peer.Valid() && old(peer.past) <= peer.past
    ensures ok ==> peer.Holding(key, value)
    ensures ok <==> Answers(peer.statusList, site, true, key, value, [], crypto)
  {
    var accepted := false;
    if site.updateArrives {
      accepted := peer.RpcUpdateStatusList(key, value, crypto, site.duringUpdate, site.updateFits);
    }
    return site.updateArrives && site.updateAnswered && accepted;
  }

  /** The part one replica has in an update. When it acknowledges it holds exactly
      the new bytes; afterwards other tasks may change them again. */
  method VisitReplica(peer: Replica, site: Site, isStatusList: bool, key: Id, value: Bytes,
                      signature: Bytes, crypto: Crypto)
    returns (ok: bool)
    requires peer.Valid() && SiteOk(site)
    modifies peer
    ensures peer.Valid() && old(peer.past) <= peer.past && peer.records == site.afterwards
    ensures ok ==> peer.HeldBeforeLast(old(|peer.past|), key, value)
    ensures Answers(peer.statusList, site, isStatusList, key, value, signature, crypto) ==> ok
  {
    peer.Become(site.before);
    if isStatusList {
      ok := UpdateStatusReplica(peer, site, key, value, crypto);
    } else {
      ok := UpdateReplica(peer, site, key, value, signature, crypto);
    }
    ghost var moment := |peer.past| - 1;
    ghost var content := peer.past[moment];
    peer.Become(site.afterwards);
    assert peer.past[moment] == content;
  }

  ghost predicate Different(peers: seq<Replica>)
  {
    forall i, j :: 0 <= i < j < |peers| ==> peers[i] != peers[j]
  }

  ghost predicate AllValid(peers: seq<Replica>)
    reads peers
  {
    forall i :: 0 <= i < |peers| ==> peers[i].Valid()
  }

  ghost predicate SitesOk(sites: seq<Site>)
  {
    forall i :: 0 <= i < |sites| ==> SiteOk(sites[i])
  }

  /** How many contents each replica has had. */
  ghost function Moments(peers: seq<Replica>): (n: seq<nat>)
    reads peers
    ensures |n| == |peers| && forall i :: 0 <= i < |peers| ==> n[i] == |peers[i].past|
  {
    seq(|peers|, i requires 0 <= i < |peers| reads peers => |peers[i].past|)
  }

  /** Each replica whose result is true held the record when it acknowledged, just
      before other tasks made of its records what they are at the end. */
  ghost predicate HeldByAckers(peers: seq<Replica>, from: seq<nat>, results: seq<bool>, key: Id, value: Bytes)
    requires |from| == |peers| && |results| <= |peers|
    reads peers
  {
    forall i :: 0 <= i < |results| && results[i] ==> peers[i].HeldBeforeLast(from[i], key, value)
  }

  /** The result of every replica that accepts and is heard is true. */
  ghost predicate AcceptorsCounted(peers: seq<Replica>, sites: seq<Site>, results: seq<bool>, isStatusList: bool,
                                   key: Id, value: Bytes, signature: Bytes, crypto: Crypto)
    requires |sites| == |peers| && |results| <= |peers|
  {
    forall i :: 0 <= i < |results| ==>
      Answers(peers[i].statusList, sites[i], isStatusList, key, value, signature, crypto) ==> results[i]
  }

  /** Update every remote replica. */
  method UpdateAll(peers: seq<Replica>, sites: seq<Site>, isStatusList: bool, key: Id, value: Bytes,
                   signature: Bytes, crypto: Crypto)
    returns (results: seq<bool>)
    requires Different(peers) && |sites| == |peers| && SitesOk(sites) && AllValid(peers)
    modifies peers
    ensures |results| == |peers| && AllValid(peers)
    ensures HeldByAckers(peers, old(Moments(peers)), results, key, value)
    ensures AcceptorsCounted(peers, sites, results, isStatusList, key, value, signature, crypto)
  {
    ghost var from := Moments(peers);
    results := [];
    var i := 0;
    while i < |peers|
      invariant 0 <= i <= |peers| && |results| == i && AllValid(peers)
      invariant forall j :: i <= j < |peers| ==> |peers[j].past| == from[j]
      invariant HeldByAckers(peers, from, results, key, value)
      invariant AcceptorsCounted(peers, sites, results, isStatusList, key, value, signature, crypto)
    {
      var ok := VisitReplica(peers[i], sites[i], isStatusList, key, value, signature, crypto);
      assert forall j :: 0 <= j < |peers| && j != i ==> peers[j] != peers[i];
      results := results + [ok];
      i := i + 1;
    }
  }

  /** The replicas whose answers decide: the local one, if responsible, and the
      closest remote ones, `alpha` in all. */
  function PrimaryCount(alpha: nat, storeLocal: bool, remotes: nat): (n: nat)
    ensures n <= remotes
  {
    var vote := if storeLocal then 1 else 0;
    Min(if alpha < vote then 0 else alpha - vote, remotes)
  }

  ghost function Members(s: seq<Replica>): (g: set<Replica>)
  {
    if s == [] then {} else Members(s[..|s| - 1]) + {s[|s| - 1]}
  }

  ghost function Group(self: Replica, storeLocal: bool, primary: seq<Replica>): (g: set<Replica>)
  {
    (if storeLocal then {self} else {}) + Members(primary)
  }

  /** Those of `s` that acknowledged. */
  ghost function Ackers(s: seq<Replica>, results: seq<bool>): (g: set<Replica>)
    requires |results| == |s|
  {
    if s == [] then {}
    else
      var last := |s| - 1;
      Ackers(s[..last], results[..last]) + if results[last] then {s[last]} else {}
  }

  function CountTrue(results: seq<bool>): (n: nat)
  {
    if results == [] then 0
    else CountTrue(results[..|results| - 1]) + if results[|results| - 1] then 1 else 0
  }

  lemma {:induction false} MembersAre(s: seq<Replica>, r: Replica)
    ensures r in Members(s) <==> r in s
  {
    if s != [] {
      MembersAre(s[..|s| - 1], r);
      assert s == s[..|s| - 1] + [s[|s| - 1]];
    }
  }

  /** One member and at most one acknowledgement per replica. */
  lemma {:induction false} AckersCount(s: seq<Replica>, results: seq<bool>)
    requires Different(s) && |results| == |s|
    ensures |Members(s)| == |s|
    ensures Ackers(s, results) <= Members(s) && |Ackers(s, results)| == CountTrue(results)
  {
    if s != [] {
      var last := |s| - 1;
      AckersCount(s[..last], results[..last]);
      MembersAre(s[..last], s[last]);
    }
  }

  lemma {:induction false} AckersAre(s: seq<Replica>, results: seq<bool>, i: nat)
    requires Different(s) && |results| == |s| && i < |s|
    ensures s[i] in Ackers(s, results) <==> results[i]
  {
    var last := |s| - 1;
    if i < last {
      AckersAre(s[..last], results[..last], i);
    } else {
      AckersCount(s[..last], results[..last]);
      MembersAre(s[..last], s[last]);
    }
  }

  /** Two strict majorities of one group share a member. */
  lemma MajoritiesMeet(group: set<Replica>, a: set<Replica>, b: set<Replica>)
    requires a <= group && b <= group && 2 * |a| > |group| && 2 * |b| > |group|
    ensures a * b != {}
  {
    assert group == (a + b) + (group - (a + b));
    assert |a + b| + |a * b| == |a| + |b|;
  }

  ghost function AllAckers(self: Replica, storeLocal: bool, primary: seq<Replica>, results: seq<bool>): (g: set<Replica>)
    requires |results| == |primary|
  {
    (if storeLocal then {self} else {}) + Ackers(primary, results)
  }

  lemma AllAckersCount(self: Replica, storeLocal: bool, primary: seq<Replica>, results: seq<bool>)
    requires Different(primary) && |results| == |primary| && self !in primary
    ensures var vote := if storeLocal then 1 else 0;
            && AllAckers(self, storeLocal, primary, results) <= Group(self, storeLocal, primary)
            && |Group(self, storeLocal, primary)| == vote + |primary|
            && |AllAckers(self, storeLocal, primary, results)| == vote + CountTrue(results)
  {
    AckersCount(primary, results);
    MembersAre(primary, self);
  }

  /** Whether the acknowledgements, the local vote included, are a strict
      majority of the group. */
  method Tally(self: Replica, storeLocal: bool, primary: seq<Replica>, results: seq<bool>) returns (quorum: bool)
    requires Different(primary) && |results| == |primary| && self !in primary
    ensures quorum <==>
              2 * |AllAckers(self, storeLocal, primary, results)| > |Group(self, storeLocal, primary)|
  {
    AllAckersCount(self, storeLocal, primary, results);
    var localVote := if storeLocal then 1 else 0;
    var groupSize := localVote + |primary|;
    if groupSize == 0 {
      return false;
    }
    var required := groupSize / 2 + 1;
    var acknowledgements := localVote + CountTrue(results);
    quorum := acknowledgements >= required;
  }

  /** Send the update to every responsible replica and count the answers of the
      closest, the local vote included. Every one that accepts is counted. */
  method CollectVotes(self: Replica, storeLocal: bool, remotes: seq<Replica>, sites: seq<Site>, count: nat,
                      isStatusList: bool, key: Id, value: Bytes, signature: Bytes, crypto: Crypto)
    returns (quorum: bool, ghost ackers: set<Replica>)
    requires Different(remotes) && self !in remotes && |sites| == |remotes| && count <= |remotes|
    requires SitesOk(sites) && AllValid(remotes)
    modifies remotes
    ensures AllValid(remotes) && ackers <= Group(self, storeLocal, remotes[..count])
    ensures quorum <==> 2 * |ackers| > |Group(self, storeLocal, remotes[..count])|
    ensures self in ackers <==> storeLocal
    ensures forall i :: 0 <= i < count && remotes[i] in ackers ==>
              remotes[i].HeldBeforeLast(old(|remotes[i].past|), key, value)
    ensures forall i :: 0 <= i < count ==>
              Answers(remotes[i].statusList, sites[i], isStatusList, key, value, signature, crypto) ==> remotes[i] in ackers
  {
    var results := UpdateAll(remotes, sites, isStatusList, key, value, signature, crypto);
    var primary, answers := remotes[..count], results[..count];
    ackers := AllAckers(self, storeLocal, primary, answers);
    quorum := Tally(self, storeLocal, primary, answers);
    AllAckersCount(self, storeLocal, primary, answers);
    AckersCount(primary, answers);
    MembersAre(primary, self);
    forall i | 0 <= i < count
      ensures remotes[i] in ackers <==> results[i]
    {
      AckersAre(primary, answers, i);
    }
  }

  /** Write locally if there is a quorum and this node is responsible. */
  method Commit(self: Replica, storeLocal: bool, quorum: bool, key: Id, value: Bytes, meanwhile: map<Id, Bytes>,
                fits: bool)
    returns (success: bool)
    requires self.Valid()
    modifies self
    ensures self.Valid()
    ensures success <==> quorum && (storeLocal ==> fits || Holds(meanwhile, key, value))
    ensures self.records == if success && storeLocal then meanwhile[key := value] else meanwhile
  {
    self.Become(meanwhile);
    if !quorum || !storeLocal {
      return quorum;
    }
    var status := self.Set(key, value, fits);
    success := status != CapacityExceeded;
  }

  /** Send the update to every responsible replica, `remotes` closest first, and
      commit locally only with a quorum. `meanwhile` is what other tasks make of
      the local records until then. On success a strict majority of the group has
      held exactly the new bytes when it acknowledged. Given a majority, only a
      local store without room makes the update fail. */
  method UpdateDigest(self: Replica, storeLocal: bool, remotes: seq<Replica>, sites: seq<Site>, alpha: nat,
                      isStatusList: bool, key: Id, value: Bytes, signature: Bytes, crypto: Crypto,
                      meanwhile: map<Id, Bytes>, fits: bool)
    returns (success: bool, ghost ackers: set<Replica>)
    requires Different(remotes) && self !in remotes && |sites| == |remotes|
    requires SitesOk(sites) && AllValid(remotes) && self.Valid()
    modifies self, remotes
    ensures AllValid(remotes) && self.Valid()
    ensures ackers <= Group(self, storeLocal, remotes[..PrimaryCount(alpha, storeLocal, |remotes|)])
    ensures success <==>
              && 2 * |ackers| > |Group(self, storeLocal, remotes[..PrimaryCount(alpha, storeLocal, |remotes|)])|
              && (storeLocal ==> fits || Holds(meanwhile, key, value))
    // An acknowledging replica held exactly the new bytes at that moment.
    ensures forall i :: 0 <= i < PrimaryCount(alpha, storeLocal, |remotes|) && remotes[i] in ackers ==>
              remotes[i].HeldBeforeLast(old(|remotes[i].past|), key, value)
    ensures self in ackers <==> storeLocal
    ensures success && storeLocal ==> self.Holding(key, value)
    // The update itself changes the local records only on success.
    ensures self.records == if success && storeLocal then meanwhile[key := value] else meanwhile
    // Every member of the group that accepts and is heard is counted.
    ensures forall i :: 0 <= i < PrimaryCount(alpha, storeLocal, |remotes|) ==>
              Answers(remotes[i].statusList, sites[i], isStatusList, key, value, signature, crypto) ==> remotes[i] in ackers
  {
    var primaryCount := PrimaryCount(alpha, storeLocal, |remotes|);
    var quorum;
    quorum, ackers := CollectVotes(self, storeLocal, remotes, sites, primaryCount,
                                   isStatusList, key, value, signature, crypto);
    success := Commit(self, storeLocal, quorum, key, value, meanwhile, fits);
  }

  // --- The whole update ---

  /** Members of the group acknowledged, and this node does if it is one. */
  ghost predicate Voted(self: Replica, storeLocal: bool, primary: seq<Replica>, ackers: set<Replica>)
  {
    ackers <= Group(self, storeLocal, primary) && (self in ackers <==> storeLocal)
  }

  /** What the map has for these ids, in this order. */
  function Behind<T>(all: map<Id, T>, ids: seq<Id>): (r: seq<T>)
    requires forall i :: 0 <= i < |ids| ==> ids[i] in all
    ensures |r| == |ids| && forall i :: 0 <= i < |ids| ==> r[i] == all[ids[i]]
  {
    seq(|ids|, i requires 0 <= i < |ids| => all[ids[i]])
  }

  /** Every node but this one has a replica of its own, and a site. */
  ghost predicate Peers(self: Replica, others: set<Id>, replicas: map<Id, Replica>, sites: map<Id, Site>)
  {
    && others <= replicas.Keys && others <= sites.Keys
    && (forall x, y :: x in replicas && y in replicas && x != y ==> replicas[x] != replicas[y])
    && (forall x :: x in replicas ==> replicas[x] != self)
    && (forall x :: x in sites ==> SiteOk(sites[x]))
  }

  /** The nodes whose answers decide: of the responsible other than this one, the
      closest to the key. */
  ghost function PrimaryIds(local: Id, found: set<Id>, key: Id, k: nat, alpha: nat): (ids: seq<Id>)
  {
    var responsible := Elems(Nearest(key, k, found + {local}));
    var vote := if local in responsible then 1 else 0;
    Nearest(key, if alpha < vote then 0 else alpha - vote, responsible - {local})
  }

  lemma PrimaryOf(local: Id, found: set<Id>, key: Id, k: nat, alpha: nat, storeLocal: bool, nodes: seq<Node>)
    requires storeLocal <==> local in Nearest(key, k, found + {local})
    requires IdSet(nodes) == Elems(Nearest(key, k, found + {local})) - {local} && Ordered(key, nodes)
    ensures IdSeq(nodes)[..PrimaryCount(alpha, storeLocal, |nodes|)] == PrimaryIds(local, found, key, k, alpha)
  {
    var vote := if storeLocal then 1 else 0;
    var n := if alpha < vote then 0 else alpha - vote;
    PrefixIsNearest(key, n, nodes);
    NearestIs(key, n, IdSet(nodes), IdSeq(Take(nodes, n)));
    TakeIds(nodes, n);
  }

  lemma ResponsibleAreFound(local: Id, found: set<Id>, key: Id, k: nat, nodes: seq<Node>)
    requires IdSet(nodes) == Elems(Nearest(key, k, found + {local})) - {local}
    ensures Elems(IdSeq(nodes)) <= found - {local}
  {
    NearestWithin(key, k, found + {local});
    IdSetIsElems(nodes);
  }

  predicate NoneTwice(ids: seq<Id>)
  {
    forall i, j :: 0 <= i < j < |ids| ==> ids[i] != ids[j]
  }

  lemma DistinctIds(nodes: seq<Node>)
    requires Distinct(nodes)
    ensures NoneTwice(IdSeq(nodes))
  {
    DistinctMeaning(nodes);
  }

  lemma PeersOf(self: Replica, ids: seq<Id>, replicas: map<Id, Replica>, sites: map<Id, Site>)
    requires Peers(self, Elems(ids), replicas, sites) && NoneTwice(ids)
    ensures forall i :: 0 <= i < |ids| ==> ids[i] in replicas && ids[i] in sites
    ensures Different(Behind(replicas, ids)) && self !in Behind(replicas, ids)
    ensures SitesOk(Behind(sites, ids))
    ensures forall r :: r in Behind(replicas, ids) ==> r in replicas.Values
  {
    assert forall i :: 0 <= i < |ids| ==> ids[i] in Elems(ids);
  }

  /** Update the replicas of these nodes, closest first. */
  method UpdateNodes(self: Replica, storeLocal: bool, nodes: seq<Node>, alpha: nat,
                     replicas: map<Id, Replica>, sites: map<Id, Site>, isStatusList: bool, key: Id, value: Bytes,
                     signature: Bytes, crypto: Crypto, meanwhile: map<Id, Bytes>, fits: bool, ghost primary: seq<Id>)
    returns (success: bool, ghost ackers: set<Replica>)
    requires Peers(self, Elems(IdSeq(nodes)), replicas, sites) && Distinct(nodes)
    requires primary == IdSeq(nodes)[..PrimaryCount(alpha, storeLocal, |nodes|)]
    requires self.Valid() && forall x :: x in replicas ==> replicas[x].Valid()
    modifies self, replicas.Values
    ensures forall id :: id in primary ==> id in replicas && id in sites
    ensures Voted(self, storeLocal, Behind(replicas, primary), ackers)
    ensures success <==>
              && 2 * |ackers| > |Group(self, storeLocal, Behind(replicas, primary))|
              && (storeLocal ==> fits || Holds(meanwhile, key, value))
    ensures forall id :: id in primary && replicas[id] in ackers ==>
              replicas[id].HeldBeforeLast(old(|replicas[id].past|), key, value)
    ensures forall id :: id in primary ==>
              Answers(replicas[id].statusList, sites[id], isStatusList, key, value, signature, crypto) ==>
              replicas[id] in ackers
    ensures self.records == if success && storeLocal then meanwhile[key := value] else meanwhile
  {
    DistinctIds(nodes);
    PeersOf(self, IdSeq(nodes), replicas, sites);
    var remotes, places := Behind(replicas, IdSeq(nodes)), Behind(sites, IdSeq(nodes));
    assert Behind(replicas, primary) == remotes[..|primary|];
    success, ackers := UpdateDigest(self, storeLocal, remotes, places, alpha, isStatusList, key, value, signature,
                                    crypto, meanwhile, fits);
  }

  /** Select the responsible of the nodes found, update them all and count the
      answers of the closest: `primary` are exactly the nearest to the key. */
  method UpdateResponsible(self: Replica, local: Node, found: seq<Node>, k: nat, alpha: nat,
                           replicas: map<Id, Replica>, sites: map<Id, Site>, isStatusList: bool, key: Id, value: Bytes,
                           signature: Bytes, crypto: Crypto, meanwhile: map<Id, Bytes>, fits: bool)
    returns (success: bool, storeLocal: bool, ghost primary: seq<Id>, ghost ackers: set<Replica>)
    requires Peers(self, IdSet(found) - {local.id}, replicas, sites)
    requires self.Valid() && forall x :: x in replicas ==> replicas[x].Valid()
    modifies self, replicas.Values
    ensures storeLocal <==> local.id in Nearest(key, k, IdSet(found) + {local.id})
    ensures primary == PrimaryIds(local.id, IdSet(found), key, k, alpha)
    ensures forall id :: id in primary ==> id in replicas && id in sites
    ensures Voted(self, storeLocal, Behind(replicas, primary), ackers)
    ensures success <==>
              && 2 * |ackers| > |Group(self, storeLocal, Behind(replicas, primary))|
              && (storeLocal ==> fits || Holds(meanwhile, key, value))
    ensures forall id :: id in primary && replicas[id] in ackers ==>
              replicas[id].HeldBeforeLast(old(|replicas[id].past|), key, value)
    ensures forall id :: id in primary ==>
              Answers(replicas[id].statusList, sites[id], isStatusList, key, value, signature, crypto) ==>
              replicas[id] in ackers
    ensures self.records == if success && storeLocal then meanwhile[key := value] else meanwhile
  {
    var nodes;
    storeLocal, nodes := Publications.SelectResponsibleNodes(local, key, found, k);
    primary := PrimaryIds(local.id, IdSet(found), key, k, alpha);
    PrimaryOf(local.id, IdSet(found), key, k, alpha, storeLocal, nodes);
    ResponsibleAreFound(local.id, IdSet(found), key, k, nodes);
    success, ackers := UpdateNodes(self, storeLocal, nodes, alpha, replicas, sites, isStatusList, key, value,
                                   signature, crypto, meanwhile, fits, primary);
  }

  /** Two updates over the same group, one after the other: if both succeed, some
      replica acknowledged both. */
  method TwoUpdates(self: Replica, storeLocal: bool, remotes: seq<Replica>, alpha: nat, isStatusList: bool, key: Id,
                    first: seq<Site>, value: Bytes, signature: Bytes, crypto: Crypto, meanwhile: map<Id, Bytes>,
                    second: seq<Site>, value2: Bytes, signature2: Bytes, crypto2: Crypto, meanwhile2: map<Id, Bytes>,
                    fits: bool)
    returns (one: bool, two: bool, ghost ackers: set<Replica>, ghost ackers2: set<Replica>)
    requires Different(remotes) && self !in remotes && |first| == |remotes| && |second| == |remotes|
    requires SitesOk(first) && SitesOk(second) && AllValid(remotes) && self.Valid()
    modifies self, remotes
    ensures one && two ==> exists r :: r in ackers && r in ackers2
  {
    one, ackers := UpdateDigest(self, storeLocal, remotes, first, alpha, isStatusList, key, value, signature,
                                crypto, meanwhile, fits);
    two, ackers2 := UpdateDigest(self, storeLocal, remotes, second, alpha, isStatusList, key, value2, signature2,
                                 crypto2, meanwhile2, fits);
    if one && two {
      MajoritiesMeet(Group(self, storeLocal, remotes[..PrimaryCount(alpha, storeLocal, |remotes|)]), ackers, ackers2);
      ghost var r :| r in ackers * ackers2;
      assert r in ackers && r in ackers2;
    }
  }
}
