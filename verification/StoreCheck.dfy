/** STORE, and the network check of a replica that does not hold the key. */
module StoreChecks {
  import opened XorMetric
  import opened Nodes
  import opened Selection
  import opened Crawls
  import opened Wire
  import opened NodeHeaps
  import opened ValueSearches
  import opened Tables
  import opened Neighbors

  /** What an empty replica learns from the network about a record. */
  datatype NetworkCopy = NoneOrSame | Other | Unknown

  /** The record hash and the checks of bindings and signatures are supplied
      from outside. `rotates(key, new, old, signature)`: the holder of the key of
      the old record signed the new one. */
  datatype Crypto = Crypto(
    hash: Bytes -> Bytes,
    bound: (Id, Bytes) -> bool,
    verified: (Id, Bytes) -> bool,
    rotates: (Id, Bytes, Bytes, Bytes) -> bool,
    issued: Bytes -> bool)

  // --- Whom the check asks ---

  /** Neighbours of the key not known to fail: a contact known not to respond is
      left out, even as a last resort. */
  function HealthyNeighbors(t: Table, key: Id): (s: seq<Node>)
  {
    Outside(FindNeighbors(t, key, None), t.health.Keys)
  }

  /** By its own table, the node is among the k closest to the key. */
  predicate AmongClosest(t: Table, key: Id)
  {
    |CloserThan(FindNeighbors(t, key, None), key, Xor(t.local, key))| < t.ksize
  }

  function CloserThan(s: seq<Node>, key: Id, distance: nat): (r: seq<Node>)
  {
    if s == [] then []
    else if Xor(Last(s).id, key) < distance then CloserThan(Front(s), key, distance) + [Last(s)]
    else CloserThan(Front(s), key, distance)
  }

  lemma {:induction false} CloserIds(s: seq<Node>, key: Id, distance: nat)
    requires Distinct(s)
    ensures Distinct(CloserThan(s, key, distance))
    ensures forall id :: id in IdSet(CloserThan(s, key, distance)) <==> id in IdSet(s) && Xor(id, key) < distance
  {
    if s != [] {
      CloserIds(Front(s), key, distance);
      AppendIds(CloserThan(Front(s), key, distance), Last(s));
    }
  }

  /** Fewer than `k` ids of a pool are closer than `id` exactly when `id` is one
      of the `k` nearest. */
  lemma RankIsNearest(key: Id, k: nat, pool: set<Id>, closer: set<Id>, id: Id)
    requires id in pool && forall x :: x in closer <==> x in pool && Xor(x, key) < Xor(id, key)
    ensures |closer| < k <==> id in Nearest(key, k, pool)
  {
    var r := Nearest(key, k, pool);
    NearestSpec(key, k, pool);
    AscendingCount(key, r);
    if id in r {
      assert forall x :: x in pool && x !in r ==> Beyond(key, r, x);
      SubsetSize(closer + {id}, Elems(r));
    } else {
      assert Beyond(key, r, id);
      SubsetSize(Elems(r), closer);
      SubsetSize(Elems(r) + {id}, pool);
    }
  }

  /** The test compares the node with the neighbours it found: it is true exactly
      when the node is one of the k nearest among them. */
  lemma AmongClosestMeaning(t: Table, key: Id)
    requires TableOk(t)
    ensures AmongClosest(t, key) <==>
            t.local in Nearest(key, t.ksize, IdSet(FindNeighbors(t, key, None)) + {t.local})
  {
    var found := FindNeighbors(t, key, None);
    FindNeighborsIsNearest(t, key, None);
    NearestSpec(key, t.ksize, Pool(t, key, None, TierFor(t, key, None)));
    AscendingDistinct(key, found);
    var closer := CloserThan(found, key, Xor(t.local, key));
    CloserIds(found, key, Xor(t.local, key));
    DistinctCount(closer);
    RankIsNearest(key, t.ksize, IdSet(found) + {t.local}, IdSet(closer), t.local);
  }

  lemma AscendingDistinct(key: Id, s: seq<Node>)
    requires Ascending(key, IdSeq(s))
    ensures Distinct(s)
  {
    DistinctMeaning(s);
    forall i, j | 0 <= i < j < |s|
      ensures s[i].id != s[j].id
    {
      assert Xor(IdSeq(s)[i], key) < Xor(IdSeq(s)[j], key);
    }
  }

  // --- The check ---

  /** Every peer asked answered, with no record or with the hash of this one. */
  ghost predicate AllAgree(net: Network, asked: seq<Id>, hash: Bytes)
  {
    forall peer :: peer in asked ==> Agrees(net.answer(peer), hash)
  }

  predicate Agrees(answer: Answer, hash: Bytes)
  {
    !answer.Silence? && (answer.Hit? ==> answer.value == hash)
  }

  /** What the check established before a record was taken: somebody was asked,
      all of them agree, nobody closer was left to ask but for contacts known not
      to respond and, for a replica among the closest, every healthy neighbour it
      started from was asked. */
  ghost predicate Checked(t: Table, net: Network, key: Id, hash: Bytes, asked: seq<Id>, skipped: set<Id>)
  {
    && HealthyNeighbors(t, key) != []
    && asked != []
    && AllAgree(net, asked, hash)
    && Closed(net, key, t.ksize, IdSet(HealthyNeighbors(t, key)), asked, skipped)
    && (AmongClosest(t, key) ==> IdSet(HealthyNeighbors(t, key)) <= Elems(asked))
  }

  /** All healthy neighbours fit in the shortlist the check starts from. */
  lemma HealthyFit(t: Table, key: Id)
    requires TableOk(t)
    ensures Elems(Nearest(key, t.ksize, IdSet(HealthyNeighbors(t, key)))) == IdSet(HealthyNeighbors(t, key))
  {
    FindNeighborsIsNearest(t, key, None);
    NearestSpec(key, t.ksize, Pool(t, key, None, TierFor(t, key, None)));
    DistinctCount(HealthyNeighbors(t, key));
    NearestOfFew(key, t.ksize, IdSet(HealthyNeighbors(t, key)));
  }

  /** The lookup of the check, before it asks anybody. */
  method StartCheck(t: Table, net: Network, key: Id, alpha: nat, nearest: seq<Node>) returns (crawl: SpiderCrawl)
    requires TableOk(t) && 1 <= alpha && nearest == HealthyNeighbors(t, key) && nearest != []
    ensures fresh(crawl) && fresh(crawl.nearest) && crawl.During({})
    ensures crawl.net == net && crawl.target == key && crawl.ksize == t.ksize && crawl.start == IdSet(nearest)
    ensures crawl.asked == [] && crawl.failed == {} && crawl.answered == {}
    ensures crawl.askEveryone == AmongClosest(t, key)
    ensures IdSet(crawl.nearest.entries) == IdSet(nearest) && IdSet(nearest) != {}
  {
    crawl := new SpiderCrawl(net, key, nearest, t.ksize, alpha);
    crawl.askEveryone := AmongClosest(t, key);
    HealthyFit(t, key);
    IdSetIsElems(crawl.nearest.entries);
    assert Last(nearest).id in IdSet(nearest);
  }

  method CheckNetwork(t: Table, net: Network, key: Id, value: Bytes, alpha: nat, crypto: Crypto, late: nat -> bool)
    returns (copy: NetworkCopy, ghost asked: seq<Id>, ghost skipped: set<Id>)
    requires TableOk(t) && 1 <= alpha
    ensures copy == NoneOrSame ==> Checked(t, net, key, crypto.hash(value), asked, skipped)
    ensures copy == Other ==>
              exists peer :: peer in asked && net.answer(peer).Hit? && net.answer(peer).value != crypto.hash(value)
    ensures copy == Unknown ==>
              || HealthyNeighbors(t, key) == []
              || (exists n :: late(n))
              || exists peer :: peer in asked && net.answer(peer).Silence?
    ensures AllDifferent(asked)
  {
    var nearest := HealthyNeighbors(t, key);
    asked, skipped := [], {};
    if nearest == [] {
      return Unknown, asked, skipped;
    }
    var own := crypto.hash(value);
    var crawl := StartCheck(t, net, key, alpha, nearest);
    var outcome := Search(crawl, late, found => found != own);
    asked, skipped := crawl.asked, crawl.skipped;
    match outcome {
      case Found(_) => copy := Other;
      case Incomplete => copy := Unknown;
      case NotFound => copy := NoneOrSame;
    }
  }

  /** How a node that follows the protocol answers a question for the hash of
      the record it holds. */
  function HashAnswer(records: map<Id, Bytes>, crypto: Crypto, key: Id, neighbors: seq<Node>): (a: Answer)
  {
    if key in records && crypto.bound(key, records[key]) then Hit(crypto.hash(records[key]))
    else Closer(neighbors)
  }

  ghost predicate Injective(hash: Bytes -> Bytes)
  {
    forall a, b :: hash(a) == hash(b) ==> a == b
  }

  /** If the check passed, an honest peer that was asked and holds a record
      bound to the key holds this very record. */
  lemma NoOtherRecordBehind(t: Table, net: Network, key: Id, value: Bytes, crypto: Crypto, asked: seq<Id>,
                            skipped: set<Id>, peer: Id, held: map<Id, Bytes>, neighbors: seq<Node>)
    requires Checked(t, net, key, crypto.hash(value), asked, skipped) && Injective(crypto.hash)
    requires peer in asked || (AmongClosest(t, key) && peer in IdSet(HealthyNeighbors(t, key)))
    requires net.answer(peer) == HashAnswer(held, crypto, key, neighbors)
    requires key in held && crypto.bound(key, held[key])
    ensures held[key] == value
  {
  }
}
