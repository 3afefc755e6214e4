/** A node's records and its handlers for STORE, UPDATE and UPDATE STATUS LIST:
    what an acknowledgement means. */
module Replicas {
  import opened XorMetric
  import opened Nodes
  import opened Selection
  import opened Crawls
  import opened Wire
  import opened Messages
  import opened Tables
  import opened StoreChecks

  ghost predicate Holds(records: map<Id, Bytes>, key: Id, value: Bytes)
  {
    key in records && records[key] == value
  }

  /** An UPDATE that finds `records` is accepted: this record is held already, or
      the holder of the key of the record held signed the new one and it fits in
      what the records have become when it is written. */
  ghost predicate UpdateAccepted(statusList: Id, records: map<Id, Bytes>, key: Id, value: Bytes, signature: Bytes,
                                 crypto: Crypto, meanwhile: map<Id, Bytes>, fits: bool)
  {
    && key != statusList && key in records
    && (|| records[key] == value
        || (crypto.rotates(key, value, records[key], signature) && (fits || Holds(meanwhile, key, value))))
  }

  /** What the handler of an UPDATE that finds `records` leaves. */
  ghost function AfterUpdate(statusList: Id, records: map<Id, Bytes>, key: Id, value: Bytes, signature: Bytes,
                             crypto: Crypto, meanwhile: map<Id, Bytes>, fits: bool): (after: map<Id, Bytes>)
  {
    if key == statusList || key !in records || records[key] == value then records
    else if UpdateAccepted(statusList, records, key, value, signature, crypto, meanwhile, fits)
    then meanwhile[key := value]
    else meanwhile
  }

  ghost predicate StatusListAccepted(statusList: Id, records: map<Id, Bytes>, key: Id, value: Bytes,
                                     crypto: Crypto, meanwhile: map<Id, Bytes>, fits: bool)
  {
    && key == statusList && key in records && crypto.issued(value)
    && (fits || Holds(meanwhile, key, value))
  }

  /** The records a node holds, shared by the tasks that handle requests. */
  class Replica {
    const statusList: Id
    var records: map<Id, Bytes>
    /** Every content the records have had, the present one last. */
    ghost var past: seq<map<Id, Bytes>>

    ghost predicate Valid()
      reads this
    {
      past != [] && past[|past| - 1] == records
    }

    ghost predicate Holding(key: Id, value: Bytes)
      reads this
    {
      Holds(records, key, value)
    }

    /** Since content number `from` there have been several, and the last but one
        held the record: the content just before other tasks made it what it is. */
    ghost predicate HeldBeforeLast(from: nat, key: Id, value: Bytes)
      reads this
    {
      from + 2 <= |past| && Holds(past[|past| - 2], key, value)
    }

    constructor (statusList: Id)
      ensures Valid() && past == [map[]] && this.statusList == statusList
    {
      this.statusList := statusList;
      records, past := map[], [map[]];
    }

    /** The content changes, by this task or by others. */
    method Become(to: map<Id, Bytes>)
      requires Valid()
      modifies this
      ensures Valid() && records == to && past == old(past) + [to]
    {
      records, past := to, past + [to];
    }

    /** A STORE for a key this node does not hold; the Status List has rules of
        its own. */
    predicate StoreNeedsLookup(key: Id)
      reads this
    {
      key != statusList && key !in records
    }

    /** Atomic. `fits` says whether the storage budget admits the record. */
    method InsertIfAbsent(key: Id, value: Bytes, fits: bool) returns (status: StoreStatus)
      requires Valid()
      modifies this
      ensures Valid() && old(past) <= past
      ensures status == if key in old(records)
                        then (if old(records)[key] == value then AlreadyStored else Conflict)
                        else (if fits then Stored else CapacityExceeded)
      ensures records == if status == Stored then old(records)[key := value] else old(records)
    {
      if key in records {
        return if records[key] == value then AlreadyStored else Conflict;
      }
      if !fits {
        return CapacityExceeded;
      }
      Become(records[key := value]);
      return Stored;
    }

    /** Handle a STORE. While it asks the network and checks the signature,
        other tasks turn the records into `meanwhile`. */
    method RpcStore(t: Table, net: Network, key: Id, value: Bytes, alpha: nat, crypto: Crypto,
                    late: nat -> bool, meanwhile: map<Id, Bytes>, fits: bool)
      returns (reply: Option<StoreStatus>, ghost asked: seq<Id>, ghost skipped: set<Id>)
      requires Valid() && TableOk(t) && 1 <= alpha
      modifies this
      ensures Valid() && old(past) <= past
      // Nothing but this record is ever written, and only over an absent key.
      ensures records in {old(records), meanwhile, meanwhile[key := value]}
      ensures reply == Some(Stored) ==> key !in meanwhile && records == meanwhile[key := value]
      ensures reply != Some(Stored) ==> records in {old(records), meanwhile}
      // An acknowledgement means that the replica holds exactly these bytes.
      ensures reply == Some(Stored) || reply == Some(AlreadyStored) ==> Holding(key, value)
      // What was established before a record was taken.
      ensures reply == Some(Stored) ==> crypto.verified(key, value)
      ensures reply == Some(Stored) && old(StoreNeedsLookup(key)) ==>
                crypto.bound(key, value) && Checked(t, net, key, crypto.hash(value), asked, skipped)
      // A refusal has a reason: another record, here or at a peer that was
      // asked, or a record that is not bound or not signed.
      ensures reply == Some(Conflict) ==>
                || (key in records && records[key] != value)
                || exists peer :: peer in asked && net.answer(peer).Hit? && net.answer(peer).value != crypto.hash(value)
      ensures reply == Some(InvalidRecord) ==> !crypto.verified(key, value) || !crypto.bound(key, value)
      ensures reply == Some(CapacityExceeded) ==> !fits && key !in records
      // No answer only when the network could not be heard.
      ensures reply.None? ==>
                && old(StoreNeedsLookup(key)) && crypto.bound(key, value)
                && (|| HealthyNeighbors(t, key) == []
                    || (exists n :: late(n))
                    || exists peer :: peer in asked && net.answer(peer).Silence?)
    {
      asked, skipped := [], {};
      if StoreNeedsLookup(key) {
        if !crypto.bound(key, value) {
          return Some(InvalidRecord), asked, skipped;
        }
        var copy;
        copy, asked, skipped := CheckNetwork(t, net, key, value, alpha, crypto, late);
        if copy == Other {
          return Some(Conflict), asked, skipped;
        }
        if copy == Unknown {
          return None, asked, skipped;
        }
      }
      Become(meanwhile);
      if !crypto.verified(key, value) {
        return Some(InvalidRecord), asked, skipped;
      }
      var status := InsertIfAbsent(key, value, fits);
      reply := Some(status);
    }

    /** Atomic insert or replace. */
    method Set(key: Id, value: Bytes, fits: bool) returns (status: StoreStatus)
      requires Valid()
      modifies this
      ensures Valid() && old(past) <= past
      ensures status in {Stored, AlreadyStored, CapacityExceeded}
      ensures status == CapacityExceeded <==> !fits && old(!Holding(key, value))
      ensures past == old(past) + if status == Stored then [records] else []
      ensures status == AlreadyStored <==> old(Holding(key, value))
      ensures records == if status == CapacityExceeded then old(records) else old(records)[key := value]
    {
      if key in records && records[key] == value {
        assert records[key := value] == records;
        return AlreadyStored;
      }
      if !fits {
        return CapacityExceeded;
      }
      Become(records[key := value]);
      return Stored;
    }

    /** Handle an UPDATE: read, verify against what was read, write. While it
        verifies, other tasks turn the records into `meanwhile`, and the write
        replaces whatever is there then. */
    method RpcUpdate(key: Id, value: Bytes, signature: Bytes, crypto: Crypto,
                     meanwhile: map<Id, Bytes>, fits: bool)
      returns (ok: bool)
      requires Valid()
      modifies this
      ensures Valid() && old(past) <= past
      // An acknowledgement means that the replica holds exactly these bytes.
      ensures ok ==> Holding(key, value)
      ensures ok <==> UpdateAccepted(statusList, old(records), key, value, signature, crypto, meanwhile, fits)
      ensures records == AfterUpdate(statusList, old(records), key, value, signature, crypto, meanwhile, fits)
      ensures ok && old(!Holding(key, value)) && !Holds(meanwhile, key, value) ==> past == old(past) + [meanwhile, records]
    {
      if key == statusList || key !in records {
        return false;
      }
      var oldValue := records[key];
      if oldValue == value {
        return true;
      }
      var authorised := crypto.rotates(key, value, oldValue, signature);
      Become(meanwhile);
      if !authorised {
        return false;
      }
      var status := Set(key, value, fits);
      ok := status != CapacityExceeded;
    }

    method RpcUpdateStatusList(key: Id, value: Bytes, crypto: Crypto, meanwhile: map<Id, Bytes>, fits: bool)
      returns (ok: bool)
      requires Valid()
      modifies this
      ensures Valid() && old(past) <= past
      ensures ok ==> Holding(key, value)
      ensures ok <==> StatusListAccepted(statusList, old(records), key, value, crypto, meanwhile, fits)
      ensures records ==
                if key != statusList || key !in old(records) then old(records)
                else if ok then meanwhile[key := value] else meanwhile
    {
      if key != statusList || key !in records {
        return false;
      }
      var authorised := crypto.issued(value);
      Become(meanwhile);
      if !authorised {
        return false;
      }
      var status := Set(key, value, fits);
      ok := status != CapacityExceeded;
    }
  }

  /** An UPDATE from a replica's record [1] to [3], authorised under [1]; another
      task writes [2] in between, which does not authorise [3] and is replaced. */
  method UnreadRecordReplaced(key: Id, statusList: Id) returns (ok: bool, replica: Replica, crypto: Crypto)
    requires key != statusList
    ensures crypto.rotates(key, [3], [1], []) && !crypto.rotates(key, [3], [2], [])
    ensures ok && replica.past == [map[], map[key := [1]], map[key := [2]], map[key := [3]]]
  {
    crypto := Crypto(
      (value: Bytes) => value, (k: Id, value: Bytes) => true, (k: Id, value: Bytes) => true,
      (k: Id, to: Bytes, from: Bytes, signature: Bytes) => to == [3] && from == [1], (value: Bytes) => false);
    replica := new Replica(statusList);
    replica.Become(map[key := [1]]);
    ok := replica.RpcUpdate(key, [3], [], crypto, map[key := [2]], true);
    assert (map[key := [2]])[key := [3]] == map[key := [3]];
  }
}
