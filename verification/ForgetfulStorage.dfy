/** The record store as an object. Each operation, run by itself, is proved to be
    the steps of one task of `Storage` from beginning to end. */
module ForgetfulStorages {
  import opened Nodes
  import opened Wire
  import opened Sums
  import S = Storage

  /** One write run from beginning to end with nobody else about. */
  ghost function Finish(s: S.State, req: S.Request): (after: S.State)
  {
    S.Step(S.Step(S.Step(S.Step(s, S.Begin(0, req)), S.Decide(0)), S.Write(0)), S.Release(0))
  }

  datatype Outcome = Outcome(data: map<Bytes, S.Record>, counter: int, status: S.WriteStatus)

  /** The outcome of those steps. */
  ghost function Written(s: S.State, req: S.Request): (o: Outcome)
  {
    var held := if req.key in s.data then |s.data[req.key].value| else 0;
    var extra := if req.key in s.data then |req.value| - held else |req.key| + |req.value|;
    if req.key in s.data && s.data[req.key].value == req.value then
      Outcome(s.data[req.key := S.Record(req.value, s.now)], s.counter, S.AlreadyStored)
    else if req.key in s.data && req.onlyIfAbsent && !S.Expired(s, s.data[req.key]) then
      Outcome(s.data, s.counter, S.Conflict)
    else if 0 < extra && s.budget < s.counter + extra then
      Outcome(s.data, s.counter, S.CapacityExceeded)
    else
      Outcome(s.data[req.key := S.Record(req.value, s.now)], s.counter + extra, S.Stored)
  }

  ghost predicate EndsAs(s: S.State, req: S.Request, o: Outcome)
  {
    && s.tasks == map[0 := S.Finished(req, o.status)]
    && s.data == o.data && s.counter == o.counter
  }

  /** A task that has decided without reserving has nothing left to do. */
  lemma DecidedEnds(d: S.State, req: S.Request, status: S.WriteStatus)
    requires d.tasks == map[0 := S.Finished(req, status)]
    ensures S.Step(S.Step(d, S.Write(0)), S.Release(0)) == d
  {
  }

  /** A task that has reserved writes, and releases what a shorter value freed. */
  lemma ReservedEnds(d: S.State, req: S.Request, extra: nat)
    requires d.tasks == map[0 := S.Reserved(req, extra)] && d.counter >= S.StoredBytes(d.data)
    ensures var surplus := if req.key in d.data then S.Monus(|d.data[req.key].value|, |req.value|) else 0;
            EndsAs(S.Step(S.Step(d, S.Write(0)), S.Release(0)), req,
                   Outcome(d.data[req.key := S.Record(req.value, d.now)], d.counter - surplus, S.Stored))
  {
    var written := S.WriteStep(d, 0, req);
    assert S.Step(d, S.Write(0)) == written;
    assert S.Step(written, S.Release(0)) == S.ReleaseStep(written, 0, written.tasks[0]);
    if req.key in d.data {
      S.StoredRemove(d.data, req.key);
    }
  }

  ghost function Decided(s: S.State, req: S.Request): (d: S.State)
  {
    S.DecideStep(S.WithTask(s, 0, S.Holding(req)), 0, req)
  }

  lemma FinishDecides(s: S.State, req: S.Request)
    requires s.tasks == map[]
    ensures Finish(s, req) == S.Step(S.Step(Decided(s, req), S.Write(0)), S.Release(0))
  {
  }

  lemma DecidedFinished(s: S.State, req: S.Request)
    requires s.tasks == map[] && Decided(s, req).tasks[0].Finished?
    ensures EndsAs(Decided(s, req), req, Written(s, req))
  {
  }

  lemma DecidedReserved(s: S.State, req: S.Request)
    requires s.tasks == map[] && !Decided(s, req).tasks[0].Finished?
    ensures var d := Decided(s, req);
            var surplus := if req.key in s.data then S.Monus(|s.data[req.key].value|, |req.value|) else 0;
            && d.tasks[0].Reserved? && d.tasks == map[0 := S.Reserved(req, d.tasks[0].extra)]
            && d.data == s.data && d.now == s.now && d.counter >= s.counter
            && Written(s, req) == Outcome(s.data[req.key := S.Record(req.value, s.now)], d.counter - surplus, S.Stored)
  {
  }

  /** Run by itself, a write ends with this outcome. */
  lemma FinishIsWritten(s: S.State, req: S.Request)
    requires s.tasks == map[] && s.counter == S.StoredBytes(s.data)
    ensures EndsAs(Finish(s, req), req, Written(s, req))
  {
    FinishDecides(s, req);
    var d := Decided(s, req);
    if d.tasks[0].Finished? {
      DecidedFinished(s, req);
      DecidedEnds(d, req, d.tasks[0].status);
    } else {
      DecidedReserved(s, req);
      ReservedEnds(d, req, d.tasks[0].extra);
    }
  }

  class ForgetfulStorage {
    const ttl: Option<nat>
    const budget: nat
    var data: map<Bytes, S.Record>
    var counter: nat

    ghost function View(now: nat): (s: S.State)
      reads this
    {
      S.State(data, counter, budget, ttl, now, map[])
    }

    /** The counter is exactly the bytes stored. */
    ghost predicate Valid()
      reads this
    {
      counter == S.StoredBytes(data) <= budget
    }

    constructor (ttl: Option<nat>, budget: nat)
      ensures Valid() && data == map[] && this.ttl == ttl && this.budget == budget
    {
      this.ttl, this.budget := ttl, budget;
      data, counter := map[], 0;
      new;
      assert S.Weights(map[]) == map[];
    }

    method ReserveBytes(additional: nat) returns (ok: bool)
      modifies this`counter
      ensures ok <==> additional == 0 || old(counter) + additional <= budget
      ensures counter == if ok then old(counter) + additional else old(counter)
    {
      if additional == 0 {
        return true;
      }
      if counter + additional > budget {
        return false;
      }
      counter := counter + additional;
      return true;
    }

    method ReleaseBytes(released: nat)
      requires released <= counter
      modifies this`counter
      ensures counter == old(counter) - released
    {
      counter := counter - released;
    }

    predicate IsExpired(r: S.Record, now: nat)
    {
      ttl.Some? && r.at + ttl.value < now
    }

    /** This store is the outcome of the steps of a single task. */
    ghost predicate IsOutcome(before: S.State, req: S.Request, status: S.WriteStatus)
      reads this
    {
      Outcome(data, counter, status) == Written(before, req)
    }

    method ReplaceValue(key: Bytes, value: Bytes, now: nat) returns (status: S.WriteStatus)
      requires Valid() && key in data
      modifies this
      ensures IsOutcome(old(View(now)), S.Request(key, value, false), status)
    {
      var oldValue := data[key].value;
      if oldValue == value {
        data := data[key := S.Record(value, now)];
        return S.AlreadyStored;
      }
      if |value| > |oldValue| {
        var ok := ReserveBytes(|value| - |oldValue|);
        if !ok {
          return S.CapacityExceeded;
        }
      }
      TotalRemove(S.Weights(data), key);
      data := data[key := S.Record(value, now)];
      if |oldValue| > |value| {
        ReleaseBytes(|oldValue| - |value|);
      }
      return S.Stored;
    }

    method InsertNew(key: Bytes, value: Bytes, now: nat) returns (status: S.WriteStatus)
      requires key !in data
      modifies this
      ensures forall only :: IsOutcome(old(View(now)), S.Request(key, value, only), status)
    {
      var ok := ReserveBytes(|key| + |value|);
      if !ok {
        return S.CapacityExceeded;
      }
      data := data[key := S.Record(value, now)];
      return S.Stored;
    }

    lemma WrittenValid(before: S.State, req: S.Request, status: S.WriteStatus)
      requires before.counter == S.StoredBytes(before.data) <= before.budget && before.budget == budget
      requires IsOutcome(before, req, status)
      ensures Valid()
    {
      S.StoredSet(before.data, req.key, S.Record(req.value, before.now));
    }

    /** Insert or replace. */
    method Set(key: Bytes, value: Bytes, now: nat) returns (status: S.WriteStatus)
      requires Valid()
      modifies this
      ensures Valid()
      ensures IsOutcome(old(View(now)), S.Request(key, value, false), status)
    {
      if key !in data {
        status := InsertNew(key, value, now);
      } else {
        status := ReplaceValue(key, value, now);
      }
      WrittenValid(old(View(now)), S.Request(key, value, false), status);
    }

    /** Insert unless a live record is there; an expired one counts as absent. */
    method InsertIfAbsent(key: Bytes, value: Bytes, now: nat) returns (status: S.WriteStatus)
      requires Valid()
      modifies this
      ensures Valid()
      ensures IsOutcome(old(View(now)), S.Request(key, value, true), status)
    {
      if key !in data {
        status := InsertNew(key, value, now);
      } else if IsExpired(data[key], now) {
        status := ReplaceValue(key, value, now);
      } else if data[key].value == value {
        data := data[key := S.Record(value, now)];
        status := S.AlreadyStored;
      } else {
        status := S.Conflict;
      }
      WrittenValid(old(View(now)), S.Request(key, value, true), status);
    }

    /** Remove expired records, then release their bytes together. */
    method PruneExpired(now: nat) returns (count: nat)
      requires Valid()
      modifies this
      ensures Valid()
      ensures forall key :: key in data <==> key in old(data) && !IsExpired(old(data)[key], now)
      ensures forall key :: key in data ==> data[key] == old(data)[key]
      ensures count == |old(data)| - |data|
    {
      if ttl.None? {
        return 0;
      }
      var left := data.Keys;
      var freed: nat := 0;
      count := 0;
      while left != {}
        invariant left <= data.Keys && counter == old(counter) && counter == S.StoredBytes(data) + freed
        invariant forall key :: key in data <==> key in old(data) && (key in left || !IsExpired(old(data)[key], now))
        invariant forall key :: key in data ==> data[key] == old(data)[key]
        invariant count == |old(data)| - |data|
        decreases left
      {
        var key :| key in left;
        left := left - {key};
        if IsExpired(data[key], now) {
          S.StoredRemove(data, key);
          freed := freed + |key| + |data[key].value|;
          RemoveSize(data, key);
          data := data - {key};
          count := count + 1;
        }
      }
      ReleaseBytes(freed);
    }
  }
}
