/**
 Which records authorise which, when updates of one key run concurrently.

 A handler of an UPDATE reads the record, verifies the new one against what it
 read, and then writes over whatever is there: two steps with other tasks in
 between. So does an update begun on this node, which reads the network if it holds
 no record, and writes when it has its quorum. A run interleaves the steps of any
 number of such tasks with stores and expiry.
 */
module UpdateChains {
  import opened XorMetric
  import opened Nodes
  import opened Wire
  import opened StoreChecks
  import opened Replicas

  /** `rotates(key, new, old, signature)`: the old record authorises the new one. */
  type Rotation = (Id, Bytes, Bytes, Bytes) -> bool

  /** An update verified against `read` and not yet written. */
  datatype Pending = Pending(value: Bytes, signature: Bytes, read: Bytes)

  /** An update that was written, and the record it replaced, if there was one. */
  datatype Written = Written(read: Bytes, replaced: Option<Bytes>, value: Bytes, signature: Bytes)

  /** `history` are the contents of the record since it was last stored anew; every
      task is a new one. */
  datatype State = State(
    record: Option<Bytes>,
    tasks: map<nat, Pending>,
    used: set<nat>,
    log: seq<Written>,
    history: seq<Bytes>)

  /** A handler reads; an update begins here, `found` on the network if this node
      holds no record; a task writes, or gives up; a record is stored where there is
      none; the record expires. */
  datatype Action =
    | Read(task: nat, value: Bytes, signature: Bytes)
    | Publish(task: nat, value: Bytes, signature: Bytes, found: Bytes)
    | Write(task: nat, fits: bool)
    | GiveUp(task: nat)
    | StoreAbsent(value: Bytes)
    | Expire

  function ReadStep(rotates: Rotation, key: Id, s: State, t: nat, value: Bytes, signature: Bytes): (after: State)
  {
    if s.record.Some? && s.record.value != value && rotates(key, value, s.record.value, signature)
    then s.(tasks := s.tasks[t := Pending(value, signature, s.record.value)])
    else s
  }

  /** An update of a record that is this one already is published again. */
  function PublishStep(rotates: Rotation, key: Id, s: State, t: nat, value: Bytes, signature: Bytes, found: Bytes): (after: State)
  {
    var seen := if s.record.Some? then s.record.value else found;
    if seen == value || rotates(key, value, seen, signature)
    then s.(tasks := s.tasks[t := Pending(value, signature, seen)])
    else s
  }

  function WriteStep(s: State, t: nat, fits: bool): (after: State)
    requires t in s.tasks
  {
    var p, rest := s.tasks[t], s.(tasks := s.tasks - {t});
    if !fits && s.record != Some(p.value) then rest
    else
      rest.(record := Some(p.value),
            log := s.log + [Written(p.read, s.record, p.value, p.signature)],
            history := if s.record == Some(p.value) then s.history else s.history + [p.value])
  }

  function Step(rotates: Rotation, key: Id, s: State, a: Action): (after: State)
  {
    match a
    case Read(t, value, signature) =>
      if t in s.used then s else ReadStep(rotates, key, s.(used := s.used + {t}), t, value, signature)
    case Publish(t, value, signature, found) =>
      if t in s.used then s else PublishStep(rotates, key, s.(used := s.used + {t}), t, value, signature, found)
    case Write(t, fits) => if t in s.tasks then WriteStep(s, t, fits) else s
    case GiveUp(t) => s.(tasks := s.tasks - {t})
    case StoreAbsent(value) => if s.record.None? then s.(record := Some(value), history := [value]) else s
    case Expire => s.(record := None, history := [])
  }

  function Start(): (s: State)
  {
    State(None, map[], {}, [], [])
  }

  function Run(rotates: Rotation, key: Id, actions: seq<Action>): (s: State)
  {
    if actions == [] then Start()
    else Step(rotates, key, Run(rotates, key, actions[..|actions| - 1]), actions[|actions| - 1])
  }

  // --- Every run ---

  /** The record read authorises the new one, or is the new one. */
  predicate Verified(rotates: Rotation, key: Id, read: Bytes, value: Bytes, signature: Bytes)
  {
    read == value || rotates(key, value, read, signature)
  }

  ghost predicate Authorised(rotates: Rotation, key: Id, log: seq<Written>)
  {
    forall i :: 0 <= i < |log| ==> Verified(rotates, key, log[i].read, log[i].value, log[i].signature)
  }

  ghost predicate PendingOk(rotates: Rotation, key: Id, tasks: map<nat, Pending>)
  {
    forall t :: t in tasks ==> Verified(rotates, key, tasks[t].read, tasks[t].value, tasks[t].signature)
  }

  /** In every run, a write is authorised by the record that was read for it. */
  lemma {:induction false} WritesAuthorised(rotates: Rotation, key: Id, actions: seq<Action>)
    ensures Authorised(rotates, key, Run(rotates, key, actions).log)
    ensures PendingOk(rotates, key, Run(rotates, key, actions).tasks)
  {
    if actions != [] {
      WritesAuthorised(rotates, key, actions[..|actions| - 1]);
    }
  }

  // --- Runs in which no other write falls between a read and its write ---

  /** The step writes the record only while no other task has read it to write
      it. */
  ghost predicate Undisturbing(s: State, a: Action)
  {
    match a
    case Write(t, _) => t in s.tasks ==> s.tasks - {t} == map[]
    case StoreAbsent(_) => s.tasks == map[]
    case _ => true
  }

  ghost predicate Serial(rotates: Rotation, key: Id, actions: seq<Action>)
  {
    actions == [] ||
    (var front := actions[..|actions| - 1];
     Serial(rotates, key, front) && Undisturbing(Run(rotates, key, front), actions[|actions| - 1]))
  }

  ghost predicate Authorises(rotates: Rotation, key: Id, from: Bytes, to: Bytes)
  {
    exists signature :: rotates(key, to, from, signature)
  }

  /** Each content of the record authorises the next. */
  ghost predicate IsChain(rotates: Rotation, key: Id, history: seq<Bytes>)
  {
    forall i :: 0 <= i < |history| - 1 ==> Authorises(rotates, key, history[i], history[i + 1])
  }

  /** What is pending was read from the record that is there, if one is there. */
  ghost predicate UpToDate(s: State)
  {
    && (forall t :: t in s.tasks ==> s.record.None? || s.record == Some(s.tasks[t].read))
    && (if s.record.None? then s.history == []
        else s.history != [] && s.history[|s.history| - 1] == s.record.value)
  }

  ghost predicate ReplacedWhatWasRead(log: seq<Written>)
  {
    forall i :: 0 <= i < |log| ==> log[i].replaced.None? || log[i].replaced == Some(log[i].read)
  }

  /** The history of a key is a chain of authorisations in every run in which no
      other write falls between a read and its write. */
  lemma {:induction false} SerialHistoryIsChain(rotates: Rotation, key: Id, actions: seq<Action>)
    requires Serial(rotates, key, actions)
    ensures var s := Run(rotates, key, actions);
            UpToDate(s) && IsChain(rotates, key, s.history) && ReplacedWhatWasRead(s.log)
  {
    if actions != [] {
      var front, a := actions[..|actions| - 1], actions[|actions| - 1];
      SerialHistoryIsChain(rotates, key, front);
      WritesAuthorised(rotates, key, front);
      SerialStep(rotates, key, Run(rotates, key, front), a);
    }
  }

  lemma SerialStep(rotates: Rotation, key: Id, s: State, a: Action)
    requires UpToDate(s) && IsChain(rotates, key, s.history) && ReplacedWhatWasRead(s.log)
    requires PendingOk(rotates, key, s.tasks) && Undisturbing(s, a)
    ensures var after := Step(rotates, key, s, a);
            UpToDate(after) && IsChain(rotates, key, after.history) && ReplacedWhatWasRead(after.log)
  {
    if a.Write? && a.task in s.tasks {
      SerialWrite(rotates, key, s, a.task, a.fits);
    }
  }

  lemma SerialWrite(rotates: Rotation, key: Id, s: State, t: nat, fits: bool)
    requires UpToDate(s) && IsChain(rotates, key, s.history) && ReplacedWhatWasRead(s.log)
    requires PendingOk(rotates, key, s.tasks) && t in s.tasks && s.tasks - {t} == map[]
    ensures var after := WriteStep(s, t, fits);
            UpToDate(after) && IsChain(rotates, key, after.history) && ReplacedWhatWasRead(after.log)
  {
    var p, after := s.tasks[t], WriteStep(s, t, fits);
    assert p.read != p.value ==> Authorises(rotates, key, p.read, p.value);
    forall i | 0 <= i < |after.history| - 1
      ensures Authorises(rotates, key, after.history[i], after.history[i + 1])
    {
      if i < |s.history| - 1 {
        assert Authorises(rotates, key, s.history[i], s.history[i + 1]);
      }
    }
  }

  // --- Exactly when ---

  /** The record an update replaced authorises it, or is the same record, or there
      was none. */
  ghost predicate Supported(rotates: Rotation, key: Id, w: Written)
  {
    w.replaced.None? || Verified(rotates, key, w.replaced.value, w.value, w.signature)
  }

  ghost predicate AllSupported(rotates: Rotation, key: Id, log: seq<Written>)
  {
    forall i :: 0 <= i < |log| ==> Supported(rotates, key, log[i])
  }

  /** `d` was read from what `w` replaced, for the same new record. */
  predicate Vouches(d: Written, w: Written)
  {
    w.replaced == Some(d.read) && d.value == w.value && d.signature == w.signature
  }

  /** It replaced nothing, its own bytes, or the record it or an equal update had
      read. */
  ghost predicate Covered(log: seq<Written>, w: Written)
  {
    || w.replaced.None?
    || w.replaced.value == w.value
    || exists j :: 0 <= j < |log| && Vouches(log[j], w)
  }

  predicate InLog(log: seq<Written>, to: Bytes, from: Bytes, signature: Bytes)
  {
    exists j :: 0 <= j < |log| && log[j].value == to && log[j].read == from && log[j].signature == signature
  }

  /** The weakest scheme under which the updates of the log are authorised. */
  function OnlyRead(key: Id, log: seq<Written>): (rotates: Rotation)
    ensures Authorised(rotates, key, log)
  {
    (k: Id, to: Bytes, from: Bytes, signature: Bytes) => k == key && InLog(log, to, from, signature)
  }

  /** Under the weakest scheme, a task is pending exactly if its update is
      authorised by it. */
  ghost predicate SameButUnwritten(key: Id, log: seq<Written>, s: State, weak: State)
  {
    && weak.record == s.record && weak.used == s.used && weak.log == s.log && weak.history == s.history
    && (forall t :: t in weak.tasks ==> t in s.tasks && weak.tasks[t] == s.tasks[t])
    && (forall t :: t in s.tasks ==> t in s.used)
    && (forall t :: t in s.tasks ==>
          (t in weak.tasks <==> Verified(OnlyRead(key, log), key, s.tasks[t].read, s.tasks[t].value, s.tasks[t].signature)))
  }

  /** The weakest scheme for the log of a run leads to the same log: the reads it
      does not authorise are those that never led to a write. */
  lemma {:induction false} WeakestRun(rotates: Rotation, key: Id, actions: seq<Action>, log: seq<Written>)
    requires Authorised(rotates, key, log) && Run(rotates, key, actions).log <= log
    ensures SameButUnwritten(key, log, Run(rotates, key, actions), Run(OnlyRead(key, log), key, actions))
  {
    if actions != [] {
      var front, a := actions[..|actions| - 1], actions[|actions| - 1];
      var s := Run(rotates, key, front);
      LogGrows(rotates, key, s, a);
      WeakestRun(rotates, key, front, log);
      WeakestStep(rotates, key, log, s, Run(OnlyRead(key, log), key, front), a);
    }
  }

  lemma LogGrows(rotates: Rotation, key: Id, s: State, a: Action)
    ensures s.log <= Step(rotates, key, s, a).log
  {
  }

  lemma WeakerThan(rotates: Rotation, key: Id, log: seq<Written>, read: Bytes, value: Bytes, signature: Bytes)
    requires Authorised(rotates, key, log) && Verified(OnlyRead(key, log), key, read, value, signature)
    ensures Verified(rotates, key, read, value, signature)
  {
    if read != value {
      var j :| 0 <= j < |log| && log[j].value == value && log[j].read == read && log[j].signature == signature;
    }
  }

  lemma WeakestStep(rotates: Rotation, key: Id, log: seq<Written>, s: State, weak: State, a: Action)
    requires Authorised(rotates, key, log) && SameButUnwritten(key, log, s, weak) && Step(rotates, key, s, a).log <= log
    ensures SameButUnwritten(key, log, Step(rotates, key, s, a), Step(OnlyRead(key, log), key, weak, a))
  {
    match a
    case Read(t, value, signature) =>
      if t !in s.used && s.record.Some? {
        WeakestRead(rotates, key, log, s, weak, t, Pending(value, signature, s.record.value));
      }
    case Publish(t, value, signature, found) =>
      if t !in s.used {
        WeakestRead(rotates, key, log, s, weak, t,
                    Pending(value, signature, if s.record.Some? then s.record.value else found));
      }
    case Write(t, fits) =>
      if t in s.tasks {
        WeakestWrite(key, log, s, weak, t, fits);
      }
    case _ =>
  }

  function WithTask(rotates: Rotation, key: Id, s: State, t: nat, p: Pending): (after: State)
  {
    var begun := s.(used := s.used + {t});
    if Verified(rotates, key, p.read, p.value, p.signature) then begun.(tasks := s.tasks[t := p]) else begun
  }

  lemma WeakestRead(rotates: Rotation, key: Id, log: seq<Written>, s: State, weak: State, t: nat, p: Pending)
    requires Authorised(rotates, key, log) && SameButUnwritten(key, log, s, weak) && t !in s.used
    ensures SameButUnwritten(key, log, WithTask(rotates, key, s, t, p), WithTask(OnlyRead(key, log), key, weak, t, p))
  {
    if Verified(OnlyRead(key, log), key, p.read, p.value, p.signature) {
      WeakerThan(rotates, key, log, p.read, p.value, p.signature);
    }
  }

  lemma WeakestWrite(key: Id, log: seq<Written>, s: State, weak: State, t: nat, fits: bool)
    requires SameButUnwritten(key, log, s, weak) && t in s.tasks && WriteStep(s, t, fits).log <= log
    ensures SameButUnwritten(key, log, WriteStep(s, t, fits), if t in weak.tasks then WriteStep(weak, t, fits) else weak)
  {
    var p, n := s.tasks[t], |s.log|;
    if fits || s.record == Some(p.value) {
      assert WriteStep(s, t, fits).log[n] == log[n];
      assert InLog(log, p.value, p.read, p.signature);
    }
  }

  /** For every run: every record replaced authorises its replacement, whatever the
      signature scheme under which these steps lead to these writes, if and only if
      every update replaced nothing, its own bytes, or the record that it or an equal
      update had read. */
  lemma ChainIff(rotates: Rotation, key: Id, actions: seq<Action>)
    ensures var log := Run(rotates, key, actions).log;
            (forall other: Rotation :: Run(other, key, actions).log == log ==> AllSupported(other, key, log)) <==>
            (forall i :: 0 <= i < |log| ==> Covered(log, log[i]))
  {
    var log := Run(rotates, key, actions).log;
    WritesAuthorised(rotates, key, actions);
    WeakestRun(rotates, key, actions, log);
    if forall i :: 0 <= i < |log| ==> Covered(log, log[i]) {
      forall other: Rotation | Run(other, key, actions).log == log
        ensures AllSupported(other, key, log)
      {
        WritesAuthorised(other, key, actions);
        CoveredIsSupported(other, key, log);
      }
    }
    if forall other: Rotation :: Run(other, key, actions).log == log ==> AllSupported(other, key, log) {
      assert Run(OnlyRead(key, log), key, actions).log == log;
      SupportedIsCovered(key, log);
    }
  }

  lemma CoveredIsSupported(rotates: Rotation, key: Id, log: seq<Written>)
    requires Authorised(rotates, key, log) && forall i :: 0 <= i < |log| ==> Covered(log, log[i])
    ensures AllSupported(rotates, key, log)
  {
    forall i | 0 <= i < |log|
      ensures Supported(rotates, key, log[i])
    {
      assert Covered(log, log[i]);
    }
  }

  lemma SupportedIsCovered(key: Id, log: seq<Written>)
    requires AllSupported(OnlyRead(key, log), key, log)
    ensures forall i :: 0 <= i < |log| ==> Covered(log, log[i])
  {
    forall i | 0 <= i < |log|
      ensures Covered(log, log[i])
    {
      var w := log[i];
      assert Supported(OnlyRead(key, log), key, w);
      if w.replaced.Some? && w.replaced.value != w.value {
        assert InLog(log, w.value, w.replaced.value, w.signature);
        var j :| 0 <= j < |log| && log[j].value == w.value && log[j].read == w.replaced.value && log[j].signature == w.signature;
        assert Vouches(log[j], w);
      }
    }
  }

  // --- The handler ---

  ghost function Lookup(records: map<Id, Bytes>, key: Id): (r: Option<Bytes>)
  {
    if key in records then Some(records[key]) else None
  }

  /** The two steps of `rpc_update` on a replica: a read of what it finds, and a
      write over what the records have become. */
  lemma HandlerIsReadThenWrite(statusList: Id, records: map<Id, Bytes>, key: Id, value: Bytes, signature: Bytes,
                               crypto: Crypto, meanwhile: map<Id, Bytes>, fits: bool)
    requires key != statusList && Lookup(records, key) != Some(value)
    ensures var s := State(Lookup(records, key), map[], {}, [], []);
            var read := Step(crypto.rotates, key, s, Read(0, value, signature));
            var written := Step(crypto.rotates, key, read.(record := Lookup(meanwhile, key)), Write(0, fits));
            var after := AfterUpdate(statusList, records, key, value, signature, crypto, meanwhile, fits);
            && (read.tasks != map[] ==> Lookup(after, key) == written.record)
            && (UpdateAccepted(statusList, records, key, value, signature, crypto, meanwhile, fits) <==> written.log != [])
  {
    if key in records && crypto.rotates(key, value, records[key], signature) {
      var read := map[0 := Pending(value, signature, records[key])];
      assert 0 in read && read - {0} == map[];
    }
  }

  /** The two steps of an update begun here: it goes ahead exactly if the record read,
      this node's own or else the one found, is the new one or authorises it; with a
      quorum it writes over what the records have become, if there is room. */
  lemma UpdateIsPublishThenWrite(records: map<Id, Bytes>, key: Id, value: Bytes, signature: Bytes, rotates: Rotation,
                                 found: Bytes, meanwhile: map<Id, Bytes>, fits: bool)
    ensures var s := State(Lookup(records, key), map[], {}, [], []);
            var begun := Step(rotates, key, s, Publish(0, value, signature, found));
            var committed := Step(rotates, key, begun.(record := Lookup(meanwhile, key)), Write(0, fits));
            var stored := fits || Holds(meanwhile, key, value);
            && (begun.tasks != map[] <==>
                Verified(rotates, key, if key in records then records[key] else found, value, signature))
            && (begun.tasks != map[] ==>
                && committed.record == Lookup(if stored then meanwhile[key := value] else meanwhile, key)
                && (stored <==> committed.log == [Written(begun.tasks[0].read, Lookup(meanwhile, key), value, signature)]))
  {
    var read := if key in records then records[key] else found;
    var tasks := map[0 := Pending(value, signature, read)];
    assert 0 in tasks && tasks - {0} == map[];
  }

  /** An accepted update replaces a record that authorises it, if it replaces one. */
  ghost predicate ReplacesAuthorising(key: Id, value: Bytes, signature: Bytes, crypto: Crypto, meanwhile: map<Id, Bytes>)
  {
    key in meanwhile ==> Verified(crypto.rotates, key, meanwhile[key], value, signature)
  }

  function OnlyFrom(key: Id, from: Bytes, to: Bytes, signature: Bytes): (crypto: Crypto)
    ensures forall k, n, o, g :: crypto.rotates(k, n, o, g) <==> k == key && n == to && o == from && g == signature
  {
    Crypto((b: Bytes) => b, (k: Id, b: Bytes) => true, (k: Id, b: Bytes) => true,
           (k: Id, n: Bytes, o: Bytes, g: Bytes) => k == key && n == to && o == from && g == signature,
           (b: Bytes) => false)
  }

  /** For the handler: whatever the signature scheme, an update it accepts replaces a
      record that authorises it, if and only if the record at the write is gone, is
      the one that was read, or is the new one already. */
  lemma HandlerIff(statusList: Id, records: map<Id, Bytes>, key: Id, value: Bytes, signature: Bytes, meanwhile: map<Id, Bytes>)
    requires key != statusList && key in records && records[key] != value
    ensures (forall crypto: Crypto ::
               UpdateAccepted(statusList, records, key, value, signature, crypto, meanwhile, true) ==>
               ReplacesAuthorising(key, value, signature, crypto, meanwhile)) <==>
            Lookup(meanwhile, key) in {None, Some(value), Some(records[key])}
  {
    var crypto := OnlyFrom(key, records[key], value, signature);
    assert UpdateAccepted(statusList, records, key, value, signature, crypto, meanwhile, true);
    if Lookup(meanwhile, key) !in {None, Some(value), Some(records[key])} {
      assert !ReplacesAuthorising(key, value, signature, crypto, meanwhile);
    }
  }
}
