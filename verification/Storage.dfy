/**
 The record store under concurrent writers.

 A write holds its key for as long as it runs, but the byte counter is a
 separate atomic number: it is raised before the bytes are inserted and lowered
 after they are gone. A run interleaves the steps of any number of tasks with
 the passing of time.
 */
module Storage {
  import opened Nodes
  import opened Wire
  import opened Sums

  datatype Record = Record(value: Bytes, at: nat)

  datatype WriteStatus = Stored | AlreadyStored | Conflict | CapacityExceeded

  /** A write; `onlyIfAbsent` is `insert_if_absent`, otherwise `set`. */
  datatype Request = Request(key: Bytes, value: Bytes, onlyIfAbsent: bool)

  /** What a task is doing:
      holding its key, about to look at the entry;
      having reserved `extra` bytes, about to write;
      having written a shorter value, about to release the surplus;
      removing expired records, or about to release what they freed. */
  datatype Task =
    | Idle
    | Holding(req: Request)
    | Reserved(req: Request, extra: nat)
    | Surplus(req: Request, surplus: nat)
    | Pruning(freed: nat)
    | Pruned(freed: nat)
    | Finished(req: Request, status: WriteStatus)

  /** `ttl` is in nanoseconds; none disables expiry. */
  datatype State = State(
    data: map<Bytes, Record>,
    counter: nat,
    budget: nat,
    ttl: Option<nat>,
    now: nat,
    tasks: map<nat, Task>)

  predicate Expired(s: State, r: Record)
  {
    s.ttl.Some? && r.at + s.ttl.value < s.now
  }

  /** The key a task holds, if any. */
  predicate Locks(t: Task, key: Bytes)
  {
    (t.Holding? || t.Reserved? || t.Surplus?) && t.req.key == key
  }

  predicate Locked(s: State, key: Bytes)
  {
    exists t :: t in s.tasks && Locks(s.tasks[t], key)
  }

  function RecordBytes(key: Bytes, r: Record): (n: nat)
  {
    |key| + |r.value|
  }

  function Monus(a: nat, b: nat): (d: nat)
  {
    if a < b then 0 else a - b
  }

  datatype Action =
    | Begin(task: nat, req: Request)
    | Decide(task: nat)
    | Write(task: nat)
    | Release(task: nat)
    | StartPrune(task: nat)
    | PruneOne(task: nat, key: Bytes)
    | EndPrune(task: nat)
    | Tick(elapsed: nat)

  function WithTask(s: State, t: nat, task: Task): (after: State)
  {
    s.(tasks := s.tasks[t := task])
  }

  /** Raise the counter if the budget allows it, and go on to the write. */
  function Reserve(s: State, t: nat, req: Request, extra: nat): (after: State)
  {
    if extra == 0 || s.counter + extra <= s.budget then
      WithTask(s, t, Reserved(req, extra)).(counter := s.counter + extra)
    else WithTask(s, t, Finished(req, CapacityExceeded))
  }

  /** Look at the entry and decide: refuse, refresh, or reserve and write. */
  function DecideStep(s: State, t: nat, req: Request): (after: State)
  {
    if req.key !in s.data then Reserve(s, t, req, |req.key| + |req.value|)
    else
      var entry := s.data[req.key];
      if entry.value == req.value then
        WithTask(s, t, Finished(req, AlreadyStored)).(data := s.data[req.key := entry.(at := s.now)])
      else if req.onlyIfAbsent && !Expired(s, entry) then WithTask(s, t, Finished(req, Conflict))
      else Reserve(s, t, req, Monus(|req.value|, |entry.value|))
  }

  /** Insert or replace the value; a shorter one leaves a surplus to release. */
  function WriteStep(s: State, t: nat, req: Request): (after: State)
  {
    var surplus := if req.key in s.data then Monus(|s.data[req.key].value|, |req.value|) else 0;
    WithTask(s, t, if surplus == 0 then Finished(req, Stored) else Surplus(req, surplus))
      .(data := s.data[req.key := Record(req.value, s.now)])
  }

  function ReleaseStep(s: State, t: nat, task: Task): (after: State)
  {
    match task
    case Surplus(req, n) => WithTask(s, t, Finished(req, Stored)).(counter := Monus(s.counter, n))
    case Pruned(n) => WithTask(s, t, Idle).(counter := Monus(s.counter, n))
    case _ => s
  }

  /** One atomic step; an action that is not possible changes nothing. */
  function Step(s: State, a: Action): (after: State)
  {
    match a
    case Tick(elapsed) => s.(now := s.now + elapsed)
    case Begin(t, req) =>
      if (t !in s.tasks || s.tasks[t].Idle? || s.tasks[t].Finished?) && !Locked(s, req.key)
      then WithTask(s, t, Holding(req)) else s
    case Decide(t) =>
      if t in s.tasks && s.tasks[t].Holding? then DecideStep(s, t, s.tasks[t].req) else s
    case Write(t) =>
      if t in s.tasks && s.tasks[t].Reserved? then WriteStep(s, t, s.tasks[t].req) else s
    case Release(t) =>
      if t in s.tasks then ReleaseStep(s, t, s.tasks[t]) else s
    case StartPrune(t) =>
      if (t !in s.tasks || s.tasks[t].Idle? || s.tasks[t].Finished?) && s.ttl.Some?
      then WithTask(s, t, Pruning(0)) else s
    case PruneOne(t, key) =>
      if t in s.tasks && s.tasks[t].Pruning? && key in s.data && Expired(s, s.data[key]) && !Locked(s, key)
      then WithTask(s, t, Pruning(s.tasks[t].freed + RecordBytes(key, s.data[key]))).(data := s.data - {key})
      else s
    case EndPrune(t) =>
      if t in s.tasks && s.tasks[t].Pruning? then WithTask(s, t, Pruned(s.tasks[t].freed)) else s
  }

  // --- Accounting ---

  ghost function Weights(data: map<Bytes, Record>): (w: map<Bytes, nat>)
  {
    map key | key in data :: RecordBytes(key, data[key])
  }

  ghost function StoredBytes(data: map<Bytes, Record>): (n: nat)
  {
    Total(Weights(data))
  }

  /** Bytes reserved and not yet inserted, or gone and not yet released. */
  function PendingBytes(t: Task): (n: nat)
  {
    match t
    case Reserved(_, extra) => extra
    case Surplus(_, surplus) => surplus
    case Pruning(freed) => freed
    case Pruned(freed) => freed
    case _ => 0
  }

  ghost function Loads(tasks: map<nat, Task>): (w: map<nat, nat>)
  {
    map t | t in tasks :: PendingBytes(tasks[t])
  }

  ghost function PendingTotal(tasks: map<nat, Task>): (n: nat)
  {
    Total(Loads(tasks))
  }

  lemma StoredSet(data: map<Bytes, Record>, key: Bytes, r: Record)
    ensures StoredBytes(data[key := r]) ==
            StoredBytes(data) - (if key in data then RecordBytes(key, data[key]) else 0) + RecordBytes(key, r)
  {
    TotalSet(Weights(data), key, RecordBytes(key, r));
    assert Weights(data[key := r]) == Weights(data)[key := RecordBytes(key, r)];
  }

  lemma StoredRemove(data: map<Bytes, Record>, key: Bytes)
    requires key in data
    ensures StoredBytes(data - {key}) == StoredBytes(data) - RecordBytes(key, data[key])
  {
    TotalRemove(Weights(data), key);
    assert Weights(data - {key}) == Weights(data) - {key};
  }

  lemma PendingSet(tasks: map<nat, Task>, t: nat, task: Task)
    ensures PendingTotal(tasks[t := task]) ==
            PendingTotal(tasks) - (if t in tasks then PendingBytes(tasks[t]) else 0) + PendingBytes(task)
  {
    TotalSet(Loads(tasks), t, PendingBytes(task));
    assert Loads(tasks[t := task]) == Loads(tasks)[t := PendingBytes(task)];
  }

  ghost predicate Balanced(s: State)
  {
    s.counter == StoredBytes(s.data) + PendingTotal(s.tasks) <= s.budget
  }

  /** No key is held by two tasks. */
  ghost predicate Exclusive(s: State)
  {
    forall t, u, key :: t in s.tasks && u in s.tasks && Locks(s.tasks[t], key) && Locks(s.tasks[u], key) ==> t == u
  }

  /** What a task about to write, or about to release a surplus, may rely on:
      nobody else touches the key it holds. */
  ghost predicate TaskOk(s: State, task: Task)
  {
    match task
    case Reserved(req, extra) =>
      if req.key !in s.data then extra == |req.key| + |req.value|
      else
        && s.data[req.key].value != req.value
        && extra == Monus(|req.value|, |s.data[req.key].value|)
        && (req.onlyIfAbsent ==> Expired(s, s.data[req.key]))
    case Surplus(req, _) => req.key in s.data && s.data[req.key].value == req.value
    case _ => true
  }

  ghost predicate TasksOk(s: State)
  {
    forall t :: t in s.tasks ==> TaskOk(s, s.tasks[t])
  }

  ghost predicate StateOk(s: State)
  {
    Balanced(s) && Exclusive(s) && TasksOk(s)
  }

  // --- Every step keeps the accounts ---

  lemma ReserveBalanced(s: State, t: nat, req: Request, extra: nat)
    requires Balanced(s) && t in s.tasks && s.tasks[t].Holding?
    ensures Balanced(Reserve(s, t, req, extra))
  {
    PendingSet(s.tasks, t, Reserved(req, extra));
    PendingSet(s.tasks, t, Finished(req, CapacityExceeded));
  }

  lemma DecideBalanced(s: State, t: nat)
    requires Balanced(s) && t in s.tasks && s.tasks[t].Holding?
    ensures Balanced(DecideStep(s, t, s.tasks[t].req))
  {
    var req := s.tasks[t].req;
    if req.key !in s.data {
      ReserveBalanced(s, t, req, |req.key| + |req.value|);
    } else {
      var entry := s.data[req.key];
      PendingSet(s.tasks, t, Finished(req, AlreadyStored));
      PendingSet(s.tasks, t, Finished(req, Conflict));
      StoredSet(s.data, req.key, entry.(at := s.now));
      ReserveBalanced(s, t, req, Monus(|req.value|, |entry.value|));
    }
  }

  lemma WriteBalanced(s: State, t: nat)
    requires Balanced(s) && t in s.tasks && s.tasks[t].Reserved? && TaskOk(s, s.tasks[t])
    ensures Balanced(WriteStep(s, t, s.tasks[t].req))
  {
    var req := s.tasks[t].req;
    var after := WriteStep(s, t, req);
    StoredSet(s.data, req.key, Record(req.value, s.now));
    PendingSet(s.tasks, t, after.tasks[t]);
  }

  /** The counter always covers what a task has still to release. */
  lemma PendingCovered(s: State, t: nat)
    requires Balanced(s) && t in s.tasks
    ensures PendingBytes(s.tasks[t]) <= s.counter
  {
    TotalRemove(Loads(s.tasks), t);
  }

  lemma ReleaseBalanced(s: State, t: nat)
    requires Balanced(s) && t in s.tasks
    ensures Balanced(ReleaseStep(s, t, s.tasks[t]))
  {
    PendingCovered(s, t);
    PendingSet(s.tasks, t, Idle);
    if s.tasks[t].Surplus? {
      PendingSet(s.tasks, t, Finished(s.tasks[t].req, Stored));
    }
  }

  lemma PruneBalanced(s: State, t: nat, key: Bytes)
    requires Balanced(s) && t in s.tasks && s.tasks[t].Pruning?
    ensures Balanced(Step(s, PruneOne(t, key))) && Balanced(Step(s, EndPrune(t)))
  {
    PendingSet(s.tasks, t, Pruned(s.tasks[t].freed));
    if key in s.data {
      PendingSet(s.tasks, t, Pruning(s.tasks[t].freed + RecordBytes(key, s.data[key])));
      StoredRemove(s.data, key);
    }
  }

  lemma StartBalanced(s: State, t: nat, req: Request)
    requires Balanced(s)
    ensures Balanced(Step(s, Begin(t, req))) && Balanced(Step(s, StartPrune(t)))
  {
    PendingSet(s.tasks, t, Holding(req));
    PendingSet(s.tasks, t, Pruning(0));
  }

  lemma StepBalanced(s: State, a: Action)
    requires StateOk(s)
    ensures Balanced(Step(s, a))
  {
    match a
    case Tick(_) =>
    case Begin(t, req) => StartBalanced(s, t, req);
    case Decide(t) => if t in s.tasks && s.tasks[t].Holding? { DecideBalanced(s, t); }
    case Write(t) => if t in s.tasks && s.tasks[t].Reserved? { WriteBalanced(s, t); }
    case Release(t) => if t in s.tasks { ReleaseBalanced(s, t); }
    case StartPrune(t) => StartBalanced(s, t, Request([], [], false));
    case PruneOne(t, key) => if t in s.tasks && s.tasks[t].Pruning? { PruneBalanced(s, t, key); }
    case EndPrune(t) => if t in s.tasks && s.tasks[t].Pruning? { PruneBalanced(s, t, []); }
  }

  /** The task whose step this is, if any. */
  function Actor(a: Action): (t: Option<nat>)
  {
    match a
    case Tick(_) => None
    case Begin(t, _) => Some(t)
    case Decide(t) => Some(t)
    case Write(t) => Some(t)
    case Release(t) => Some(t)
    case StartPrune(t) => Some(t)
    case PruneOne(t, _) => Some(t)
    case EndPrune(t) => Some(t)
  }

  /** A step changes no task but its actor's, and lets the actor hold no key it
      did not hold, unless nobody held it. */
  lemma StepTasks(s: State, a: Action)
    ensures forall u :: u in s.tasks && Actor(a) != Some(u) ==> u in Step(s, a).tasks && Step(s, a).tasks[u] == s.tasks[u]
    ensures forall u :: u in Step(s, a).tasks && Actor(a) != Some(u) ==> u in s.tasks
    ensures forall u, key :: u in Step(s, a).tasks && Locks(Step(s, a).tasks[u], key) ==>
              (u in s.tasks && Locks(s.tasks[u], key)) || !Locked(s, key)
  {
  }

  lemma StepExclusive(s: State, a: Action)
    requires Exclusive(s)
    ensures Exclusive(Step(s, a))
  {
    StepTasks(s, a);
  }

  /** Records under a key held by another task stay as they are. */
  lemma StepData(s: State, a: Action, u: nat, key: Bytes)
    requires Exclusive(s) && u in s.tasks && Actor(a) != Some(u) && Locks(s.tasks[u], key)
    ensures key in Step(s, a).data <==> key in s.data
    ensures key in s.data ==> Step(s, a).data[key] == s.data[key]
  {
  }

  /** Nobody disturbs what a task other than the actor relies on. */
  lemma OtherTaskOk(s: State, a: Action, u: nat)
    requires Exclusive(s) && u in s.tasks && TaskOk(s, s.tasks[u]) && Actor(a) != Some(u)
    ensures TaskOk(Step(s, a), s.tasks[u])
  {
    var task := s.tasks[u];
    if task.Reserved? || task.Surplus? {
      StepData(s, a, u, task.req.key);
    }
  }

  lemma ActorTaskOk(s: State, a: Action, u: nat)
    requires Actor(a) == Some(u) && u in Step(s, a).tasks
    requires u in s.tasks ==> TaskOk(s, s.tasks[u])
    ensures TaskOk(Step(s, a), Step(s, a).tasks[u])
  {
  }

  lemma StepTaskOk(s: State, a: Action, u: nat)
    requires StateOk(s) && u in Step(s, a).tasks
    ensures TaskOk(Step(s, a), Step(s, a).tasks[u])
  {
    if Actor(a) == Some(u) {
      ActorTaskOk(s, a, u);
    } else {
      StepTasks(s, a);
      OtherTaskOk(s, a, u);
    }
  }

  /** Under every interleaving of writers, pruning and time, the counter equals
      the bytes stored, plus reservations not yet inserted, plus bytes gone and
      not yet released, and never exceeds the budget. */
  lemma {:induction false} StepOk(s: State, a: Action)
    requires StateOk(s)
    ensures StateOk(Step(s, a))
  {
    StepBalanced(s, a);
    StepExclusive(s, a);
    forall u | u in Step(s, a).tasks
      ensures TaskOk(Step(s, a), Step(s, a).tasks[u])
    {
      StepTaskOk(s, a, u);
    }
  }

  function Run(s: State, actions: seq<Action>): (after: State)
  {
    if actions == [] then s else Step(Run(s, actions[..|actions| - 1]), actions[|actions| - 1])
  }

  function NewStore(budget: nat, ttl: Option<nat>): (s: State)
  {
    State(map[], 0, budget, ttl, 0, map[])
  }

  lemma {:induction false} EveryRunOk(budget: nat, ttl: Option<nat>, actions: seq<Action>)
    ensures StateOk(Run(NewStore(budget, ttl), actions))
  {
    if actions == [] {
      assert Weights(map[]) == map[] && Loads(map[]) == map[];
    } else {
      var last := |actions| - 1;
      EveryRunOk(budget, ttl, actions[..last]);
      StepOk(Run(NewStore(budget, ttl), actions[..last]), actions[last]);
    }
  }

  /** Releasing never takes the counter below zero. */
  lemma NoUnderflow(budget: nat, ttl: Option<nat>, actions: seq<Action>, t: nat)
    requires t in Run(NewStore(budget, ttl), actions).tasks
    ensures PendingBytes(Run(NewStore(budget, ttl), actions).tasks[t]) <= Run(NewStore(budget, ttl), actions).counter
  {
    EveryRunOk(budget, ttl, actions);
    PendingCovered(Run(NewStore(budget, ttl), actions), t);
  }

  // --- What a write may change, and what its status means ---

  /** A live record is replaced by a different value only by a `set`; an
      `insert_if_absent` never changes one, and only expiry removes one. */
  lemma LiveRecordsChange(s: State, a: Action, key: Bytes)
    requires StateOk(s) && key in s.data && !Expired(s, s.data[key])
    ensures key in Step(s, a).data
    ensures Step(s, a).data[key].value != s.data[key].value ==>
              a.Write? && a.task in s.tasks && s.tasks[a.task].Reserved?
              && s.tasks[a.task].req.key == key && !s.tasks[a.task].req.onlyIfAbsent
  {
  }

  /** When a write ends as stored or already stored, the store holds exactly its
      bytes; when it ends otherwise, it changed no value. */
  lemma StatusMeaning(s: State, a: Action, t: nat)
    requires StateOk(s) && t in s.tasks && !s.tasks[t].Finished?
    requires t in Step(s, a).tasks && Step(s, a).tasks[t].Finished?
    ensures var (req, status) := (Step(s, a).tasks[t].req, Step(s, a).tasks[t].status);
            if status == Stored || status == AlreadyStored then
              req.key in Step(s, a).data && Step(s, a).data[req.key].value == req.value
            else Step(s, a).data == s.data
  {
    StepTasks(s, a);
    assert TaskOk(s, s.tasks[t]);
  }
}
