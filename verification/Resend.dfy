/**
 One request over UDP: when it is sent again, and which round trips it measures.

 The loop waits for the answer, a receipt or its timer, whichever comes first.
 A run is any sequence of these events with times that never go back; timers
 may fire late. Times are in nanoseconds.
 */
module Resends {
  import opened Nodes
  import opened Messages
  import opened RoundTrips

  const RPC_TIMEOUT: nat := 2500 * MILLISECOND
  const MAX_RESENDS: nat := 2

  /** `estimate` is the wait the round-trip table gives at that moment. */
  datatype CallEvent =
    | Answered(at: nat)
    | Receipt(at: nat, estimate: nat)
    | Timer(at: nat)

  /** A round-trip sample, and how many copies had been sent when it was taken. */
  datatype Sample = Sample(roundTrip: nat, copies: nat)

  datatype Call = Call(
    answerMeasures: bool,
    getsReceipts: bool,
    firstSent: nat,
    wait: nat,
    nextSend: nat,
    resends: nat,
    receipts: nat,
    now: nat,
    sends: seq<nat>,
    samples: seq<Sample>,
    over: bool)

  function Deadline(c: Call): (t: nat)
  {
    c.firstSent + RPC_TIMEOUT
  }

  /** The request has just been sent. */
  function Begin(message: RpcMessage, at: nat, estimate: nat): (c: Call)
  {
    BeginWith(CarriedRecord(message).None?, AfterReceipt(ForRequest(message)), at, estimate)
  }

  /** A call that measures its answer or not, and gets receipts or not. */
  function BeginWith(answerMeasures: bool, getsReceipts: bool, at: nat, estimate: nat): (c: Call)
  {
    Call(answerMeasures, getsReceipts, at, estimate, at + estimate, 0, 0, at, [at], [], false)
  }

  function Measured(c: Call, at: nat): (samples: seq<Sample>)
    requires c.firstSent <= at
  {
    c.samples + [Sample(at - c.firstSent, |c.sends|)]
  }

  /** One turn of the loop. An event before the last one, after the call is
      over, or a timer not yet due, changes nothing; nor does a receipt for a
      request that gets none. */
  function Step(c: Call, e: CallEvent): (after: Call)
  {
    if c.over || e.at < c.now || e.at < c.firstSent then c
    else
      match e
      case Answered(at) =>
        c.(now := at, over := true,
           samples := if c.answerMeasures && c.resends == 0 then Measured(c, at) else c.samples)
      case Receipt(at, estimate) =>
        if !c.getsReceipts then c
        else
          var wait := if c.receipts == 0 then estimate * 2 else c.wait * 2;
          c.(now := at, receipts := c.receipts + 1, wait := wait, nextSend := at + wait,
             samples := if c.receipts == 0 && c.resends == 0 then Measured(c, at) else c.samples)
      case Timer(at) =>
        if at < c.nextSend && at < Deadline(c) then c
        else if Deadline(c) <= at then c.(now := at, over := true)
        else if c.resends == MAX_RESENDS then c.(now := at, nextSend := Deadline(c))
        else
          c.(now := at, resends := c.resends + 1, sends := c.sends + [at],
             wait := c.wait * 2, nextSend := at + c.wait * 2)
  }

  function Run(c: Call, events: seq<CallEvent>): (after: Call)
  {
    if events == [] then c else Step(Run(c, events[..|events| - 1]), events[|events| - 1])
  }

  /** The copies are at least 20 ms apart and none is sent at the deadline or
      later. */
  ghost predicate SendsOk(c: Call)
  {
    && |c.sends| == c.resends + 1 <= 1 + MAX_RESENDS
    && c.sends[0] == c.firstSent
    && (forall i :: 0 <= i < |c.sends| ==> c.sends[i] < Deadline(c))
    && (forall i, j :: 0 <= i < j < |c.sends| ==> c.sends[i] + MIN_RESEND_AFTER <= c.sends[j])
  }

  /** At most one sample, taken while one copy had been sent. */
  ghost predicate SamplesOk(c: Call)
  {
    && |c.samples| <= 1
    && (forall s :: s in c.samples ==> s.copies == 1)
  }

  ghost predicate CallOk(c: Call)
  {
    && SendsOk(c) && SamplesOk(c)
    && MIN_RESEND_AFTER <= c.wait && c.sends[c.resends] <= c.now
    && (c.resends < MAX_RESENDS ==> c.sends[c.resends] + MIN_RESEND_AFTER <= c.nextSend)
    && (c.samples != [] ==> c.over || c.receipts > 0)
    && (c.receipts > 0 ==> c.getsReceipts)
    && !(c.answerMeasures && c.getsReceipts)
  }

  lemma BeginOk(message: RpcMessage, at: nat, estimate: nat)
    requires MIN_RESEND_AFTER <= estimate
    ensures CallOk(Begin(message, at, estimate))
  {
    ReceiptsCoincide(message);
  }

  ghost predicate EstimatesOk(events: seq<CallEvent>)
  {
    forall i :: 0 <= i < |events| && events[i].Receipt? ==> MIN_RESEND_AFTER <= events[i].estimate
  }

  lemma StepOk(c: Call, e: CallEvent)
    requires CallOk(c) && (e.Receipt? ==> MIN_RESEND_AFTER <= e.estimate)
    ensures CallOk(Step(c, e))
  {
    StepSends(c, e);
  }

  lemma StepSends(c: Call, e: CallEvent)
    requires CallOk(c)
    ensures SendsOk(Step(c, e))
  {
  }

  /** In every run, one call sends at most three copies, at least 20 ms apart and
      none at its deadline or later, and adds at most one round-trip sample,
      taken while a single copy was out (Karn's algorithm, section 3 of RFC
      6298). */
  lemma EveryRunOk(message: RpcMessage, at: nat, estimate: nat, events: seq<CallEvent>)
    requires MIN_RESEND_AFTER <= estimate && EstimatesOk(events)
    ensures CallOk(Run(Begin(message, at, estimate), events))
    ensures |Run(Begin(message, at, estimate), events).sends| <= 3
  {
    BeginOk(message, at, estimate);
    RunOk(Begin(message, at, estimate), events);
  }

  /** As long as no receipt arrives, the wait doubles with every copy. */
  ghost predicate Spread(c: Call, estimate: nat)
  {
    && c.receipts == 0 && c.resends <= MAX_RESENDS && |c.sends| == c.resends + 1 && c.sends[0] == c.firstSent
    && (c.resends == 0 ==> c.wait == estimate && c.nextSend == c.firstSent + estimate)
    && (c.resends == 1 ==> c.wait == 2 * estimate && c.nextSend == c.sends[1] + 2 * estimate)
    && (c.resends >= 1 ==> c.firstSent + estimate <= c.sends[1])
    && (c.resends >= 2 ==> c.sends[1] + 2 * estimate <= c.sends[2])
  }

  lemma {:induction false} CopiesSpread(message: RpcMessage, at: nat, estimate: nat, events: seq<CallEvent>)
    requires forall i :: 0 <= i < |events| ==> !events[i].Receipt?
    ensures Spread(Run(Begin(message, at, estimate), events), estimate)
  {
    if events != [] {
      CopiesSpread(message, at, estimate, events[..|events| - 1]);
    }
  }

  lemma {:induction false} RunOk(c: Call, events: seq<CallEvent>)
    requires CallOk(c) && EstimatesOk(events)
    ensures CallOk(Run(c, events))
  {
    if events != [] {
      var last := |events| - 1;
      RunOk(c, events[..last]);
      StepOk(Run(c, events[..last]), events[last]);
    }
  }

  /** What if the two tables did not agree: a call adds at most one sample in every
      run exactly if it does not both get receipts and measure its answer. No
      request begins a call that does (see `ReceiptsCoincide`). */
  lemma OneSampleIff(answerMeasures: bool, getsReceipts: bool, at: nat, estimate: nat)
    requires MIN_RESEND_AFTER <= estimate
    ensures (forall events :: EstimatesOk(events) ==>
               |Run(BeginWith(answerMeasures, getsReceipts, at, estimate), events).samples| <= 1) <==>
            !(answerMeasures && getsReceipts)
  {
    var c := BeginWith(answerMeasures, getsReceipts, at, estimate);
    if answerMeasures && getsReceipts {
      var events := [Receipt(at, estimate), Answered(at)];
      assert events[..1] == [Receipt(at, estimate)] && events[..1][..0] == [];
      assert Run(c, events[..1]) == Step(c, Receipt(at, estimate));
      assert EstimatesOk(events) && |Run(c, events).samples| == 2;
    } else {
      forall events | EstimatesOk(events)
        ensures |Run(c, events).samples| <= 1
      {
        RunOk(c, events);
      }
    }
  }

  /** The variables of the loop, updated by each event. */
  class ResendLoop {
    const answerMeasures: bool
    const getsReceipts: bool
    const firstSent: nat
    const deadline: nat
    var wait: nat
    var nextSend: nat
    var resends: nat
    var receipts: nat
    var now: nat
    var sends: seq<nat>
    var samples: seq<Sample>
    var over: bool

    ghost function View(): (c: Call)
      reads this
    {
      Call(answerMeasures, getsReceipts, firstSent, wait, nextSend, resends, receipts, now, sends, samples, over)
    }

    ghost predicate Valid()
      reads this
    {
      deadline == Deadline(View()) && firstSent <= now
    }

    constructor (message: RpcMessage, at: nat, estimate: nat)
      ensures Valid() && View() == Begin(message, at, estimate)
    {
      answerMeasures := CarriedRecord(message).None?;
      getsReceipts := AfterReceipt(ForRequest(message));
      firstSent, deadline := at, at + RPC_TIMEOUT;
      wait, nextSend := estimate, at + estimate;
      resends, receipts, now := 0, 0, at;
      sends, samples, over := [at], [], false;
    }

    method OnAnswer(at: nat)
      requires Valid() && !over && now <= at
      modifies this
      ensures Valid() && View() == Step(old(View()), Answered(at))
    {
      if answerMeasures && resends == 0 {
        samples := samples + [Sample(at - firstSent, |sends|)];
      }
      now, over := at, true;
    }

    method OnReceipt(at: nat, estimate: nat)
      requires Valid() && !over && now <= at
      modifies this
      ensures Valid() && View() == Step(old(View()), Receipt(at, estimate))
    {
      if !getsReceipts {
        return;
      }
      receipts := receipts + 1;
      if receipts == 1 {
        if resends == 0 {
          samples := samples + [Sample(at - firstSent, |sends|)];
        }
        wait := estimate * 2;
      } else {
        wait := wait * 2;
      }
      now, nextSend := at, at + wait;
    }

    method OnTimer(at: nat)
      requires Valid() && !over && now <= at
      modifies this
      ensures Valid() && View() == Step(old(View()), Timer(at))
    {
      if at < nextSend && at < deadline {
        return;
      }
      now := at;
      if deadline <= at {
        over := true;
        return;
      }
      if resends == MAX_RESENDS {
        nextSend := deadline;
        return;
      }
      resends := resends + 1;
      sends := sends + [at];
      wait := wait * 2;
      nextSend := at + wait;
    }
  }

  /** The loop on the events of one call. */
  method RunCall(message: RpcMessage, at: nat, estimate: nat, events: seq<CallEvent>)
    returns (sends: seq<nat>, samples: seq<Sample>)
    requires MIN_RESEND_AFTER <= estimate && EstimatesOk(events)
    ensures var c := Run(Begin(message, at, estimate), events);
            sends == c.sends && samples == c.samples
    ensures 1 <= |sends| <= 3 && |samples| <= 1
  {
    var loop := new ResendLoop(message, at, estimate);
    var i := 0;
    while i < |events|
      invariant 0 <= i <= |events| && fresh(loop) && loop.Valid()
      invariant loop.View() == Run(Begin(message, at, estimate), events[..i])
    {
      assert events[..i + 1][..i] == events[..i];
      var e := events[i];
      if !loop.over && loop.now <= e.at {
        match e {
          case Answered(t) => loop.OnAnswer(t);
          case Receipt(t, again) => loop.OnReceipt(t, again);
          case Timer(t) => loop.OnTimer(t);
        }
      }
      i := i + 1;
    }
    assert events[..i] == events;
    EveryRunOk(message, at, estimate, events);
    return loop.sends, loop.samples;
  }
}
