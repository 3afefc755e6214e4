/**
 The smoothed round-trip estimate of a peer, in whole nanoseconds.

 Each division truncates, so the estimate drifts below the exact filter of
 sections 2.2 and 2.3 of RFC 6298; the lemmas show that the drift never
 accumulates beyond a fixed number of nanoseconds, however many samples arrive.
 */
module RoundTrips {
  import opened Nodes
  import opened Reassembly

  const MILLISECOND: nat := 1_000_000
  const INITIAL_RESEND_AFTER: nat := 500 * MILLISECOND
  const MIN_RESEND_AFTER: nat := 20 * MILLISECOND
  const MAX_RESEND_AFTER: nat := 1000 * MILLISECOND
  const FORGET_AFTER: nat := 600_000 * MILLISECOND

  datatype RoundTrip = RoundTrip(smoothed: nat, variation: nat)

  function AbsDiff(a: nat, b: nat): (d: nat)
  {
    if a < b then b - a else a - b
  }

  function First(sample: nat): (r: RoundTrip)
  {
    RoundTrip(sample, sample / 2)
  }

  /** The next estimate, with weights 1/8 and 1/4. */
  function Smooth(r: RoundTrip, sample: nat): (after: RoundTrip)
  {
    RoundTrip(r.smoothed * 7 / 8 + sample / 8,
              r.variation * 3 / 4 + AbsDiff(r.smoothed, sample) / 4)
  }

  function Estimate(samples: seq<nat>): (r: RoundTrip)
    requires samples != []
  {
    if |samples| == 1 then First(samples[0])
    else Smooth(Estimate(samples[..|samples| - 1]), samples[|samples| - 1])
  }

  // --- The exact filter ---

  function AbsReal(x: real): (y: real)
  {
    if x < 0.0 then -x else x
  }

  /** Smoothed round trip and variation without rounding. */
  function Exact(samples: seq<nat>): (r: (real, real))
    requires samples != []
  {
    var last := samples[|samples| - 1] as real;
    if |samples| == 1 then (last, last / 2.0)
    else
      var (s, v) := Exact(samples[..|samples| - 1]);
      (s * 7.0 / 8.0 + last / 8.0, v * 3.0 / 4.0 + AbsReal(s - last) / 4.0)
  }

  ghost predicate Close(r: RoundTrip, exact: (real, real))
  {
    && exact.0 - 14.0 <= r.smoothed as real <= exact.0
    && exact.1 - 20.0 <= r.variation as real <= exact.1 + 14.0
  }

  lemma SmoothStaysClose(r: RoundTrip, s: real, v: real, sample: nat)
    requires Close(r, (s, v))
    ensures Close(Smooth(r, sample),
                  (s * 7.0 / 8.0 + sample as real / 8.0, v * 3.0 / 4.0 + AbsReal(s - sample as real) / 4.0))
  {
  }

  /** For every sequence of samples, the integer estimate stays within 14
      nanoseconds of the exact smoothed round trip, and within 20 of the exact
      variation. */
  lemma {:induction false} EstimateIsClose(samples: seq<nat>)
    requires samples != []
    ensures Close(Estimate(samples), Exact(samples))
    decreases |samples|
  {
    var last := samples[|samples| - 1];
    if |samples| == 1 {
      var h := last / 2;
      assert 2 * h <= last <= 2 * h + 1;
      assert (2 * h) as real <= last as real <= (2 * h + 1) as real;
    } else {
      var front := samples[..|samples| - 1];
      EstimateIsClose(front);
      SmoothStaysClose(Estimate(front), Exact(front).0, Exact(front).1, last);
    }
  }

  /** The smoothed value stays within the range of the samples, less 14. */
  lemma {:induction false} EstimateInRange(samples: seq<nat>, least: nat, most: nat)
    requires samples != [] && forall i :: 0 <= i < |samples| ==> least <= samples[i] <= most
    ensures least - 14 <= Estimate(samples).smoothed <= most
    decreases |samples|
  {
    if |samples| > 1 {
      var front := samples[..|samples| - 1];
      assert forall i :: 0 <= i < |front| ==> front[i] == samples[i];
      EstimateInRange(front, least, most);
    }
  }

  // --- The wait before a copy ---

  function Clamp(x: nat): (y: nat)
    ensures MIN_RESEND_AFTER <= y <= MAX_RESEND_AFTER
  {
    if x < MIN_RESEND_AFTER then MIN_RESEND_AFTER
    else if MAX_RESEND_AFTER < x then MAX_RESEND_AFTER
    else x
  }

  /** Three round trips, or more if they vary a lot. */
  function WaitFor(r: RoundTrip): (w: nat)
    ensures MIN_RESEND_AFTER <= w <= MAX_RESEND_AFTER
  {
    var a, b := r.smoothed * 3, r.smoothed + r.variation * 4;
    Clamp(if a < b then b else a)
  }

  function ExactWait(s: real, v: real): (w: real)
  {
    var a, b := s * 3.0, s + v * 4.0;
    var w := if a < b then b else a;
    var lo, hi := MIN_RESEND_AFTER as real, MAX_RESEND_AFTER as real;
    if w < lo then lo else if hi < w then hi else w
  }

  /** Rounding moves the wait by less than a tenth of a microsecond. */
  lemma WaitIsClose(samples: seq<nat>)
    requires samples != []
    ensures var (s, v) := Exact(samples);
            ExactWait(s, v) - 94.0 <= WaitFor(Estimate(samples)) as real <= ExactWait(s, v) + 56.0
  {
    EstimateIsClose(samples);
    var r := Estimate(samples);
    var (s, v) := Exact(samples);
    assert (r.smoothed * 3) as real == 3.0 * (r.smoothed as real);
    assert (r.smoothed + r.variation * 4) as real == r.smoothed as real + 4.0 * (r.variation as real);
  }

  // --- The table of peers ---

  datatype Measured = Measured(roundTrip: RoundTrip, updated: nat)

  class RoundTripTable {
    const capacity: nat
    var peers: map<Peer, Measured>

    ghost predicate Valid()
      reads this
    {
      |peers| <= capacity
    }

    constructor (capacity: nat)
      ensures Valid() && this.capacity == capacity && peers == map[]
    {
      this.capacity := capacity;
      peers := map[];
    }

    /** How long to wait for an answer from `peer` before sending again. */
    function ResendAfter(peer: Peer): (w: nat)
      reads this
      ensures MIN_RESEND_AFTER <= w <= MAX_RESEND_AFTER
    {
      if peer in peers then WaitFor(peers[peer].roundTrip) else INITIAL_RESEND_AFTER
    }

    /** `peer` answered a request sent once, after `sample`. A full table makes
        room by forgetting peers not heard from for ten minutes, and otherwise
        leaves a new peer out; it never loses a peer heard from lately. */
    method Record(peer: Peer, sample: nat, now: nat)
      requires Valid()
      modifies this`peers
      ensures Valid()
      ensures peer in old(peers) ==>
                peers == old(peers)[peer := Measured(Smooth(old(peers)[peer].roundTrip, sample), now)]
      ensures peer !in old(peers) && peer in peers ==> peers[peer] == Measured(First(sample), now)
      ensures forall p :: p in old(peers) && p != peer && now < old(peers)[p].updated + FORGET_AFTER ==>
                p in peers && peers[p] == old(peers)[p]
      ensures forall p :: p in peers && p != peer ==> p in old(peers) && peers[p] == old(peers)[p]
      ensures peer !in peers ==>
                capacity <= |peers| && forall p :: p in peers ==> now < peers[p].updated + FORGET_AFTER
    {
      if peer in peers {
        assert (peers[peer := Measured(Smooth(peers[peer].roundTrip, sample), now)]).Keys == peers.Keys;
        peers := peers[peer := Measured(Smooth(peers[peer].roundTrip, sample), now)];
        return;
      }
      if |peers| >= capacity {
        var kept := map p | p in peers && now < peers[p].updated + FORGET_AFTER :: peers[p];
        assert kept.Keys <= peers.Keys;
        SubsetKeys(kept.Keys, peers.Keys);
        peers := kept;
        if |peers| >= capacity {
          return;
        }
      }
      var added := peers[peer := Measured(First(sample), now)];
      assert added.Keys == peers.Keys + {peer};
      peers := added;
    }

    static lemma SubsetKeys(a: set<Peer>, b: set<Peer>)
      requires a <= b
      ensures |a| <= |b|
    {
      assert b == a + (b - a);
    }
  }
}
