/** A message comes out of reassembly byte for byte when its last missing
    fragment arrives, and nothing else ever comes out in its place. */
module Delivery {
  import opened Nodes
  import opened Selection
  import opened Wire
  import opened Fragments
  import opened Reassembly

  /** The buffer an event is about, if any. */
  function KeyOf(e: Event): (key: Option<Key>)
  {
    match e
    case Evict(_) => None
    case Arrive(peer, data) =>
      match ParseFragment(data)
      case None => None
      case Some(f) => Some((peer, f.fragId))
  }

  function IndexOf(e: Event): (i: nat)
    requires KeyOf(e).Some?
  {
    ParseFragment(e.data).value.index
  }

  /** Every datagram under this sender and fragment id is a fragment of this one
      payload: the sender does not reuse the id. Anything may arrive under other
      keys. */
  ghost predicate Genuine(e: Event, key: Key, payload: Bytes)
    requires key.1 < 0x1_0000_0000
  {
    KeyOf(e) == Some(key) ==> e.data in FragmentsOf(key.1, payload)
  }

  ghost predicate AllGenuine(events: seq<Event>, key: Key, payload: Bytes)
    requires key.1 < 0x1_0000_0000
  {
    forall i :: 0 <= i < |events| ==> Genuine(events[i], key, payload)
  }

  /** The buffer of the message holds only its own chunks. */
  ghost predicate GenuineMap(m: map<Key, Entry>, key: Key, payload: Bytes)
  {
    key in m ==> GenuineEntry(m[key], payload)
  }

  ghost predicate GenuineEntry(e: Entry, payload: Bytes)
  {
    var n := ChunkCount(|payload|);
    && EntryOk(e) && e.total == n
    && forall i :: 0 <= i < n && e.chunks[i].Some? ==> e.chunks[i].value == Chunk(payload, i)
  }

  /** What a genuine fragment says. */
  lemma {:induction false} GenuineParts(e: Event, key: Key, payload: Bytes)
    requires key.1 < 0x1_0000_0000 && KeyOf(e) == Some(key) && Genuine(e, key, payload)
    requires 1 <= ChunkCount(|payload|) < 0x1_0000
    ensures var n := ChunkCount(|payload|);
            IndexOf(e) < n && ParseFragment(e.data) ==
              Some(Fragment(key.1, IndexOf(e), n, Chunk(payload, IndexOf(e))))
  {
    var ds := FragmentsOf(key.1, payload);
    var n := ChunkCount(|payload|);
    var i :| 0 <= i < |ds| && ds[i] == e.data;
    ParseDatagram(key.1, i, n, Chunk(payload, i));
  }

  /** Events about other buffers leave this one alone. */
  lemma {:induction false} OtherKeys(m: map<Key, Entry>, e: Event, key: Key)
    requires KeyOf(e) != Some(key) && (e.Evict? ==> key !in e.keys)
    ensures key in Next(m, e) <==> key in m
    ensures key in m ==> Next(m, e)[key] == m[key]
  {
  }

  lemma {:induction false} AssembledGenuine(chunks: seq<Option<Bytes>>, payload: Bytes)
    requires |chunks| <= ChunkCount(|payload|)
    requires forall i :: 0 <= i < |chunks| ==> chunks[i] == Some(Chunk(payload, i))
    ensures Assembled(chunks) == Some(Joined(payload, |chunks|))
  {
    if chunks != [] {
      AssembledGenuine(chunks[..|chunks| - 1], payload);
    }
  }

  lemma {:induction false} FilledIsFull(chunks: seq<Option<Bytes>>)
    ensures Filled(chunks) == |chunks| <==> forall i :: 0 <= i < |chunks| ==> chunks[i].Some?
  {
    if chunks != [] {
      var front := chunks[..|chunks| - 1];
      FilledIsFull(front);
      assert forall i :: 0 <= i < |front| ==> front[i] == chunks[i];
    }
  }

  /** Putting a genuine chunk into a genuine buffer. */
  lemma {:induction false} GenuineInsert(e: Entry, payload: Bytes, i: nat)
    requires GenuineEntry(e, payload) && i < e.total
    ensures var (after, complete) := InsertChunk(e, i, Chunk(payload, i));
            && after.chunks == e.chunks[i := Some(Chunk(payload, i))]
            && (complete <==> forall j :: 0 <= j < e.total ==> after.chunks[j].Some?)
            && (complete ==> Assembled(after.chunks) == Some(payload))
            && (!complete ==> GenuineEntry(after, payload))
  {
    var (after, complete) := InsertChunk(e, i, Chunk(payload, i));
    InsertOk(e, i, Chunk(payload, i));
    FilledIsFull(after.chunks);
    if complete {
      AssembledGenuine(after.chunks, payload);
      JoinedAll(payload);
    }
  }

  lemma {:induction false} GenuineNewEntry(payload: Bytes)
    requires 1 <= ChunkCount(|payload|) <= MAX_FRAGMENTS
    ensures GenuineEntry(NewEntry(ChunkCount(|payload|)), payload)
  {
    NewEntryOk(ChunkCount(|payload|));
  }

  /** The buffer of a message, new if there is none yet. */
  function EntryFor(m: map<Key, Entry>, key: Key, payload: Bytes): (e: Entry)
  {
    if key in m then m[key] else NewEntry(ChunkCount(|payload|))
  }

  /** That buffer with chunk `i` put in, and whether it is then full. */
  function Updated(m: map<Key, Entry>, key: Key, payload: Bytes, i: nat): (r: (Entry, bool))
    requires i < ChunkCount(|payload|)
  {
    InsertChunk(EntryFor(m, key, payload), i, Chunk(payload, i))
  }

  /** What the arrival of a genuine fragment does. */
  lemma {:induction false} GenuineArrival(m: map<Key, Entry>, e: Event, key: Key, payload: Bytes)
    requires key.1 < 0x1_0000_0000 && KeyOf(e) == Some(key) && Genuine(e, key, payload)
    requires 2 <= ChunkCount(|payload|) <= MAX_FRAGMENTS && GenuineMap(m, key, payload)
    requires key in m || HasRoom(m, key.0)
    ensures IndexOf(e) < ChunkCount(|payload|) && GenuineEntry(EntryFor(m, key, payload), payload)
    ensures Updated(m, key, payload, IndexOf(e)).1 ==>
              Output(m, e) == Some(payload) && Next(m, e) == m - {key}
    ensures !Updated(m, key, payload, IndexOf(e)).1 ==>
              Output(m, e) == None && Next(m, e) == m[key := Updated(m, key, payload, IndexOf(e)).0]
  {
    GenuineParts(e, key, payload);
    GenuineNewEntry(payload);
    GenuineInsert(EntryFor(m, key, payload), payload, IndexOf(e));
    assert KeyOf(e) == Some((e.peer, key.1));
  }

  // --- Nothing else comes out ---

  /** No event of this key yields anything but the payload. */
  ghost predicate OnlyPayload(m: map<Key, Entry>, events: seq<Event>, key: Key, payload: Bytes)
  {
    events == [] ||
    (var last := |events| - 1;
     && OnlyPayload(m, events[..last], key, payload)
     && (KeyOf(events[last]) == Some(key) ==>
           Output(Run(m, events[..last]), events[last]) in {None, Some(payload)}))
  }

  /** Whatever the order, the duplicates, the other traffic, the evictions and
      the limits, a key yields its payload or nothing. */
  lemma {:induction false} NeverOtherBytes(m: map<Key, Entry>, events: seq<Event>, key: Key, payload: Bytes)
    requires key.1 < 0x1_0000_0000 && AllGenuine(events, key, payload)
    requires 2 <= ChunkCount(|payload|) <= MAX_FRAGMENTS && GenuineMap(m, key, payload)
    ensures OnlyPayload(m, events, key, payload)
    ensures GenuineMap(Run(m, events), key, payload)
  {
    if events != [] {
      var last := |events| - 1;
      NeverOtherBytes(m, events[..last], key, payload);
      StepIsGenuine(Run(m, events[..last]), events[last], key, payload);
    }
  }

  lemma {:induction false} StepIsGenuine(m: map<Key, Entry>, e: Event, key: Key, payload: Bytes)
    requires key.1 < 0x1_0000_0000 && Genuine(e, key, payload)
    requires 2 <= ChunkCount(|payload|) <= MAX_FRAGMENTS && GenuineMap(m, key, payload)
    ensures GenuineMap(Next(m, e), key, payload)
    ensures KeyOf(e) == Some(key) ==> Output(m, e) in {None, Some(payload)}
  {
    if KeyOf(e) == Some(key) {
      GenuineParts(e, key, payload);
      if key in m || HasRoom(m, key.0) {
        GenuineArrival(m, e, key, payload);
        GenuineInsert(EntryFor(m, key, payload), payload, IndexOf(e));
      }
    } else if !(e.Evict? && key in e.keys) {
      OtherKeys(m, e, key);
    }
  }

  // --- The payload comes out ---

  /** The chunks of this key that have arrived. */
  function Arrived(events: seq<Event>, key: Key): (s: set<nat>)
  {
    if events == [] then {}
    else
      var last := events[|events| - 1];
      Arrived(events[..|events| - 1], key) + if KeyOf(last) == Some(key) then {IndexOf(last)} else {}
  }

  ghost predicate Covers(got: set<nat>, n: nat)
  {
    forall i: nat :: i < n ==> i in got
  }

  /** Exactly the chunks `got` of the message are in its buffer. */
  ghost predicate Tracks(m: map<Key, Entry>, key: Key, payload: Bytes, got: set<nat>)
  {
    var n := ChunkCount(|payload|);
    && GenuineMap(m, key, payload)
    && (key !in m ==> got == {})
    && (key in m ==> forall i: nat :: i < n ==> (m[key].chunks[i].Some? <==> i in got))
  }

  /** No buffer of this key was evicted, and none was refused for lack of room. */
  ghost predicate Undisturbed(m: map<Key, Entry>, events: seq<Event>, key: Key)
  {
    events == [] ||
    (var last := |events| - 1;
     && Undisturbed(m, events[..last], key)
     && (events[last].Evict? ==> key !in events[last].keys)
     && (KeyOf(events[last]) == Some(key) ==>
           key in Run(m, events[..last]) || HasRoom(Run(m, events[..last]), key.0)))
  }

  /** No event of this key has yielded anything yet. */
  ghost predicate Quiet(m: map<Key, Entry>, events: seq<Event>, key: Key)
  {
    events == [] ||
    (var last := |events| - 1;
     && Quiet(m, events[..last], key)
     && (KeyOf(events[last]) == Some(key) ==> Output(Run(m, events[..last]), events[last]) == None))
  }

  lemma {:induction false} TracksArrival(m: map<Key, Entry>, e: Event, key: Key, payload: Bytes, got: set<nat>)
    requires key.1 < 0x1_0000_0000 && KeyOf(e) == Some(key) && Genuine(e, key, payload)
    requires 2 <= ChunkCount(|payload|) <= MAX_FRAGMENTS && Tracks(m, key, payload, got)
    requires key in m || HasRoom(m, key.0)
    ensures Covers(got + {IndexOf(e)}, ChunkCount(|payload|)) ==>
              Output(m, e) == Some(payload) && key !in Next(m, e)
    ensures !Covers(got + {IndexOf(e)}, ChunkCount(|payload|)) ==>
              Output(m, e) == None && Tracks(Next(m, e), key, payload, got + {IndexOf(e)})
  {
    GenuineArrival(m, e, key, payload);
    TracksEntry(EntryFor(m, key, payload), payload, got, IndexOf(e));
  }

  /** The same on the buffer alone. */
  lemma {:induction false} TracksEntry(entry: Entry, payload: Bytes, got: set<nat>, i: nat)
    requires GenuineEntry(entry, payload) && i < entry.total
    requires forall j: nat :: j < entry.total ==> (entry.chunks[j].Some? <==> j in got)
    ensures var (after, complete) := InsertChunk(entry, i, Chunk(payload, i));
            && (complete <==> Covers(got + {i}, entry.total))
            && (!complete ==> GenuineEntry(after, payload))
            && |after.chunks| == entry.total
            && forall j: nat :: j < entry.total ==> (after.chunks[j].Some? <==> j in got + {i})
  {
    GenuineInsert(entry, payload, i);
    var (after, complete) := InsertChunk(entry, i, Chunk(payload, i));
    assert forall j: nat :: j < entry.total ==> (after.chunks[j].Some? <==> j in got + {i});
    if complete {
      assert Covers(got + {i}, entry.total);
    } else {
      var j :| 0 <= j < entry.total && !after.chunks[j].Some?;
      assert j !in got + {i};
    }
  }

  /** While chunks are missing, exactly those that arrived are held. */
  lemma {:induction false} CollectsArrived(m: map<Key, Entry>, events: seq<Event>, key: Key, payload: Bytes)
    requires key.1 < 0x1_0000_0000 && AllGenuine(events, key, payload) && key !in m
    requires 2 <= ChunkCount(|payload|) <= MAX_FRAGMENTS
    requires Undisturbed(m, events, key) && !Covers(Arrived(events, key), ChunkCount(|payload|))
    ensures Tracks(Run(m, events), key, payload, Arrived(events, key))
    ensures Quiet(m, events, key)
  {
    if events != [] {
      var last := |events| - 1;
      CollectsArrived(m, events[..last], key, payload);
      var before := Run(m, events[..last]);
      if KeyOf(events[last]) == Some(key) {
        TracksArrival(before, events[last], key, payload, Arrived(events[..last], key));
      } else {
        OtherKeys(before, events[last], key);
      }
    }
  }

  /** In every order, with duplicates and copies sent again, mixed with any
      other traffic: the payload comes out when its last missing fragment
      arrives, and not before. */
  lemma {:induction false} DeliveredWhenComplete(m: map<Key, Entry>, events: seq<Event>, last: Event, key: Key, payload: Bytes)
    requires key.1 < 0x1_0000_0000 && key !in m
    requires FRAG_CHUNK_SIZE < |payload| <= MAX_DELIVERED
    requires AllGenuine(events + [last], key, payload) && Undisturbed(m, events + [last], key)
    requires KeyOf(last) == Some(key)
    requires !Covers(Arrived(events, key), ChunkCount(|payload|))
    requires Covers(Arrived(events, key) + {IndexOf(last)}, ChunkCount(|payload|))
    ensures Quiet(m, events, key)
    ensures Output(Run(m, events), last) == Some(payload)
    ensures key !in Next(Run(m, events), last)
  {
    DeliveredLimit(|payload|);
    var all := events + [last];
    assert all[..|events|] == events && all[|events|] == last;
    assert forall i :: 0 <= i < |events| ==> Genuine(all[i], key, payload);
    CollectsArrived(m, events, key, payload);
    TracksArrival(Run(m, events), last, key, payload, Arrived(events, key));
  }

  /** A payload of one fragment is delivered by its only datagram. */
  lemma {:induction false} SingleFragment(m: map<Key, Entry>, peer: Peer, fragId: nat, payload: Bytes)
    requires fragId < 0x1_0000_0000 && |payload| <= FRAG_CHUNK_SIZE
    ensures |FragmentsOf(fragId, payload)| == 1
    ensures Receive(m, peer, FragmentsOf(fragId, payload)[0]) == (m, Some(payload))
  {
    ParseDatagram(fragId, 0, 1, payload);
    if payload != [] {
      assert Chunk(payload, 0) == payload;
    }
  }

  /** The property fails beyond `MAX_DELIVERED`: the sender encodes a payload of
      up to 262,144 bytes, but a receiver drops each of its fragments. */
  lemma {:induction false} OversizeIsDropped(m: map<Key, Entry>, peer: Peer, fragId: nat, payload: Bytes, i: nat)
    requires fragId < 0x1_0000_0000 && MAX_DELIVERED < |payload| <= MAX_MESSAGE_SIZE
    requires i < |FragmentsOf(fragId, payload)|
    ensures Receive(m, peer, FragmentsOf(fragId, payload)[i]) == (m, None)
  {
    DeliveredLimit(|payload|);
    ParseDatagram(fragId, i, ChunkCount(|payload|), Chunk(payload, i));
  }

  // --- Again ---

  lemma {:induction false} RunConcat(m: map<Key, Entry>, one: seq<Event>, more: seq<Event>)
    ensures Run(m, one + more) == Run(Run(m, one), more)
    decreases |more|
  {
    if more == [] {
      assert one + more == one;
    } else {
      var front, last := more[..|more| - 1], more[|more| - 1];
      RunConcat(m, one, front);
      assert (one + more)[..|one + more| - 1] == one + front;
    }
  }

  /** As long as nothing has come out, chunks are missing. */
  lemma {:induction false} QuietMeansMissing(m: map<Key, Entry>, events: seq<Event>, key: Key, payload: Bytes)
    requires key.1 < 0x1_0000_0000 && AllGenuine(events, key, payload) && key !in m
    requires 2 <= ChunkCount(|payload|) <= MAX_FRAGMENTS
    requires Undisturbed(m, events, key) && Quiet(m, events, key)
    ensures !Covers(Arrived(events, key), ChunkCount(|payload|))
  {
    if events == [] {
      assert 0 !in Arrived(events, key);
    } else {
      var front, last := events[..|events| - 1], events[|events| - 1];
      QuietMeansMissing(m, front, key, payload);
      if KeyOf(last) == Some(key) {
        CollectsArrived(m, front, key, payload);
        TracksArrival(Run(m, front), last, key, payload, Arrived(front, key));
      }
    }
  }

  /** Whatever came before, such as deliveries of the same message, `m` holds no
      part of it: the next event of the key that yields the payload is exactly the
      one with which the fragments since then cover all of it. */
  lemma {:induction false} YieldsIffCovered(m: map<Key, Entry>, since: seq<Event>, e: Event, key: Key, payload: Bytes)
    requires key.1 < 0x1_0000_0000 && key !in m && FRAG_CHUNK_SIZE < |payload| <= MAX_DELIVERED
    requires AllGenuine(since, key, payload) && Undisturbed(m, since, key) && Quiet(m, since, key)
    requires KeyOf(e) == Some(key) && Genuine(e, key, payload)
    requires key in Run(m, since) || HasRoom(Run(m, since), key.0)
    ensures Output(Run(m, since), e) == Some(payload) <==>
            Covers(Arrived(since, key) + {IndexOf(e)}, ChunkCount(|payload|))
    ensures Output(Run(m, since), e) == Some(payload) ==> key !in Next(Run(m, since), e)
  {
    DeliveredLimit(|payload|);
    QuietMeansMissing(m, since, key, payload);
    CollectsArrived(m, since, key, payload);
    TracksArrival(Run(m, since), e, key, payload, Arrived(since, key));
  }

  /** At most once is not promised: after a delivery at the end of `first`, a later
      event yields the message again exactly when the fragments since then cover
      all of it. */
  lemma {:induction false} YieldsAgainIff(first: seq<Event>, since: seq<Event>, e: Event, key: Key, payload: Bytes)
    requires key.1 < 0x1_0000_0000 && FRAG_CHUNK_SIZE < |payload| <= MAX_DELIVERED
    requires key !in Run(map[], first)
    requires AllGenuine(since, key, payload) && KeyOf(e) == Some(key) && Genuine(e, key, payload)
    requires Undisturbed(Run(map[], first), since, key) && Quiet(Run(map[], first), since, key)
    requires key in Run(map[], first + since) || HasRoom(Run(map[], first + since), key.0)
    ensures Output(Run(map[], first + since), e) == Some(payload) <==>
            Covers(Arrived(since, key) + {IndexOf(e)}, ChunkCount(|payload|))
  {
    RunConcat(map[], first, since);
    YieldsIffCovered(Run(map[], first), since, e, key, payload);
  }

  // --- Exactly which messages a sender and a receiver agree on ---

  /** The fragments of a message arriving one after the other. */
  function InOrder(peer: Peer, fragId: nat, payload: Bytes): (events: seq<Event>)
    requires fragId < 0x1_0000_0000
    ensures |events| == |FragmentsOf(fragId, payload)|
    ensures forall i :: 0 <= i < |events| ==> events[i] == Arrive(peer, FragmentsOf(fragId, payload)[i])
  {
    var ds := FragmentsOf(fragId, payload);
    seq(|ds|, i requires 0 <= i < |ds| => Arrive(peer, ds[i]))
  }

  /** Fragment `i` of a message. */
  ghost predicate IsFragment(e: Event, key: Key, payload: Bytes, i: nat)
    requires key.1 < 0x1_0000_0000
  {
    KeyOf(e) == Some(key) && IndexOf(e) == i && Genuine(e, key, payload)
  }

  lemma {:induction false} FragmentEvent(e: Event, key: Key, payload: Bytes, i: nat)
    requires key.1 < 0x1_0000_0000 && i < ChunkCount(|payload|) <= MAX_FRAGMENTS
    requires e == Arrive(key.0, Datagram(key.1, i, ChunkCount(|payload|), Chunk(payload, i)))
    requires e.data in FragmentsOf(key.1, payload)
    ensures IsFragment(e, key, payload, i)
  {
    ParseDatagram(key.1, i, ChunkCount(|payload|), Chunk(payload, i));
  }

  /** All fragments of the message, in order. */
  ghost predicate IsCopy(events: seq<Event>, key: Key, payload: Bytes)
    requires key.1 < 0x1_0000_0000
  {
    |events| == ChunkCount(|payload|) && forall i :: 0 <= i < |events| ==> IsFragment(events[i], key, payload, i)
  }

  lemma {:induction false} InOrderIsCopy(peer: Peer, fragId: nat, payload: Bytes)
    requires fragId < 0x1_0000_0000 && FRAG_CHUNK_SIZE < |payload| <= MAX_DELIVERED
    ensures IsCopy(InOrder(peer, fragId, payload), (peer, fragId), payload)
  {
    DeliveredLimit(|payload|);
    var events, ds := InOrder(peer, fragId, payload), FragmentsOf(fragId, payload);
    forall i | 0 <= i < |events|
      ensures IsFragment(events[i], (peer, fragId), payload, i)
    {
      assert events[i].data == ds[i] && ds[i] in ds;
      FragmentEvent(events[i], (peer, fragId), payload, i);
    }
  }

  function Below(n: nat): (s: set<nat>)
    ensures forall i: nat :: i in s <==> i < n
  {
    if n == 0 then {} else Below(n - 1) + {n - 1}
  }

  lemma {:induction false} BelowCovers(j: nat, n: nat)
    requires j < n
    ensures Below(j + 1) == Below(j) + {j} && Below(j + 1) != {}
    ensures Covers(Below(j) + {j}, n) <==> j + 1 == n
  {
    assert j in Below(j + 1);
    if j + 1 < n {
      assert n - 1 !in Below(j) + {j};
    }
  }

  /** While a copy arrives, its buffer holds what has arrived and the others stay as
      they were. */
  ghost predicate Receiving(m: map<Key, Entry>, now: map<Key, Entry>, key: Key, payload: Bytes, j: nat)
  {
    Tracks(now, key, payload, Below(j)) && now - {key} == m && (key in now || now == m)
  }

  lemma {:induction false} OnlyItsBuffer(m: map<Key, Entry>, e: Event, key: Key)
    requires KeyOf(e) == Some(key)
    ensures Next(m, e) - {key} == m - {key}
  {
    AcceptOnly(m, e.peer, ParseFragment(e.data).value);
  }

  lemma {:induction false} AcceptOnly(m: map<Key, Entry>, peer: Peer, f: Fragment)
    ensures Accept(m, peer, f).0 - {(peer, f.fragId)} == m - {(peer, f.fragId)}
  {
  }

  lemma {:induction false} TracksNext(now: map<Key, Entry>, e: Event, key: Key, payload: Bytes, j: nat)
    requires key.1 < 0x1_0000_0000 && 2 <= ChunkCount(|payload|) <= MAX_FRAGMENTS && j < ChunkCount(|payload|)
    requires Tracks(now, key, payload, Below(j)) && IsFragment(e, key, payload, j) && (key in now || HasRoom(now, key.0))
    ensures j + 1 < ChunkCount(|payload|) ==>
              Output(now, e) == None && key in Next(now, e) && Tracks(Next(now, e), key, payload, Below(j + 1))
    ensures j + 1 == ChunkCount(|payload|) ==> Output(now, e) == Some(payload) && key !in Next(now, e)
  {
    BelowCovers(j, ChunkCount(|payload|));
    TracksArrival(now, e, key, payload, Below(j));
  }

  lemma {:induction false} ReceiveNext(m: map<Key, Entry>, now: map<Key, Entry>, e: Event, key: Key, payload: Bytes, j: nat)
    requires key.1 < 0x1_0000_0000 && 2 <= ChunkCount(|payload|) <= MAX_FRAGMENTS && j < ChunkCount(|payload|)
    requires HasRoom(m, key.0) && Receiving(m, now, key, payload, j) && IsFragment(e, key, payload, j)
    ensures j + 1 < ChunkCount(|payload|) ==> Receiving(m, Next(now, e), key, payload, j + 1)
    ensures j + 1 == ChunkCount(|payload|) ==> Output(now, e) == Some(payload) && Next(now, e) == m
  {
    OnlyItsBuffer(now, e, key);
    TracksNext(now, e, key, payload, j);
    if key !in Next(now, e) {
      assert Next(now, e) == Next(now, e) - {key};
    }
  }

  lemma {:induction false} StartReceiving(m: map<Key, Entry>, key: Key, payload: Bytes, j: nat)
    requires key !in m && j == 0
    ensures Receiving(m, m, key, payload, j)
  {
    assert m - {key} == m;
  }

  /** What the first event finds and every event keeps holds after any number. */
  lemma {:induction false} RunKeeps(m: map<Key, Entry>, events: seq<Event>, holds: (nat, map<Key, Entry>) -> bool, j: nat)
    requires j <= |events| && holds(0, m)
    requires forall i: nat, now :: i < j && holds(i, now) ==> holds(i + 1, Next(now, events[i]))
    ensures holds(j, Run(m, events[..j]))
  {
    if j != 0 {
      RunKeeps(m, events, holds, j - 1);
      RunSnoc(m, events, j - 1);
    }
  }

  lemma {:induction false} CopyPrefix(m: map<Key, Entry>, events: seq<Event>, key: Key, payload: Bytes)
    requires key.1 < 0x1_0000_0000 && 2 <= ChunkCount(|payload|) <= MAX_FRAGMENTS
    requires key !in m && HasRoom(m, key.0) && IsCopy(events, key, payload)
    ensures Receiving(m, Run(m, events[..|events| - 1]), key, payload, |events| - 1)
  {
    var last := |events| - 1;
    forall i: nat, now | i < last && Receiving(m, now, key, payload, i)
      ensures Receiving(m, Next(now, events[i]), key, payload, i + 1)
    {
      assert IsFragment(events[i], key, payload, i);
      ReceiveNext(m, now, events[i], key, payload, i);
    }
    StartReceiving(m, key, payload, 0);
    RunKeeps(m, events, (i, now) => Receiving(m, now, key, payload, i), last);
  }

  lemma {:induction false} RunSnoc(m: map<Key, Entry>, events: seq<Event>, j: nat)
    requires j < |events|
    ensures Run(m, events[..j + 1]) == Next(Run(m, events[..j]), events[j])
  {
    assert events[..j + 1][..j] == events[..j];
  }

  /** A copy of a message that meets room for it comes out with its last fragment
      and leaves the buffers as they were. */
  lemma {:induction false} CopyDelivers(m: map<Key, Entry>, events: seq<Event>, key: Key, payload: Bytes)
    requires key.1 < 0x1_0000_0000 && 2 <= ChunkCount(|payload|) <= MAX_FRAGMENTS
    requires key !in m && HasRoom(m, key.0) && IsCopy(events, key, payload)
    ensures var last := |events| - 1;
            Output(Run(m, events[..last]), events[last]) == Some(payload) && Run(m, events) == m
  {
    var last := |events| - 1;
    CopyPrefix(m, events, key, payload);
    var now := Run(m, events[..last]);
    assert IsFragment(events[last], key, payload, last);
    LastFragment(m, now, events[last], key, payload);
    RunSnoc(m, events, last);
    assert events[..last + 1] == events;
  }

  lemma {:induction false} LastFragment(m: map<Key, Entry>, now: map<Key, Entry>, e: Event, key: Key, payload: Bytes)
    requires key.1 < 0x1_0000_0000 && 2 <= ChunkCount(|payload|) <= MAX_FRAGMENTS && HasRoom(m, key.0)
    requires Receiving(m, now, key, payload, ChunkCount(|payload|) - 1)
    requires IsFragment(e, key, payload, ChunkCount(|payload|) - 1)
    ensures Output(now, e) == Some(payload) && Next(now, e) == m
  {
    ReceiveNext(m, now, e, key, payload, ChunkCount(|payload|) - 1);
  }

  /** Two copies of a message under the same fragment id, one after the other: it is
      delivered twice. */
  lemma {:induction false} SecondCopyDelivers(peer: Peer, fragId: nat, payload: Bytes)
    requires fragId < 0x1_0000_0000 && FRAG_CHUNK_SIZE < |payload| <= MAX_DELIVERED
    ensures var copy := InOrder(peer, fragId, payload);
            var last := |copy| - 1;
            && 0 <= last
            && Output(Run(map[], copy[..last]), copy[last]) == Some(payload)
            && Output(Run(map[], copy + copy[..last]), copy[last]) == Some(payload)
  {
    var copy := InOrder(peer, fragId, payload);
    DeliveredLimit(|payload|);
    InOrderIsCopy(peer, fragId, payload);
    RoomAtFirst(peer);
    CopyDelivers(map[], copy, (peer, fragId), payload);
    RunConcat(map[], copy, copy[..|copy| - 1]);
  }

  lemma {:induction false} RoomAtFirst(peer: Peer)
    ensures HasRoom(map[], peer)
  {
    assert EntriesOf(map[], peer) == {};
  }

  /** A message the sender admits reaches a receiver, fragments in order and
      nothing lost, exactly when it is at most `MAX_DELIVERED` bytes long. */
  lemma {:induction false} DeliverableIff(peer: Peer, fragId: nat, payload: Bytes)
    requires fragId < 0x1_0000_0000 && |payload| <= MAX_MESSAGE_SIZE
    ensures var events := InOrder(peer, fragId, payload);
            var last := |events| - 1;
            0 <= last &&
            (Output(Run(map[], events[..last]), events[last]) == Some(payload) <==> |payload| <= MAX_DELIVERED)
  {
    var events := InOrder(peer, fragId, payload);
    var last := |events| - 1;
    if |payload| <= FRAG_CHUNK_SIZE {
      SingleFragment(Run(map[], events[..last]), peer, fragId, payload);
    } else if |payload| <= MAX_DELIVERED {
      DeliveredLimit(|payload|);
      InOrderIsCopy(peer, fragId, payload);
      RoomAtFirst(peer);
      CopyDelivers(map[], events, (peer, fragId), payload);
    } else {
      DeliveredLimit(|payload|);
      OversizeIsDropped(Run(map[], events[..last]), peer, fragId, payload, last);
    }
  }
}
