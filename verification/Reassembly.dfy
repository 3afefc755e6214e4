/**
 Putting messages back together from fragments that arrive in any order, more
 than once, and mixed with those of other senders.
 */
module Reassembly {
  import opened Nodes
  import opened Selection
  import opened Wire
  import opened Fragments
  import opened Sums

  const MAX_ENTRIES: nat := 64
  const MAX_ENTRIES_PER_PEER: nat := 8

  /** How long a message may take, and how often buffers are swept, in
      nanoseconds. */
  const REASSEMBLY_TTL: nat := 10_000_000_000
  const GC_INTERVAL: nat := 1_000_000_000

  /** The address a datagram came from. */
  datatype Peer = Peer(ip: Bytes, port: nat)

  type Key = (Peer, nat)

  /** The chunks of one message received so far. */
  datatype Entry = Entry(total: nat, received: nat, chunks: seq<Option<Bytes>>)

  function Empties(n: nat): (s: seq<Option<Bytes>>)
    ensures |s| == n && forall i :: 0 <= i < n ==> s[i] == None
  {
    if n == 0 then [] else Empties(n - 1) + [None]
  }

  function NewEntry(total: nat): (e: Entry)
  {
    Entry(total, 0, Empties(total))
  }

  /** Fill a slot if it is empty; true once every slot counted is filled. */
  function InsertChunk(e: Entry, index: nat, chunk: Bytes): (r: (Entry, bool))
  {
    if index >= |e.chunks| then (e, false)
    else
      var after := if e.chunks[index] == None
                   then e.(chunks := e.chunks[index := Some(chunk)], received := e.received + 1)
                   else e;
      (after, after.received == after.total)
  }

  /** The chunks in order, or nothing if a slot is empty. */
  function Assembled(chunks: seq<Option<Bytes>>): (b: Option<Bytes>)
  {
    if chunks == [] then Some([])
    else
      var rest, last := Assembled(chunks[..|chunks| - 1]), chunks[|chunks| - 1];
      if rest.None? || last.None? then None else Some(rest.value + last.value)
  }

  function EntriesOf(m: map<Key, Entry>, peer: Peer): (keys: set<Key>)
  {
    set k | k in m && k.0 == peer
  }

  /** There is room for one more message from `peer`. */
  predicate HasRoom(m: map<Key, Entry>, peer: Peer)
  {
    |m| < MAX_ENTRIES && |EntriesOf(m, peer)| < MAX_ENTRIES_PER_PEER
  }

  /** What one fragment does to the buffers, and the message it completes. */
  function Accept(m: map<Key, Entry>, peer: Peer, f: Fragment): (r: (map<Key, Entry>, Option<Bytes>))
  {
    var key := (peer, f.fragId);
    if key !in m && !HasRoom(m, peer) then (m, None)
    else
      var entry := if key in m then m[key] else NewEntry(f.total);
      if entry.total != f.total then (m - {key}, None)
      else
        var (filled, complete) := InsertChunk(entry, f.index, f.chunk);
        if complete then (m - {key}, Assembled(filled.chunks)) else (m[key := filled], None)
  }

  /** What one datagram does: a message of one fragment is delivered at once, a
      message of too many fragments is refused, any other is reassembled. */
  function Receive(m: map<Key, Entry>, peer: Peer, data: Bytes): (r: (map<Key, Entry>, Option<Bytes>))
  {
    match ParseFragment(data)
    case None => (m, None)
    case Some(f) =>
      if f.total == 1 then (m, Some(f.chunk))
      else if f.total * FRAG_CHUNK_SIZE > MAX_MESSAGE_SIZE then (m, None)
      else Accept(m, peer, f)
  }

  // --- Bounds over every stream ---

  function Filled(chunks: seq<Option<Bytes>>): (n: nat)
    ensures n <= |chunks|
  {
    if chunks == [] then 0
    else Filled(chunks[..|chunks| - 1]) + if chunks[|chunks| - 1].Some? then 1 else 0
  }

  function Size(chunks: seq<Option<Bytes>>): (n: nat)
  {
    if chunks == [] then 0
    else Size(chunks[..|chunks| - 1]) + match chunks[|chunks| - 1] case Some(c) => |c| case None => 0
  }

  ghost predicate SmallChunks(chunks: seq<Option<Bytes>>)
  {
    forall i :: 0 <= i < |chunks| && chunks[i].Some? ==> |chunks[i].value| <= FRAG_CHUNK_SIZE
  }

  /** The count is the number of filled slots, and a slot is still empty. */
  ghost predicate EntryOk(e: Entry)
  {
    && |e.chunks| == e.total <= MAX_FRAGMENTS
    && e.received == Filled(e.chunks) < e.total
    && SmallChunks(e.chunks)
  }

  ghost predicate MapOk(m: map<Key, Entry>)
  {
    && |m| <= MAX_ENTRIES
    && (forall peer :: |EntriesOf(m, peer)| <= MAX_ENTRIES_PER_PEER)
    && forall key :: key in m ==> EntryOk(m[key])
  }

  lemma {:induction false} EmptiesFilled(n: nat)
    ensures Filled(Empties(n)) == 0
  {
    if n != 0 {
      EmptiesFilled(n - 1);
      assert Empties(n)[..n - 1] == Empties(n - 1);
    }
  }

  lemma {:induction false} FillOne(chunks: seq<Option<Bytes>>, i: nat, c: Bytes)
    requires i < |chunks| && chunks[i] == None
    ensures Filled(chunks[i := Some(c)]) == Filled(chunks) + 1
  {
    var after := chunks[i := Some(c)];
    var last := |chunks| - 1;
    if i == last {
      assert after[..last] == chunks[..last];
    } else {
      FillOne(chunks[..last], i, c);
      assert after[..last] == chunks[..last][i := Some(c)];
    }
  }

  /** All slots are filled exactly when the count says so, and then the message
      can be put together. */
  lemma {:induction false} FullAssembles(chunks: seq<Option<Bytes>>)
    ensures Filled(chunks) == |chunks| <==> Assembled(chunks).Some?
  {
    if chunks != [] {
      FullAssembles(chunks[..|chunks| - 1]);
    }
  }

  lemma {:induction false} SizeBounded(chunks: seq<Option<Bytes>>)
    requires SmallChunks(chunks)
    ensures Size(chunks) <= FRAG_CHUNK_SIZE * |chunks|
  {
    if chunks != [] {
      SizeBounded(chunks[..|chunks| - 1]);
    }
  }

  /** A slot filled in a good entry leaves it good, or complete. */
  lemma InsertOk(e: Entry, index: nat, chunk: Bytes)
    requires EntryOk(e) && index < e.total && |chunk| <= FRAG_CHUNK_SIZE
    ensures var (after, complete) := InsertChunk(e, index, chunk);
            && after.total == e.total && |after.chunks| == e.total
            && after.received == Filled(after.chunks) && SmallChunks(after.chunks)
            && (complete <==> Assembled(after.chunks).Some?)
            && (!complete ==> EntryOk(after))
  {
    var (after, complete) := InsertChunk(e, index, chunk);
    if e.chunks[index] == None {
      FillOne(e.chunks, index, chunk);
    }
    FullAssembles(after.chunks);
  }

  lemma NewEntryOk(total: nat)
    requires 1 <= total <= MAX_FRAGMENTS
    ensures EntryOk(NewEntry(total))
  {
    EmptiesFilled(total);
  }

  lemma EntriesOfSet(m: map<Key, Entry>, key: Key, e: Entry, peer: Peer)
    ensures EntriesOf(m[key := e], peer) ==
            if key.0 == peer then EntriesOf(m, peer) + {key} else EntriesOf(m, peer)
  {
  }

  lemma FewerEntries(m: map<Key, Entry>, keys: set<Key>)
    requires MapOk(m)
    ensures MapOk(m - keys)
  {
    var after := m - keys;
    assert after.Keys <= m.Keys;
    KeysSize(m.Keys, after.Keys);
    forall peer: Peer
      ensures |EntriesOf(after, peer)| <= MAX_ENTRIES_PER_PEER
    {
      KeysSize(EntriesOf(m, peer), EntriesOf(after, peer));
    }
  }

  lemma KeysSize(whole: set<Key>, part: set<Key>)
    requires part <= whole
    ensures |part| <= |whole|
  {
    assert whole == part + (whole - part);
  }

  lemma SetEntryOk(m: map<Key, Entry>, key: Key, e: Entry)
    requires MapOk(m) && EntryOk(e) && (key in m || HasRoom(m, key.0))
    ensures MapOk(m[key := e])
  {
    var after := m[key := e];
    assert after.Keys == m.Keys + {key};
    forall peer: Peer
      ensures |EntriesOf(after, peer)| <= MAX_ENTRIES_PER_PEER
    {
      EntriesOfSet(m, key, e, peer);
      if key in m {
        assert key.0 == peer ==> EntriesOf(m, peer) + {key} == EntriesOf(m, peer);
      }
    }
  }

  /** Whatever datagram arrives, the buffers stay within their bounds, and a
      message declared complete is always delivered. */
  lemma ReceiveOk(m: map<Key, Entry>, peer: Peer, data: Bytes)
    requires MapOk(m)
    ensures MapOk(Receive(m, peer, data).0)
  {
    var parsed := ParseFragment(data);
    if parsed.Some? && parsed.value.total != 1
       && parsed.value.total * FRAG_CHUNK_SIZE <= MAX_MESSAGE_SIZE {
      AcceptOk(m, peer, parsed.value);
    }
  }

  lemma AcceptOk(m: map<Key, Entry>, peer: Peer, f: Fragment)
    requires MapOk(m) && f.index < f.total <= MAX_FRAGMENTS && |f.chunk| <= FRAG_CHUNK_SIZE
    ensures MapOk(Accept(m, peer, f).0)
    ensures CompleteIsDelivered(m, peer, f)
  {
    var key := (peer, f.fragId);
    if key in m || HasRoom(m, peer) {
      NewEntryOk(f.total);
      var entry := if key in m then m[key] else NewEntry(f.total);
      FewerEntries(m, {key});
      if entry.total == f.total {
        InsertOk(entry, f.index, f.chunk);
        var (filled, complete) := InsertChunk(entry, f.index, f.chunk);
        if !complete {
          SetEntryOk(m, key, filled);
        }
      }
    }
  }

  /** If the last slot of a message was filled, the message comes out. */
  ghost predicate CompleteIsDelivered(m: map<Key, Entry>, peer: Peer, f: Fragment)
  {
    var key := (peer, f.fragId);
    var entry := if key in m then m[key] else NewEntry(f.total);
    var admitted := (key in m || HasRoom(m, peer)) && entry.total == f.total;
    admitted && InsertChunk(entry, f.index, f.chunk).1 ==> Accept(m, peer, f).1.Some?
  }

  /** The payload bytes held for incomplete messages. */
  ghost function HeldBytes(m: map<Key, Entry>): (n: nat)
  {
    Total(map key | key in m :: Size(m[key].chunks))
  }

  lemma HeldBytesBounded(m: map<Key, Entry>)
    requires MapOk(m)
    ensures HeldBytes(m) < 16 * 1024 * 1024
  {
    var sizes := map key | key in m :: Size(m[key].chunks);
    forall key | key in sizes
      ensures sizes[key] <= MAX_DELIVERED
    {
      SizeBounded(m[key].chunks);
    }
    TotalBounded(sizes, MAX_DELIVERED);
    assert sizes.Keys == m.Keys;
    assert |sizes| == |m|;
    assert MAX_DELIVERED * |m| <= MAX_DELIVERED * MAX_ENTRIES;
  }

  // --- Streams ---

  /** A datagram, or the removal of buffers that grew too old. */
  datatype Event = Arrive(peer: Peer, data: Bytes) | Evict(keys: set<Key>)

  function Next(m: map<Key, Entry>, e: Event): (after: map<Key, Entry>)
  {
    match e
    case Arrive(peer, data) => Receive(m, peer, data).0
    case Evict(keys) => m - keys
  }

  function Output(m: map<Key, Entry>, e: Event): (b: Option<Bytes>)
  {
    match e
    case Arrive(peer, data) => Receive(m, peer, data).1
    case Evict(_) => None
  }

  function Run(m: map<Key, Entry>, events: seq<Event>): (after: map<Key, Entry>)
  {
    if events == [] then m
    else Next(Run(m, events[..|events| - 1]), events[|events| - 1])
  }

  /** Over every stream of datagrams and evictions: at most 64 messages in
      reassembly, 8 per peer, and less than 16 MiB of payload. */
  lemma {:induction false} StreamBounds(events: seq<Event>)
    ensures MapOk(Run(map[], events)) && HeldBytes(Run(map[], events)) < 16 * 1024 * 1024
  {
    if events == [] {
      EmptyMapOk();
    } else {
      var front, last := events[..|events| - 1], events[|events| - 1];
      StreamBounds(front);
      match last
      case Arrive(peer, data) => ReceiveOk(Run(map[], front), peer, data);
      case Evict(keys) => FewerEntries(Run(map[], front), keys);
    }
    HeldBytesBounded(Run(map[], events));
  }

  lemma EmptyMapOk()
    ensures MapOk(map[])
  {
  }

  // --- In place ---

  lemma SameKeysLeft(m: map<Key, Entry>, born: map<Key, nat>, keys: set<Key>)
    requires m.Keys == born.Keys
    ensures (m - keys).Keys == (born - keys).Keys
  {
  }

  /** Buffers begun too long ago. */
  function TooOld(born: map<Key, nat>, now: nat): (keys: set<Key>)
  {
    set key | key in born && born[key] + REASSEMBLY_TTL <= now
  }

  /** The buffers a node keeps, updated by every fragment, and when each was
      begun. */
  class Buffers {
    var entries: map<Key, Entry>
    var born: map<Key, nat>
    var lastSweep: nat

    ghost predicate Valid()
      reads this
    {
      MapOk(entries) && born.Keys == entries.Keys
    }

    constructor (now: nat)
      ensures Valid() && entries == map[] && lastSweep == now
    {
      entries, born, lastSweep := map[], map[], now;
      EmptyMapOk();
    }

    method AcceptFragment(peer: Peer, f: Fragment, now: nat) returns (payload: Option<Bytes>)
      requires born.Keys == entries.Keys
      modifies this`entries, this`born
      ensures (entries, payload) == Accept(old(entries), peer, f)
      ensures born.Keys == entries.Keys
      ensures forall key :: key in entries ==> born[key] == if key in old(born) then old(born)[key] else now
    {
      var key := (peer, f.fragId);
      if key !in entries {
        if |entries| >= MAX_ENTRIES {
          return None;
        }
        if |EntriesOf(entries, peer)| >= MAX_ENTRIES_PER_PEER {
          return None;
        }
        entries, born := entries[key := NewEntry(f.total)], born[key := now];
      }
      if entries[key].total != f.total {
        entries, born := entries - {key}, born - {key};
        return None;
      }
      var (filled, complete) := InsertChunk(entries[key], f.index, f.chunk);
      entries := entries[key := filled];
      assert entries == old(entries)[key := filled];
      if !complete {
        return None;
      }
      entries, born := entries - {key}, born - {key};
      assert entries == old(entries) - {key};
      payload := Assemble(filled.chunks);
    }

    /** Concatenate the chunks in order. */
    static method Assemble(chunks: seq<Option<Bytes>>) returns (payload: Option<Bytes>)
      ensures payload == Assembled(chunks)
    {
      var out := [];
      var i := 0;
      while i < |chunks|
        invariant 0 <= i <= |chunks| && Assembled(chunks[..i]) == Some(out)
      {
        assert chunks[..i + 1][..i] == chunks[..i];
        if chunks[i].None? {
          EmptySlotFails(chunks, i);
          return None;
        }
        out := out + chunks[i].value;
        i := i + 1;
      }
      assert chunks[..i] == chunks;
      return Some(out);
    }

    static lemma {:induction false} EmptySlotFails(chunks: seq<Option<Bytes>>, i: nat)
      requires i < |chunks| && chunks[i].None?
      ensures Assembled(chunks).None?
    {
      if i < |chunks| - 1 {
        EmptySlotFails(chunks[..|chunks| - 1], i);
      }
    }

    /** Forget buffers that grew too old, at most once per interval. */
    method Collect(now: nat) returns (ghost expired: set<Key>)
      requires Valid()
      modifies this
      ensures Valid()
      ensures expired == if now < old(lastSweep) + GC_INTERVAL then {} else TooOld(old(born), now)
      ensures entries == old(entries) - expired && born == old(born) - expired
    {
      var stale := if now < lastSweep + GC_INTERVAL then {} else TooOld(born, now);
      FewerEntries(entries, stale);
      SameKeysLeft(entries, born, stale);
      entries, born, expired := entries - stale, born - stale, stale;
      if lastSweep + GC_INTERVAL <= now {
        lastSweep := now;
      }
    }

    /** A datagram; a fragment of a longer message first sweeps old buffers. */
    method HandleDatagram(peer: Peer, data: Bytes, now: nat) returns (payload: Option<Bytes>, ghost expired: set<Key>)
      requires Valid()
      modifies this
      ensures Valid()
      ensures expired <= TooOld(old(born), now)
      ensures (entries, payload) == Receive(old(entries) - expired, peer, data)
    {
      expired := {};
      assert entries == entries - expired;
      var parsed := ParseFragment(data);
      if parsed.None? {
        return None, expired;
      }
      var f := parsed.value;
      if f.total == 1 {
        return Some(f.chunk), expired;
      }
      if f.total * FRAG_CHUNK_SIZE > MAX_MESSAGE_SIZE {
        return None, expired;
      }
      expired := Collect(now);
      ReceiveOk(entries, peer, data);
      payload := AcceptFragment(peer, f, now);
    }
  }
}
