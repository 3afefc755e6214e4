/** Cutting a message into datagrams, and reading one back. */
module Fragments {
  import opened Nodes
  import opened Selection
  import opened Wire

  const FRAG_MAGIC: nat := 0x4B41_4446
  const FRAG_HEADER_LEN: nat := 12
  const FRAG_CHUNK_SIZE: nat := 1400
  const MAX_MESSAGE_SIZE: nat := 256 * 1024

  /** The most fragments a receiver takes for one message, and the longest
      payload that fits in them. */
  const MAX_FRAGMENTS: nat := 187
  const MAX_DELIVERED: nat := 261_800

  datatype Fragment = Fragment(fragId: nat, index: nat, total: nat, chunk: Bytes)

  function Header(fragId: nat, index: nat, total: nat): (b: Bytes)
    requires fragId < 0x1_0000_0000 && index < 0x1_0000 && total < 0x1_0000
    ensures |b| == FRAG_HEADER_LEN
  {
    U32(FRAG_MAGIC) + U32(fragId) + U16(index) + U16(total)
  }

  /** A datagram; the two counters are cut to 16 bits, as the sender does. */
  function Datagram(fragId: nat, index: nat, total: nat, chunk: Bytes): (b: Bytes)
    requires fragId < 0x1_0000_0000
  {
    Header(fragId, index % 0x1_0000, total % 0x1_0000) + chunk
  }

  function ChunkCount(len: nat): (n: nat)
  {
    (len + FRAG_CHUNK_SIZE - 1) / FRAG_CHUNK_SIZE
  }

  function Chunk(payload: Bytes, i: nat): (c: Bytes)
    requires i < ChunkCount(|payload|)
    ensures |c| <= FRAG_CHUNK_SIZE
  {
    payload[FRAG_CHUNK_SIZE * i..Min(FRAG_CHUNK_SIZE * (i + 1), |payload|)]
  }

  /** The datagrams of a message. */
  function FragmentsOf(fragId: nat, payload: Bytes): (ds: seq<Bytes>)
    requires fragId < 0x1_0000_0000
  {
    if payload == [] then [Datagram(fragId, 0, 1, [])]
    else
      var n := ChunkCount(|payload|);
      seq(n, i requires 0 <= i < n => Datagram(fragId, i, n, Chunk(payload, i)))
  }

  method EncodeFragments(fragId: nat, payload: Bytes) returns (datagrams: seq<Bytes>)
    requires fragId < 0x1_0000_0000
    ensures datagrams == FragmentsOf(fragId, payload)
  {
    if payload == [] {
      return [Datagram(fragId, 0, 1, [])];
    }
    var total := ChunkCount(|payload|);
    datagrams := [];
    var i := 0;
    while i < total
      invariant 0 <= i <= total
      invariant datagrams == FragmentsOf(fragId, payload)[..i]
    {
      datagrams := datagrams + [Datagram(fragId, i, total, Chunk(payload, i))];
      i := i + 1;
    }
  }

  /** The sender refuses a message over the limit. */
  method EncodeFrame(fragId: nat, bytes: Bytes) returns (datagrams: Option<seq<Bytes>>)
    requires fragId < 0x1_0000_0000
    ensures datagrams == if |bytes| > MAX_MESSAGE_SIZE then None else Some(FragmentsOf(fragId, bytes))
  {
    if |bytes| > MAX_MESSAGE_SIZE {
      return None;
    }
    var encoded := EncodeFragments(fragId, bytes);
    return Some(encoded);
  }

  function ParseFragment(data: Bytes): (f: Option<Fragment>)
    ensures f.Some? ==> f.value.index < f.value.total < 0x1_0000
    ensures f.Some? ==> f.value.fragId < 0x1_0000_0000
    ensures f.Some? ==> |f.value.chunk| <= FRAG_CHUNK_SIZE
  {
    if !(FRAG_HEADER_LEN <= |data| <= FRAG_HEADER_LEN + FRAG_CHUNK_SIZE) then None
    else if FromU32(data[0..4]) != FRAG_MAGIC then None
    else
      var index := FromU16(data[8..10]);
      var total := FromU16(data[10..12]);
      if total == 0 || index >= total then None
      else Some(Fragment(FromU32(data[4..8]), index, total, data[FRAG_HEADER_LEN..]))
  }

  /** Reading back a datagram gives its fields. */
  lemma ParseDatagram(fragId: nat, index: nat, total: nat, chunk: Bytes)
    requires fragId < 0x1_0000_0000 && index < total < 0x1_0000 && |chunk| <= FRAG_CHUNK_SIZE
    ensures ParseFragment(Datagram(fragId, index, total, chunk)) == Some(Fragment(fragId, index, total, chunk))
  {
    var d := Datagram(fragId, index, total, chunk);
    assert d[0..4] == U32(FRAG_MAGIC);
    assert d[4..8] == U32(fragId);
    assert d[8..10] == U16(index);
    assert d[10..12] == U16(total);
    assert d[12..] == chunk;
    RoundTrip32(FRAG_MAGIC);
    RoundTrip32(fragId);
    RoundTrip16(index);
    RoundTrip16(total);
  }

  /** The first `m` chunks put together. */
  function Joined(payload: Bytes, m: nat): (b: Bytes)
    requires m <= ChunkCount(|payload|)
  {
    if m == 0 then [] else Joined(payload, m - 1) + Chunk(payload, m - 1)
  }

  lemma {:induction false} JoinedIsPrefix(payload: Bytes, m: nat)
    requires m <= ChunkCount(|payload|)
    ensures Joined(payload, m) == payload[..Min(FRAG_CHUNK_SIZE * m, |payload|)]
  {
    if m != 0 {
      JoinedIsPrefix(payload, m - 1);
    }
  }

  /** All chunks put together are the payload. */
  lemma JoinedAll(payload: Bytes)
    ensures Joined(payload, ChunkCount(|payload|)) == payload
  {
    JoinedIsPrefix(payload, ChunkCount(|payload|));
  }

  /** A message fits in the fragments a receiver takes exactly up to
      `MAX_DELIVERED` bytes, less than the sender admits. */
  lemma DeliveredLimit(len: nat)
    ensures ChunkCount(len) * FRAG_CHUNK_SIZE <= MAX_MESSAGE_SIZE <==> len <= MAX_DELIVERED
    ensures ChunkCount(len) <= MAX_FRAGMENTS <==> len <= MAX_DELIVERED
    ensures MAX_DELIVERED < MAX_MESSAGE_SIZE
  {
  }
}
