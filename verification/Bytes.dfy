/** Bytes, and the big-endian integers of the wire format. */
module Wire {

  type Byte = b: int | 0 <= b < 256
  type Bytes = seq<Byte>

  function U16(n: nat): (b: Bytes)
    requires n < 0x1_0000
    ensures |b| == 2
  {
    [n / 0x100, n % 0x100]
  }

  function U32(n: nat): (b: Bytes)
    requires n < 0x1_0000_0000
    ensures |b| == 4
  {
    U16(n / 0x1_0000) + U16(n % 0x1_0000)
  }

  function FromU16(b: Bytes): (n: nat)
    requires |b| == 2
    ensures n < 0x1_0000
  {
    var hi: int, lo: int := b[0], b[1];
    hi * 0x100 + lo
  }

  function FromU32(b: Bytes): (n: nat)
    requires |b| == 4
    ensures n < 0x1_0000_0000
  {
    FromU16(b[..2]) * 0x1_0000 + FromU16(b[2..])
  }

  lemma RoundTrip16(n: nat)
    requires n < 0x1_0000
    ensures FromU16(U16(n)) == n
  {
  }

  lemma RoundTrip32(n: nat)
    requires n < 0x1_0000_0000
    ensures FromU32(U32(n)) == n
  {
  }
}
