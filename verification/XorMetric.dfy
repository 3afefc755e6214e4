/**
 Node ids and the XOR distance between them.

 An id is the 160-bit integer its 20 bytes spell in big-endian order. The
 exclusive or is defined digit by digit, and the lemmas below are what the
 routing table and the lookups rest on: the distance separates ids, and ids in
 one aligned block of the key space are closer to each other than to any id
 outside it.
 */
module XorMetric {

  const ID_BITS: nat := 160

  function Pow2(n: nat): (p: nat)
    ensures 1 <= p
  {
    if n == 0 then 1 else 2 * Pow2(n - 1)
  }

  /** The number of ids, 2^160 (see `KeySpaceIsPow2`). */
  function KeySpace(): (n: nat)
    ensures 1 <= n
  {
    0x1_0000000000_0000000000_0000000000_0000000000
  }

  type Id = x: nat | x < KeySpace()

  lemma Pow2Byte(n: nat)
    ensures Pow2(n + 8) == 256 * Pow2(n)
  {
    assert Pow2(n + 2) == 4 * Pow2(n);
    assert Pow2(n + 4) == 4 * Pow2(n + 2);
    assert Pow2(n + 6) == 4 * Pow2(n + 4);
    assert Pow2(n + 8) == 4 * Pow2(n + 6);
  }

  lemma Pow2FiveBytes(n: nat)
    ensures Pow2(n + 40) == 0x100_0000_0000 * Pow2(n)
  {
    Pow2Byte(n);
    Pow2Byte(n + 8);
    Pow2Byte(n + 16);
    Pow2Byte(n + 24);
    Pow2Byte(n + 32);
  }

  lemma KeySpaceIsPow2()
    ensures KeySpace() == Pow2(ID_BITS)
  {
    Pow2KeySpace(0);
  }

  lemma Pow2KeySpace(n: nat)
    ensures Pow2(n + 160) == KeySpace() * Pow2(n)
  {
    Pow2FiveBytes(n);
    Pow2FiveBytes(n + 40);
    Pow2FiveBytes(n + 80);
    Pow2FiveBytes(n + 120);
  }

  /** Exclusive or, least significant digit last. */
  function Xor(a: nat, b: nat): (d: nat)
    decreases a + b
  {
    if a == 0 && b == 0 then 0
    else 2 * Xor(a / 2, b / 2) + (if a % 2 == b % 2 then 0 else 1)
  }

  /** `x` without its `w` lowest binary digits. */
  function Shift(x: nat, w: nat): (y: nat)
    decreases w
  {
    if w == 0 then x else Shift(x / 2, w - 1)
  }

  /** The binary digit of weight 2^i. */
  function Bit(x: nat, i: nat): (b: nat)
    ensures b < 2
  {
    Shift(x, i) % 2
  }

  lemma {:induction false} XorShift(a: nat, b: nat, w: nat)
    ensures Shift(Xor(a, b), w) == Xor(Shift(a, w), Shift(b, w))
    decreases w
  {
    if w != 0 {
      assert Xor(a, b) / 2 == Xor(a / 2, b / 2);
      XorShift(a / 2, b / 2, w - 1);
    }
  }

  /** `Xor` is the exclusive or of the binary digits. */
  lemma XorIsBitwise(a: nat, b: nat, i: nat)
    ensures Bit(Xor(a, b), i) == (if Bit(a, i) == Bit(b, i) then 0 else 1)
  {
    XorShift(a, b, i);
  }

  lemma {:induction false} XorSymmetric(a: nat, b: nat)
    ensures Xor(a, b) == Xor(b, a)
    decreases a + b
  {
    if a != 0 || b != 0 {
      XorSymmetric(a / 2, b / 2);
    }
  }

  lemma {:induction false} XorZero(a: nat, b: nat)
    ensures Xor(a, b) == 0 <==> a == b
    decreases a + b
  {
    if a != 0 || b != 0 {
      XorZero(a / 2, b / 2);
    }
  }

  /** Two different ids are never at the same distance from a target. */
  lemma {:induction false} XorInjective(a: nat, b: nat, target: nat)
    requires Xor(a, target) == Xor(b, target)
    ensures a == b
    decreases a + b + target
  {
    if target == 0 && a == 0 {
      XorZero(0, 0);
      XorZero(b, 0);
    } else if target == 0 && b == 0 {
      XorZero(0, 0);
      XorZero(a, 0);
    } else {
      XorInjective(a / 2, b / 2, target / 2);
    }
  }

  lemma {:induction false} SmallShiftsToZero(x: nat, w: nat)
    ensures x < Pow2(w) <==> Shift(x, w) == 0
    decreases w
  {
    if w != 0 {
      SmallShiftsToZero(x / 2, w - 1);
    }
  }

  /** Two ids share all but their `w` lowest digits exactly when their distance
      is less than 2^w. */
  lemma {:induction false} SharedPrefixIsDistance(a: nat, b: nat, w: nat)
    ensures Xor(a, b) < Pow2(w) <==> Shift(a, w) == Shift(b, w)
  {
    XorShift(a, b, w);
    XorZero(Shift(a, w), Shift(b, w));
    SmallShiftsToZero(Xor(a, b), w);
  }

  /** The distance between two ids is again a 160-bit number. */
  lemma {:induction false} XorBounded(a: nat, b: nat, w: nat)
    requires a < Pow2(w) && b < Pow2(w)
    ensures Xor(a, b) < Pow2(w)
  {
    SmallShiftsToZero(a, w);
    SmallShiftsToZero(b, w);
    SharedPrefixIsDistance(a, b, w);
  }

  /** `lo` is a multiple of 2^w (see `AlignedIsMultiple`). */
  predicate Aligned(lo: nat, w: nat)
    decreases w
  {
    w == 0 || (lo % 2 == 0 && Aligned(lo / 2, w - 1))
  }

  /** The range `[lo, hi]` is a block of 2^w ids aligned to its size. */
  predicate IsBlock(lo: nat, hi: int, w: nat)
  {
    Aligned(lo, w) && hi == lo + Pow2(w) - 1
  }

  lemma {:induction false} BlockMembers(lo: nat, hi: int, w: nat, x: nat)
    requires IsBlock(lo, hi, w)
    ensures lo <= x <= hi <==> Shift(x, w) == Shift(lo, w)
    decreases w
  {
    if w != 0 {
      BlockMembers(lo / 2, hi / 2, w - 1, x / 2);
    }
  }

  /** Inside an aligned block is closer than outside, for a target inside. */
  lemma InsideIsCloser(lo: nat, hi: int, w: nat, target: nat, inside: nat, outside: nat)
    requires IsBlock(lo, hi, w)
    requires lo <= target <= hi && lo <= inside <= hi && !(lo <= outside <= hi)
    ensures Xor(inside, target) < Pow2(w) <= Xor(outside, target)
  {
    BlockMembers(lo, hi, w, target);
    BlockMembers(lo, hi, w, inside);
    BlockMembers(lo, hi, w, outside);
    SharedPrefixIsDistance(inside, target, w);
    SharedPrefixIsDistance(outside, target, w);
  }

  lemma {:induction false} AlignedHalves(lo: nat, w: nat)
    requires Aligned(lo, w + 1)
    ensures Aligned(lo, w) && Aligned(lo + Pow2(w), w)
    decreases w
  {
    if w != 0 {
      AlignedHalves(lo / 2, w - 1);
      assert (lo + Pow2(w)) / 2 == lo / 2 + Pow2(w - 1);
    }
  }

  /** The midpoint of a block of at least two ids cuts it into two blocks. */
  lemma HalvesAreBlocks(lo: nat, hi: int, w: nat)
    requires IsBlock(lo, hi, w + 1)
    ensures var mid := lo + (hi - lo) / 2;
            IsBlock(lo, mid, w) && IsBlock(mid + 1, hi, w)
  {
    AlignedHalves(lo, w);
  }

  lemma {:induction false} WholeSpaceIsBlock(w: nat)
    ensures IsBlock(0, Pow2(w) - 1, w)
    decreases w
  {
    if w != 0 {
      WholeSpaceIsBlock(w - 1);
    }
  }

  /** `Aligned` is divisibility by the size of the block. */
  lemma {:induction false} AlignedIsMultiple(lo: nat, w: nat)
    ensures Aligned(lo, w) <==> exists q: nat :: IsMultiple(lo, q, w)
    decreases w
  {
    if w == 0 {
      assert IsMultiple(lo, lo, 0);
    } else {
      AlignedIsMultiple(lo / 2, w - 1);
      if q: nat :| IsMultiple(lo, q, w) {
        assert q * Pow2(w) == 2 * (q * Pow2(w - 1));
        assert IsMultiple(lo / 2, q, w - 1);
      }
      if Aligned(lo, w) {
        var q: nat :| IsMultiple(lo / 2, q, w - 1);
        assert q * Pow2(w) == 2 * (q * Pow2(w - 1));
        assert IsMultiple(lo, q, w);
      }
    }
  }

  predicate IsMultiple(lo: nat, q: nat, w: nat)
  {
    lo == q * Pow2(w)
  }
}
