/**
 The arithmetic readings of C's bit operators in `Bits` and `Nibbles`, checked against 8-bit bit-vectors.
 */
module ByteOperators {
  import opened Bits
  import Nibbles

  /** `1 << k`, see `MaskIs` */
  function Mask(k: nat): bv8
    requires k < 8
  {
    if k == 0 then 1 else if k == 1 then 2 else if k == 2 then 4 else if k == 3 then 8
    else if k == 4 then 16 else if k == 5 then 32 else if k == 6 then 64 else 128
  }

  lemma HalveAgrees(b: bv8)
    ensures (b as int) / 2 == (b >> 1) as int
    ensures (b as int) % 2 == 1 <==> b & 1 == 1
  {
  }

  lemma MaskHalves(b: bv8, k: nat)
    requires 0 < k < 8
    ensures b & Mask(k) != 0 <==> (b >> 1) & Mask(k - 1) != 0
    ensures (b | Mask(k)) >> 1 == (b >> 1) | Mask(k - 1) && (b | Mask(k)) & 1 == b & 1
    ensures (b & !Mask(k)) >> 1 == (b >> 1) & !Mask(k - 1) && (b & !Mask(k)) & 1 == b & 1
  {
  }

  lemma PutBitHalves(w: nat, k: nat, v: bool)
    requires 0 < k
    ensures PutBit(w, k, v) / 2 == PutBit(w / 2, k - 1, v) && PutBit(w, k, v) % 2 == w % 2
  {
  }

  lemma LowBitAgrees(b: bv8)
    ensures PutBit(b as int, 0, true) == (b | 1) as int
    ensures PutBit(b as int, 0, false) == (b & !1) as int
  {
  }

  /** A byte and its half determine a byte: `a` is `b` changed above bit 0, `ha` is what its upper part became. */
  lemma Halved(a: bv8, ha: bv8, b: bv8)
    requires a >> 1 == ha && a & 1 == b & 1
    ensures a as int / 2 == ha as int && a as int % 2 == b as int % 2
  {
    HalveAgrees(a);
    HalveAgrees(b);
  }

  lemma OrHalves(b: bv8, k: nat)
    requires 0 < k < 8
    ensures (b | Mask(k)) as int / 2 == ((b >> 1) | Mask(k - 1)) as int && (b | Mask(k)) as int % 2 == b as int % 2
  {
    MaskHalves(b, k);
    Halved(b | Mask(k), (b >> 1) | Mask(k - 1), b);
  }

  lemma AndHalves(b: bv8, k: nat)
    requires 0 < k < 8
    ensures (b & !Mask(k)) as int / 2 == ((b >> 1) & !Mask(k - 1)) as int && (b & !Mask(k)) as int % 2 == b as int % 2
  {
    MaskHalves(b, k);
    Halved(b & !Mask(k), (b >> 1) & !Mask(k - 1), b);
  }

  lemma SameHalves(a: nat, b: nat)
    requires a / 2 == b / 2 && a % 2 == b % 2
    ensures a == b
  {
  }

  lemma {:induction false} MaskedAgrees(b: bv8, k: nat)
    requires k < 8
    ensures Bit(b as int, k) <==> b & Mask(k) != 0
    decreases k
  {
    HalveAgrees(b);
    if k == 0 {
    } else {
      MaskHalves(b, k);
      MaskedAgrees(b >> 1, k - 1);
    }
  }

  lemma MaskIs(k: nat)
    requires k < 8
    ensures Mask(k) == (1 as bv8) << k
  {
  }

  /** Shifting bit `k` down and masking, or masking it in place. */
  lemma ShiftOrMask(b: bv8, k: nat)
    requires k < 8
    ensures (b >> k) & 1 == 1 <==> b & Mask(k) != 0
  {
  }

  /** `(x >> k) & 1` */
  lemma TestAgrees(b: bv8, k: nat)
    requires k < 8
    ensures Bit(b as int, k) <==> (b >> k) & 1 == 1
  {
    ShiftOrMask(b, k);
    MaskedAgrees(b, k);
  }

  /** `x |= 1 << k` */
  lemma {:induction false} OrAgrees(b: bv8, k: nat)
    requires k < 8
    ensures PutBit(b as int, k, true) == (b | Mask(k)) as int
    decreases k
  {
    if k == 0 {
      LowBitAgrees(b);
    } else {
      HalveAgrees(b);
      OrHalves(b, k);
      OrAgrees(b >> 1, k - 1);
      PutBitHalves(b as int, k, true);
      SameHalves(PutBit(b as int, k, true), (b | Mask(k)) as int);
    }
  }

  /** `x &= ~(1 << k)` */
  lemma {:induction false} AndAgrees(b: bv8, k: nat)
    requires k < 8
    ensures PutBit(b as int, k, false) == (b & !Mask(k)) as int
    decreases k
  {
    if k == 0 {
      LowBitAgrees(b);
    } else {
      HalveAgrees(b);
      AndHalves(b, k);
      AndAgrees(b >> 1, k - 1);
      PutBitHalves(b as int, k, false);
      SameHalves(PutBit(b as int, k, false), (b & !Mask(k)) as int);
    }
  }

  lemma ShiftLeftAgrees(b: bv8)
    ensures (b << 4) as int == b as int % 16 * 16
  {
  }

  lemma ShiftRightAgrees(b: bv8)
    ensures (b >> 4) as int == b as int / 16
  {
  }

  lemma DisjointOr(a: bv8, b: bv8)
    requires a & b == 0
    ensures a | b == a + b && a as int + b as int == (a + b) as int
  {
  }

  /** `(hi << 4) | (lo >> 4)` stored in eight bits */
  lemma StraddleAgrees(hi: bv8, lo: bv8)
    ensures Nibbles.Straddle(hi as int, lo as int) == ((hi << 4) | (lo >> 4)) as int
  {
    ShiftLeftAgrees(hi);
    ShiftRightAgrees(lo);
    assert (hi << 4) & (lo >> 4) == 0;
    DisjointOr(hi << 4, lo >> 4);
  }
}
