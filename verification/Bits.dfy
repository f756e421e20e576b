/**
 Bytes, 16-bit words and the two bit orders of include/osmocom/gapk/utils.h.

 A byte is an integer in 0..255 and bit `k` of it is the one of weight 2^k, so every C operator used
 on frames has an arithmetic reading: `x >> k & 1` is `Bit(x, k)`, `x |= 1 << k` and `x &= ~(1 << k)`
 are the two branches of `PutBit`.  Module `ByteOperators` ties these readings to 8-bit bit-vectors.
 */
module Bits {

  type byte = x: int | 0 <= x < 0x100
  type word = x: int | 0 <= x < 0x1_0000

  function Pow2(k: nat): (p: nat)
    ensures p >= 1
  {
    if k == 0 then 1 else 2 * Pow2(k - 1)
  }

  /** Bit `k` of `w`, that is, `(w >> k) & 1`. */
  predicate Bit(w: nat, k: nat) {
    if k == 0 then w % 2 == 1 else Bit(w / 2, k - 1)
  }

  lemma SetBitWeighs(w: nat, k: nat)
    requires Bit(w, k)
    ensures w >= Pow2(k)
  {
  }

  /** `w |= 1 << k` when `v`, and `w &= ~(1 << k)` otherwise. */
  function PutBit(w: nat, k: nat, v: bool): (r: nat) {
    if Bit(w, k) == v then w
    else if v then w + Pow2(k)
    else SetBitWeighs(w, k); w - Pow2(k)
  }

  /** Writing a bit sets that bit, keeps every other one, and cannot grow the value past its width. */
  lemma {:induction false} PutBitBits(w: nat, k: nat, v: bool, j: nat, width: nat)
    requires k < width && w < Pow2(width)
    ensures Bit(PutBit(w, k, v), j) == if j == k then v else Bit(w, j)
    ensures PutBit(w, k, v) < Pow2(width)
    decreases k
  {
    if k == 0 {
    } else {
      assert PutBit(w, k, v) == 2 * PutBit(w / 2, k - 1, v) + w % 2;
      PutBitBits(w / 2, k - 1, v, if j == 0 then 0 else j - 1, width - 1);
    }
  }

  /** A value below 2^width is determined by its low `width` bits. */
  lemma {:induction false} BitsDetermine(a: nat, b: nat, width: nat)
    requires a < Pow2(width) && b < Pow2(width)
    requires forall k :: 0 <= k < width ==> Bit(a, k) == Bit(b, k)
    ensures a == b
  {
    if width == 0 {
    } else {
      forall k | 0 <= k < width - 1
        ensures Bit(a / 2, k) == Bit(b / 2, k)
      {
        assert Bit(a, k + 1) == Bit(b, k + 1);
      }
      BitsDetermine(a / 2, b / 2, width - 1);
      assert Bit(a, 0) == Bit(b, 0);
    }
  }

  /** `msb_*` numbers the bits of a byte from its most significant one, `lsb_*` from the other end. */
  datatype Order = Msb | Lsb {
    function Lane(p: nat): (k: nat)
      ensures k < 8
    {
      if Msb? then 7 - p % 8 else p % 8
    }
  }

  /** `msb_get_bit(s, p)` or `lsb_get_bit(s, p)`, false past the end of `s`. */
  predicate Get(o: Order, s: seq<byte>, p: nat) {
    p / 8 < |s| && Bit(s[p / 8], o.Lane(p))
  }

  /** `msb_*` starts with the bit of weight 128, `lsb_*` with the bit of weight 1. */
  lemma OrdersAre(s: seq<byte>, i: nat, r: nat)
    requires i < |s| && r < 8
    ensures Get(Msb, s, 8 * i + r) == Bit(s[i], 7 - r)
    ensures Get(Lsb, s, 8 * i + r) == Bit(s[i], r)
  {
    assert (8 * i + r) / 8 == i && (8 * i + r) % 8 == r;
  }

  function PutByte(b: byte, k: nat, v: bool): (r: byte)
    requires k < 8
    ensures r == PutBit(b, k, v)
    ensures forall j: nat :: Bit(r, j) == if j == k then v else Bit(b, j)
  {
    assert b < Pow2(8) && Pow2(8) == 256;
    forall j: nat ensures Bit(PutBit(b, k, v), j) == (if j == k then v else Bit(b, j)) && PutBit(b, k, v) < 256 {
      PutBitBits(b, k, v, j, 8);
    }
    assert Bit(PutBit(b, k, v), k) == v;
    PutBit(b, k, v)
  }

  /** `msb_put_bit(s, p, v)` or `lsb_put_bit(s, p, v)` as a value: bit `p` becomes `v`, no other bit changes. */
  function Put(o: Order, s: seq<byte>, p: nat, v: bool): (r: seq<byte>)
    requires p < 8 * |s|
    ensures |r| == |s|
    ensures forall q: nat :: Get(o, r, q) == if q == p then v else Get(o, s, q)
  {
    assert forall q: nat :: q / 8 == p / 8 && o.Lane(q) == o.Lane(p) ==> q == p;
    s[p / 8 := PutByte(s[p / 8], o.Lane(p), v)]
  }

  /** A frame is determined by its bits, in either order. */
  lemma {:induction false} SameBits(o: Order, a: seq<byte>, b: seq<byte>)
    requires |a| == |b|
    requires forall p: nat :: p < 8 * |a| ==> Get(o, a, p) == Get(o, b, p)
    ensures a == b
  {
    forall i | 0 <= i < |a|
      ensures a[i] == b[i]
    {
      forall k | 0 <= k < 8
        ensures Bit(a[i], k) == Bit(b[i], k)
      {
        var p := 8 * i + o.Lane(k);
        assert p / 8 == i && o.Lane(p) == k;
        assert Get(o, a, p) == Get(o, b, p);
      }
      assert Pow2(8) == 256;
      BitsDetermine(a[i], b[i], 8);
    }
  }

  function Zeros(n: nat): (s: seq<byte>)
    ensures |s| == n && forall i :: 0 <= i < n ==> s[i] == 0
  {
    seq(n, _ => 0)
  }

  lemma ZeroBits(k: nat)
    ensures !Bit(0, k)
  {
  }

  lemma ZeroByte(o: Order, s: seq<byte>, p: nat)
    requires p < 8 * |s| && s[p / 8] == 0
    ensures !Get(o, s, p)
  {
    ZeroBits(o.Lane(p));
  }

  lemma ZerosAreClear(o: Order, n: nat)
    ensures forall p: nat :: !Get(o, Zeros(n), p)
  {
    forall p: nat
      ensures !Get(o, Zeros(n), p)
    {
      ZeroBits(o.Lane(p));
    }
  }

  function ByteOf(o: Order, f: nat -> bool, at: nat, end: nat): (b: byte)
    requires at <= end <= at + 8
    ensures forall k :: 0 <= k < end - at ==> Bit(b, o.Lane(k)) == f(at + k)
    decreases end
  {
    if at == end then 0 else PutByte(ByteOf(o, f, at, end - 1), o.Lane(end - 1 - at), f(end - 1))
  }

  lemma PackedBit(o: Order, f: nat -> bool, s: seq<byte>, p: nat)
    requires p < 8 * |s| && s[p / 8] == ByteOf(o, f, 8 * (p / 8), 8 * (p / 8) + 8)
    ensures Get(o, s, p) == f(p)
  {
    var k := p % 8;
    assert o.Lane(k) == o.Lane(p) && 8 * (p / 8) + k == p;
    assert Bit(s[p / 8], o.Lane(k)) == f(8 * (p / 8) + k);
  }

  /** The `n`-byte frame whose bit `p`, for every `p` below `8 * n`, is `f(p)`. */
  function Pack(o: Order, n: nat, f: nat -> bool): (s: seq<byte>)
    ensures |s| == n
    ensures forall p: nat :: Get(o, s, p) == (p < 8 * n && f(p))
  {
    var s := seq(n, i requires 0 <= i => ByteOf(o, f, 8 * i, 8 * i + 8));
    assert forall p: nat :: p < 8 * n ==> Get(o, s, p) == f(p) by {
      forall p: nat | p < 8 * n ensures Get(o, s, p) == f(p) {
        PackedBit(o, f, s, p);
      }
    }
    s
  }

  /** `msb_get_bit` / `lsb_get_bit` on a buffer; the index has to lie in the buffer. */
  method GetBit(o: Order, buf: seq<byte>, bn: nat) returns (v: bool)
    requires bn < 8 * |buf|
    ensures v == Get(o, buf, bn)
  {
    var posByte := bn / 8;
    var posBit := if o.Msb? then 7 - bn % 8 else bn % 8;
    v := Bit(buf[posByte], posBit);
  }

  /** `msb_put_bit` / `lsb_put_bit` on a buffer, in place. */
  method PutBitAt(o: Order, buf: array<byte>, bn: nat, v: bool)
    requires bn < 8 * buf.Length
    modifies buf
    ensures buf[..] == Put(o, old(buf[..]), bn, v)
  {
    var posByte := bn / 8;
    var posBit := if o.Msb? then 7 - bn % 8 else bn % 8;
    buf[posByte] := PutByte(buf[posByte], posBit, v);
  }

  /** `put(dst, di, get(src, si))`, the body of every conversion loop; both indices have to be in range. */
  method CopyBit(od: Order, dst: array<byte>, di: nat, os: Order, src: seq<byte>, si: nat)
    requires di < 8 * dst.Length && si < 8 * |src|
    modifies dst
    ensures dst[..] == Put(od, old(dst[..]), di, Get(os, src, si))
  {
    var v := GetBit(os, src, si);
    PutBitAt(od, dst, di, v);
  }

  /** `memset(dst, 0x00, n)` */
  method Memset(dst: array<byte>, n: nat)
    requires n <= dst.Length
    modifies dst
    ensures dst[..] == Zeros(n) + old(dst[..][n..])
  {
    forall i | 0 <= i < n {
      dst[i] := 0x00;
    }
  }

  /** `memcpy(out, src, |src|)` */
  method Memcpy(out: array<byte>, src: seq<byte>)
    requires |src| <= out.Length
    modifies out
    ensures out[..] == src + old(out[..][|src|..])
  {
    forall i | 0 <= i < |src| {
      out[i] := src[i];
    }
  }
}
