/**
 Formats that put a 4-bit signature in front of the payload, so that every byte straddles two canonical
 bytes.  `ShiftDown` and `ShiftUp` are the byte-wise loops of the C code; both are shown to move canonical
 bit `j` to bit `j + 4` and back.
 */
module Nibbles {
  import opened Bits
  import opened Placement

  /** `(hi << 4) | (lo >> 4)` truncated to 8 bits. */
  function Straddle(hi: byte, lo: byte): byte {
    hi % 16 * 16 + lo / 16
  }

  lemma QuarterBits(w: nat, k: nat)
    ensures Bit(w / 16, k) == Bit(w, k + 4)
  {
    assert Bit(w, k + 4) == Bit(w / 2, k + 3) == Bit(w / 2 / 2, k + 2) == Bit(w / 2 / 2 / 2, k + 1);
  }

  /** A multiple of 2^j does not show in the low `j` bits. */
  lemma {:induction false} MultipleBits(q: nat, r: nat, j: nat, k: nat)
    requires k < j
    ensures Bit(Pow2(j) * q + r, k) == Bit(r, k)
  {
    var h := Pow2(j - 1) * q;
    assert Pow2(j) * q == 2 * h;
    if k == 0 {
    } else {
      MultipleBits(q, r / 2, j - 1, k - 1);
      assert (2 * h + r) / 2 == h + r / 2;
    }
  }

  /** Byte `b` consists of the low nibble of `hi` and the high nibble of `lo`. */
  ghost predicate Straddles(hi: byte, lo: byte, b: byte) {
    forall k :: 0 <= k < 8 ==> Bit(b, k) == if k < 4 then Bit(lo, k + 4) else Bit(hi, k - 4)
  }

  lemma StraddleStraddles(hi: byte, lo: byte)
    ensures Straddles(hi, lo, Straddle(hi, lo))
  {
    forall k | 0 <= k < 8
      ensures Bit(Straddle(hi, lo), k) == if k < 4 then Bit(lo, k + 4) else Bit(hi, k - 4)
    {
      StraddleBits(hi, lo, k);
    }
  }

  lemma StraddleBits(hi: byte, lo: byte, k: nat)
    requires k < 8
    ensures Bit(Straddle(hi, lo), k) == if k < 4 then Bit(lo, k + 4) else Bit(hi, k - 4)
  {
    assert Pow2(4) == 16;
    if k < 4 {
      MultipleBits(hi % 16, lo / 16, 4, k);
      QuarterBits(lo, k);
    } else {
      QuarterBits(Straddle(hi, lo), k - 4);
      MultipleBits(hi / 16, hi % 16, 4, k - 4);
    }
  }

  function Base(n: nat, magic: byte): (b: seq<byte>)
    requires 0 < n && magic < 16
    ensures |b| == n
  {
    [Straddle(magic, 0)] + Zeros(n - 1)
  }

  /** `n`-byte frames with signature `magic`: canonical bit `j` is bit `j + 4`, the last canonical nibble is unused. */
  function NibbleLayout(n: nat, magic: byte): (l: Layout)
    requires 0 < n && magic < 16
    ensures l.Valid()
  {
    Layout(Side(Msb, n, Run(0, 8 * n - 4)), Side(Msb, n, Run(4, 8 * n - 4)), Base(n, magic))
  }

  lemma NibbleCovers(n: nat, magic: byte)
    requires 0 < n && magic < 16
    ensures NibbleLayout(n, magic).Covers(8 * n - 4)
  {
    RunPermutes(8 * n - 4);
    PermutationCovers(NibbleLayout(n, magic).canon.pos, 8 * n - 4);
  }

  // --- Shifting down ------------------------------------------------------------------------------------

  /** The byte whose low nibble goes in front of byte `i`. */
  function Before(magic: byte, src: seq<byte>, i: nat): byte
    requires i < |src|
  {
    if i == 0 then magic else src[i - 1]
  }

  ghost predicate ShiftedDown(magic: byte, src: seq<byte>, dst: seq<byte>) {
    |dst| == |src| && forall i :: 0 <= i < |src| ==> Straddles(Before(magic, src, i), src[i], dst[i])
  }

  /** Bit `k` of byte `i` by its position in the frame. */
  lemma BitAt(s: seq<byte>, p: nat, i: nat, k: nat)
    requires i < |s| && k < 8 && p == 8 * i + 7 - k
    ensures Get(Msb, s, p) == Bit(s[i], k)
  {
    assert p / 8 == i && p % 8 == 7 - k;
  }

  lemma DownLow(magic: byte, src: seq<byte>, dst: seq<byte>, p: nat, i: nat, k: nat)
    requires ShiftedDown(magic, src, dst) && p == 8 * i + 7 - k && i < |src| && k < 4
    ensures Get(Msb, dst, p) == Get(Msb, src, p - 4)
  {
    assert Straddles(Before(magic, src, i), src[i], dst[i]);
    assert Bit(dst[i], k) == Bit(src[i], k + 4);
    BitAt(dst, p, i, k);
    BitAt(src, p - 4, i, k + 4);
  }

  lemma DownHigh(magic: byte, src: seq<byte>, dst: seq<byte>, p: nat, i: nat, k: nat)
    requires ShiftedDown(magic, src, dst) && p == 8 * i + 7 - k && 0 < i < |src| && 4 <= k < 8
    ensures Get(Msb, dst, p) == Get(Msb, src, p - 4)
  {
    assert Straddles(Before(magic, src, i), src[i], dst[i]);
    assert Bit(dst[i], k) == Bit(src[i - 1], k - 4);
    BitAt(dst, p, i, k);
    BitAt(src, p - 4, i - 1, k - 4);
  }

  lemma DownBit(magic: byte, src: seq<byte>, dst: seq<byte>, p: nat)
    requires ShiftedDown(magic, src, dst) && 4 <= p < 8 * |src|
    ensures Get(Msb, dst, p) == Get(Msb, src, p - 4)
  {
    if p % 8 < 4 {
      DownHigh(magic, src, dst, p, p / 8, 7 - p % 8);
    } else {
      DownLow(magic, src, dst, p, p / 8, 7 - p % 8);
    }
  }

  lemma DownMagic(magic: byte, src: seq<byte>, dst: seq<byte>, p: nat)
    requires ShiftedDown(magic, src, dst) && p < 4 && 0 < |src| && magic < 16
    ensures Get(Msb, dst, p) == Get(Msb, Base(|src|, magic), p)
  {
    assert Straddles(Before(magic, src, 0), src[0], dst[0]);
    StraddleStraddles(magic, 0);
  }

  lemma Positions(n: nat, magic: byte, i: nat)
    requires 0 < n && magic < 16 && i < 8 * n - 4
    ensures NibbleLayout(n, magic).side.pos[i] == i + 4 && NibbleLayout(n, magic).canon.pos[i] == i
  {
  }

  lemma DownRest(magic: byte, src: seq<byte>, dst: seq<byte>, p: nat)
    requires ShiftedDown(magic, src, dst) && magic < 16 && 0 < |src| && p < 8 * |src|
    requires p !in NibbleLayout(|src|, magic).side.pos
    ensures Get(Msb, dst, p) == Get(Msb, Base(|src|, magic), p)
  {
    RunHits(4, 8 * |src| - 4, p);
    DownMagic(magic, src, dst, p);
  }

  lemma DownIsMove(magic: byte, src: seq<byte>, dst: seq<byte>)
    requires ShiftedDown(magic, src, dst) && magic < 16 && 0 < |src|
    ensures dst == NibbleLayout(|src|, magic).FromCanon(src)
  {
    var l := NibbleLayout(|src|, magic);
    forall i: nat | i < |l.side.pos| ensures Get(Msb, dst, l.side.pos[i]) == Get(Msb, src, l.canon.pos[i]) {
      Positions(|src|, magic, i);
      DownBit(magic, src, dst, i + 4);
    }
    forall p: nat | p < 8 * |src| && p !in l.side.pos ensures Get(Msb, dst, p) == Get(Msb, l.base, p) {
      DownRest(magic, src, dst, p);
    }
    MoveUnique(l.canon, l.side, l.base, src, dst);
  }

  /** The loop of `gsm_from_canon` and `rtp_efr_from_canon`. */
  method ShiftDown(dst: array<byte>, magic: byte, src: seq<byte>)
    requires 0 < |src| <= dst.Length && magic < 16
    modifies dst
    ensures dst[..] == NibbleLayout(|src|, magic).FromCanon(src) + old(dst[..][|src|..])
  {
    dst[0] := Straddle(magic, src[0]);
    StraddleStraddles(magic, src[0]);
    var i := 1;
    while i < |src|
      invariant 1 <= i <= |src|
      invariant forall j :: 0 <= j < i ==> Straddles(Before(magic, src, j), src[j], dst[j])
      invariant forall j :: |src| <= j < dst.Length ==> dst[j] == old(dst[j])
    {
      dst[i] := Straddle(src[i - 1], src[i]);
      StraddleStraddles(src[i - 1], src[i]);
      i := i + 1;
    }
    assert dst[..] == dst[..|src|] + old(dst[..][|src|..]);
    DownIsMove(magic, src, dst[..|src|]);
  }

  // --- Shifting up --------------------------------------------------------------------------------------

  /** The byte whose high nibble goes behind byte `i`. */
  function Behind(src: seq<byte>, i: nat): byte
    requires i < |src|
  {
    if i + 1 < |src| then src[i + 1] else 0
  }

  ghost predicate ShiftedUp(src: seq<byte>, dst: seq<byte>) {
    |dst| == |src| && forall i :: 0 <= i < |src| ==> Straddles(src[i], Behind(src, i), dst[i])
  }

  lemma UpHigh(src: seq<byte>, dst: seq<byte>, p: nat, i: nat, k: nat)
    requires ShiftedUp(src, dst) && p == 8 * i + 7 - k && i < |src| && 4 <= k < 8
    ensures Get(Msb, dst, p) == Get(Msb, src, p + 4)
  {
    assert Straddles(src[i], Behind(src, i), dst[i]);
    assert Bit(dst[i], k) == Bit(src[i], k - 4);
    BitAt(dst, p, i, k);
    BitAt(src, p + 4, i, k - 4);
  }

  lemma UpLow(src: seq<byte>, dst: seq<byte>, p: nat, i: nat, k: nat)
    requires ShiftedUp(src, dst) && p == 8 * i + 7 - k && i < |src| && k < 4
    ensures Get(Msb, dst, p) == Get(Msb, src, p + 4)
  {
    assert Straddles(src[i], Behind(src, i), dst[i]);
    assert Bit(dst[i], k) == Bit(Behind(src, i), k + 4);
    BitAt(dst, p, i, k);
    if i + 1 < |src| {
      BitAt(src, p + 4, i + 1, k + 4);
    } else {
      ZeroBits(k + 4);
    }
  }

  lemma UpBit(src: seq<byte>, dst: seq<byte>, p: nat)
    requires ShiftedUp(src, dst) && p < 8 * |src|
    ensures Get(Msb, dst, p) == Get(Msb, src, p + 4)
  {
    if p % 8 < 4 {
      UpHigh(src, dst, p, p / 8, 7 - p % 8);
    } else {
      UpLow(src, dst, p, p / 8, 7 - p % 8);
    }
  }

  lemma UpIsMove(magic: byte, src: seq<byte>, dst: seq<byte>)
    requires ShiftedUp(src, dst) && magic < 16 && 0 < |src|
    ensures dst == NibbleLayout(|src|, magic).ToCanon(src)
  {
    var l := NibbleLayout(|src|, magic);
    forall i: nat | i < |l.canon.pos| ensures Get(Msb, dst, l.canon.pos[i]) == Get(Msb, src, l.side.pos[i]) {
      UpBit(src, dst, i);
    }
    forall p: nat | p < 8 * |src| && p !in l.canon.pos ensures Get(Msb, dst, p) == Get(Msb, Zeros(|src|), p) {
      RunHits(0, 8 * |src| - 4, p);
      UpBit(src, dst, p);
      ZerosAreClear(Msb, |src|);
    }
    MoveUnique(l.side, l.canon, Zeros(|src|), src, dst);
  }

  /** The loop of `gsm_to_canon` and `rtp_efr_to_canon`. */
  method ShiftUp(dst: array<byte>, magic: byte, src: seq<byte>)
    requires 0 < |src| <= dst.Length && magic < 16
    modifies dst
    ensures dst[..] == NibbleLayout(|src|, magic).ToCanon(src) + old(dst[..][|src|..])
  {
    var i := 0;
    while i < |src| - 1
      invariant 0 <= i <= |src| - 1
      invariant forall j :: 0 <= j < i ==> Straddles(src[j], Behind(src, j), dst[j])
      invariant forall j :: |src| <= j < dst.Length ==> dst[j] == old(dst[j])
    {
      dst[i] := Straddle(src[i], src[i + 1]);
      StraddleStraddles(src[i], src[i + 1]);
      i := i + 1;
    }
    dst[i] := Straddle(src[i], 0);
    StraddleStraddles(src[i], 0);
    assert dst[..] == dst[..|src|] + old(dst[..][|src|..]);
    UpIsMove(magic, src, dst[..|src|]);
  }

  // --- Facts about the layout ---------------------------------------------------------------------------

  /** Canonical bit `j` is bit `j + 4`. */
  lemma ShiftedBit(n: nat, magic: byte, x: seq<byte>, j: nat)
    requires 0 < n && magic < 16 && j < 8 * n - 4
    ensures Get(Msb, NibbleLayout(n, magic).FromCanon(x), j + 4) == Get(Msb, x, j)
    ensures Get(Msb, NibbleLayout(n, magic).ToCanon(x), j) == Get(Msb, x, j + 4)
  {
    var l := NibbleLayout(n, magic);
    MoveBits(l.canon, l.side, l.base, x);
    MoveBits(l.side, l.canon, Zeros(n), x);
    assert l.side.pos[j] == j + 4 && l.canon.pos[j] == j;
  }

  lemma BaseBit(n: nat, magic: byte, p: nat)
    requires 0 < n && magic < 16 && 4 <= p < 8 * n
    ensures !Get(Msb, Base(n, magic), p)
  {
    if p < 8 {
      BitAt(Base(n, magic), p, 0, 7 - p);
      StraddleBits(magic, 0, 7 - p);
      ZeroBits(11 - p);
    } else {
      ZeroByte(Msb, Base(n, magic), p);
    }
  }

  lemma NothingAt(n: nat, magic: byte, x: seq<byte>, i: nat)
    requires 0 < n && magic < 16 && i < 8 * n - 4 && !Get(Msb, x, i)
    ensures var l := NibbleLayout(n, magic); Get(Msb, l.base, l.side.pos[i]) == Get(Msb, x, l.canon.pos[i])
  {
    BaseBit(n, magic, i + 4);
  }

  lemma NothingStored(n: nat, magic: byte, x: seq<byte>)
    requires 0 < n && magic < 16 && forall p: nat :: p < 8 * n - 4 ==> !Get(Msb, x, p)
    ensures NibbleLayout(n, magic).FromCanon(x) == Base(n, magic)
  {
    var l := NibbleLayout(n, magic);
    forall i: nat | i < |l.side.pos| ensures Get(Msb, l.base, l.side.pos[i]) == Get(Msb, x, l.canon.pos[i]) {
      NothingAt(n, magic, x, i);
    }
    MoveUnique(l.canon, l.side, l.base, x, l.base);
  }

  lemma SomethingStored(n: nat, magic: byte, x: seq<byte>, p: nat)
    requires 0 < n && magic < 16 && p < 8 * n - 4 && Get(Msb, x, p)
    ensures NibbleLayout(n, magic).FromCanon(x) != Base(n, magic)
  {
    ShiftedBit(n, magic, x, p);
    BaseBit(n, magic, p + 4);
  }

  /** Only a frame without payload is stored as the bare signature. */
  lemma BareIff(n: nat, magic: byte, x: seq<byte>)
    requires 0 < n && magic < 16
    ensures NibbleLayout(n, magic).FromCanon(x) == Base(n, magic)
        <==> forall p: nat :: p < 8 * n - 4 ==> !Get(Msb, x, p)
  {
    if p: nat :| p < 8 * n - 4 && Get(Msb, x, p) {
      SomethingStored(n, magic, x, p);
    } else {
      NothingStored(n, magic, x);
    }
  }

  lemma SignatureBits(magic: byte, b: byte, k: nat)
    requires magic < 16 && k < 8
    ensures Bit(magic * 16 + b % 16, k) == if k < 4 then Bit(b, k) else Bit(magic, k - 4)
  {
    assert Pow2(4) == 16;
    if k < 4 {
      MultipleBits(magic, b % 16, 4, k);
      MultipleBits(b / 16, b % 16, 4, k);
    } else {
      QuarterBits(magic * 16 + b % 16, k - 4);
    }
  }

  /** `z` is `y` with its leading nibble set to `magic`. */
  ghost predicate Signed(magic: byte, y: seq<byte>, z: seq<byte>) {
    magic < 16 && 0 < |y| == |z| && z[0] == magic * 16 + y[0] % 16 && z[1..] == y[1..]
  }

  lemma SignedPayload(magic: byte, y: seq<byte>, z: seq<byte>, p: nat)
    requires Signed(magic, y, z) && 4 <= p < 8 * |y|
    ensures Get(Msb, z, p) == Get(Msb, y, p)
  {
    if p < 8 {
      SignatureBits(magic, y[0], 7 - p);
    } else {
      assert z[1..][p / 8 - 1] == y[1..][p / 8 - 1];
    }
  }

  lemma SignedMagic(magic: byte, y: seq<byte>, z: seq<byte>, p: nat)
    requires Signed(magic, y, z) && p < 4
    ensures Get(Msb, z, p) == Get(Msb, Base(|y|, magic), p)
  {
    SignatureBits(magic, y[0], 7 - p);
    StraddleStraddles(magic, 0);
    assert Bit(Straddle(magic, 0), 7 - p) == Bit(magic, 3 - p);
  }

  lemma SignedIsMove(magic: byte, y: seq<byte>, z: seq<byte>)
    requires Signed(magic, y, z)
    ensures var l := NibbleLayout(|y|, magic); z == Move(l.side, l.side, l.base, y)
  {
    var l := NibbleLayout(|y|, magic);
    forall i: nat | i < |l.side.pos| ensures Get(Msb, z, l.side.pos[i]) == Get(Msb, y, l.side.pos[i]) {
      SignedPayload(magic, y, z, i + 4);
    }
    forall p: nat | p < 8 * |y| && p !in l.side.pos ensures Get(Msb, z, p) == Get(Msb, l.base, p) {
      RunHits(4, 8 * |y| - 4, p);
      SignedMagic(magic, y, z, p);
    }
    MoveUnique(l.side, l.side, l.base, y, z);
  }

  /** Through canonical form and back only the leading nibble of a frame can change: it becomes the signature. */
  lemma Signature(magic: byte, y: seq<byte>)
    requires magic < 16 && 0 < |y|
    ensures var l := NibbleLayout(|y|, magic); l.FromCanon(l.ToCanon(y)) == [magic * 16 + y[0] % 16] + y[1..]
  {
    SignedIsMove(magic, y, [magic * 16 + y[0] % 16] + y[1..]);
    NibbleLayout(|y|, magic).SideRoundTrip(y);
  }

  function DownBytes(magic: byte, x: seq<byte>): (dst: seq<byte>)
    requires magic < 16
    ensures |dst| == |x| && forall i :: 0 <= i < |x| ==> dst[i] == Straddle(Before(magic, x, i), x[i])
  {
    seq(|x|, i requires 0 <= i < |x| => Straddle(Before(magic, x, i), x[i]))
  }

  lemma DownBytesShifted(magic: byte, x: seq<byte>)
    requires magic < 16
    ensures ShiftedDown(magic, x, DownBytes(magic, x))
  {
    forall i | 0 <= i < |x| ensures Straddles(Before(magic, x, i), x[i], DownBytes(magic, x)[i]) {
      StraddleStraddles(Before(magic, x, i), x[i]);
    }
  }

  /** Byte by byte: the low nibble of the byte before, or the signature, in front of the high nibble. */
  lemma FromByte(magic: byte, x: seq<byte>, i: nat)
    requires magic < 16 && i < |x|
    ensures var y := NibbleLayout(|x|, magic).FromCanon(x);
      |y| == |x| && y[i] == (if i == 0 then magic else x[i - 1] % 16) * 16 + x[i] / 16
  {
    FromIsDown(magic, x);
    StraddleIs(Before(magic, x, i), x[i]);
  }

  lemma StraddleIs(hi: byte, lo: byte)
    ensures Straddle(hi, lo) == hi % 16 * 16 + lo / 16
    ensures hi < 16 ==> Straddle(hi, lo) == hi * 16 + lo / 16
  {
  }

  lemma FromIsDown(magic: byte, x: seq<byte>)
    requires magic < 16 && 0 < |x|
    ensures NibbleLayout(|x|, magic).FromCanon(x) == DownBytes(magic, x)
  {
    DownBytesShifted(magic, x);
    DownIsMove(magic, x, DownBytes(magic, x));
  }

  function UpBytes(y: seq<byte>): (dst: seq<byte>)
    ensures |dst| == |y| && forall i :: 0 <= i < |y| ==> dst[i] == Straddle(y[i], Behind(y, i))
  {
    seq(|y|, i requires 0 <= i < |y| => Straddle(y[i], Behind(y, i)))
  }

  lemma UpBytesShifted(y: seq<byte>)
    ensures ShiftedUp(y, UpBytes(y))
  {
    forall i | 0 <= i < |y| ensures Straddles(y[i], Behind(y, i), UpBytes(y)[i]) {
      StraddleStraddles(y[i], Behind(y, i));
    }
  }

  /** And back: the low nibble in front of the high nibble of the next byte, zero at the end. */
  lemma ToByte(magic: byte, y: seq<byte>, i: nat)
    requires magic < 16 && i < |y|
    ensures var x := NibbleLayout(|y|, magic).ToCanon(y);
      |x| == |y| && x[i] == y[i] % 16 * 16 + if i + 1 < |y| then y[i + 1] / 16 else 0
  {
    ToIsUp(magic, y);
  }

  lemma ToIsUp(magic: byte, y: seq<byte>)
    requires magic < 16 && 0 < |y|
    ensures NibbleLayout(|y|, magic).ToCanon(y) == UpBytes(y)
  {
    UpBytesShifted(y);
    UpIsMove(magic, y, UpBytes(y));
  }
}
