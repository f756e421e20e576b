/** src/fmt_amr.c: frames of an .amr file holding EFR, one header byte and the 244 bits in AMR 12.2 order. */
module FmtAmr {
  import opened Bits
  import opened Frames
  import opened Placement

  const EFR_LEN: nat := 32
  const AMR_HEADER: byte := 0x3c

  function Base(): (b: seq<byte>)
    ensures |b| == EFR_LEN && b[0] == AMR_HEADER && forall i :: 1 <= i < EFR_LEN ==> b[i] == 0
  {
    [AMR_HEADER] + Zeros(EFR_LEN - 1)
  }

  /** `t` is `gsm690_12_2_bitorder`. */
  function EfrLayout(t: seq<nat>): (l: Layout)
    requires Permutation(t, EFR_BITS)
    ensures l.Valid()
  {
    Layout(Side(Msb, EFR_CANON_LEN, t), Side(Msb, EFR_LEN, Run(8, EFR_BITS)), Base())
  }

  lemma HeaderAndTailSet(init: seq<byte>)
    requires EFR_LEN <= |init| && init[0] == AMR_HEADER && init[31] == 0
    ensures forall p: nat :: p < 8 * EFR_LEN && p !in Run(8, EFR_BITS) ==> Get(Msb, init, p) == Get(Msb, Base(), p)
  {
    forall p: nat | p < 8 * EFR_LEN && p !in Run(8, EFR_BITS)
      ensures Get(Msb, init, p) == Get(Msb, Base(), p)
    {
      RunHits(8, EFR_BITS, p);
    }
  }

  method EfrFromCanon(t: seq<nat>, dst: array<byte>, src: seq<byte>) returns (rv: nat)
    requires Permutation(t, EFR_BITS) && |src| == EFR_CANON_LEN && dst.Length >= EFR_LEN
    modifies dst
    ensures rv == EFR_LEN && dst[..] == EfrLayout(t).FromCanon(src) + old(dst[..][EFR_LEN..])
  {
    dst[0] := 0x3c;
    dst[31] := 0x00;
    ghost var l, init := EfrLayout(t), dst[..];
    assert init[EFR_LEN..] == old(dst[..][EFR_LEN..]);
    var i := 0;
    while i < 244
      invariant 0 <= i <= 244
      invariant dst[..] == Loop(init, l.canon, l.side, src, i)
    {
      assert l.side.pos[i] == 8 + i;
      CopyBit(Msb, dst, 8 + i, Msb, src, t[i]);  // bit i of &dst[1]
      i := i + 1;
    }
    HeaderAndTailSet(init);
    LoopIsMove(init, l.canon, l.side, l.base, src);
    return EFR_LEN;
  }

  /** Frames whose header byte is not 0x3c are refused before anything is written. */
  method EfrToCanon(t: seq<nat>, dst: array<byte>, src: seq<byte>) returns (rv: int)
    requires Permutation(t, EFR_BITS) && |src| == EFR_LEN && dst.Length >= EFR_CANON_LEN
    modifies dst
    ensures src[0] != AMR_HEADER ==> rv == -1 && dst[..] == old(dst[..])
    ensures src[0] == AMR_HEADER ==>
      rv == EFR_CANON_LEN && dst[..] == EfrLayout(t).ToCanon(src) + old(dst[..][EFR_CANON_LEN..])
  {
    if src[0] != 0x3c {
      return -1;
    }
    dst[30] := 0x00;
    ghost var l, init := EfrLayout(t), dst[..];
    assert init[EFR_CANON_LEN..] == old(dst[..][EFR_CANON_LEN..]);
    var i := 0;
    while i < 244
      invariant 0 <= i <= 244
      invariant dst[..] == Loop(init, l.side, l.canon, src, i)
    {
      CopyBit(Msb, dst, t[i], Msb, src, 8 + i);  // bit i of &src[1]
      i := i + 1;
    }
    TailCleared(Msb, t, EFR_BITS, EFR_CANON_LEN, init);
    LoopIsMove(init, l.side, l.canon, Zeros(EFR_CANON_LEN), src);
    return EFR_CANON_LEN;
  }

  /** What the format writes always carries the header byte that it demands when reading. */
  lemma HeaderWritten(t: seq<nat>, x: seq<byte>)
    requires Permutation(t, EFR_BITS)
    ensures |EfrLayout(t).FromCanon(x)| == EFR_LEN && EfrLayout(t).FromCanon(x)[0] == AMR_HEADER
  {
    var l := EfrLayout(t);
    var y := l.FromCanon(x);
    MoveBits(l.canon, l.side, l.base, x);
    forall p: nat | p < 8
      ensures Get(Msb, y[..1], p) == Get(Msb, Base()[..1], p)
    {
      RunHits(8, EFR_BITS, p);
      assert Get(Msb, y, p) == Get(Msb, Base(), p);
    }
    SameBits(Msb, y[..1], Base()[..1]);
  }

  /** The frame starts with 0x3c. */
  lemma HeaderIs(t: seq<nat>, x: seq<byte>)
    requires Permutation(t, 244)
    ensures |EfrLayout(t).FromCanon(x)| == 32 && EfrLayout(t).FromCanon(x)[0] == 0x3c
  {
    HeaderWritten(t, x);
  }

  lemma TailClear(p: nat)
    requires 252 <= p < 256
    ensures !Get(Msb, Base(), p) && p !in Run(8, 244)
  {
    RunHits(8, 244, p);
    ZeroByte(Msb, Base(), p);
  }

  /** Bit by bit, in both directions: table entry `i` is bit `i` behind the header byte, and the tail is clear. */
  lemma EfrBits(t: seq<nat>, z: seq<byte>, i: nat, p: nat)
    requires Permutation(t, 244) && i < 244
    ensures Get(Msb, EfrLayout(t).FromCanon(z), 8 + i) == Get(Msb, z, t[i])
    ensures Get(Msb, EfrLayout(t).ToCanon(z), t[i]) == Get(Msb, z, 8 + i)
    ensures 252 <= p < 256 ==> !Get(Msb, EfrLayout(t).FromCanon(z), p)
    ensures 244 <= p < 248 ==> !Get(Msb, EfrLayout(t).ToCanon(z), p)
  {
    EfrLayout(t).Lands(z, i, p);
    if 252 <= p < 256 {
      TailClear(p);
    }
  }
}
