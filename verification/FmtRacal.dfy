/** src/fmt_racal.c: Racal 6103E recordings, the channel-order bits packed from the least significant end. */
module FmtRacal {
  import opened Bits
  import opened Frames
  import opened Placement
  import opened HrTables

  const RACAL_HR_LEN: nat := 14
  const RACAL_FR_LEN: nat := 33
  const RACAL_EFR_LEN: nat := 31

  function HrLayout(): (side: Side)
    ensures HrSide(side) && side.len == RACAL_HR_LEN
  {
    Side(Lsb, RACAL_HR_LEN, Run(0, HR_BITS))
  }

  method HrFromCanon(h: HrOrder, dst: array<byte>, src: seq<byte>) returns (rv: nat)
    requires h.Permutations() && |src| == HR_CANON_LEN && dst.Length >= RACAL_HR_LEN
    modifies dst
    ensures rv == RACAL_HR_LEN && dst[..] == FromCanon(h, HrLayout(), src) + old(dst[..][RACAL_HR_LEN..])
  {
    ghost var init := dst[..];
    var hi := GetBit(Msb, src, 34);
    var lo := GetBit(Msb, src, 35);
    var mapping := if hi || lo then h.voiced else h.unvoiced;
    ghost var canon := h.Canon(hi || lo);
    var i := 0;
    while i < 112
      invariant 0 <= i <= 112
      invariant dst[..] == Loop(init, canon, HrLayout(), src, i)
    {
      assert HrLayout().pos[i] == i;
      CopyBit(Lsb, dst, i, Msb, src, mapping[i]);
      i := i + 1;
    }
    RunPermutes(HR_BITS);
    PermutationCovers(HrLayout().pos, HR_BITS);
    LoopIsMove(init, canon, HrLayout(), Zeros(RACAL_HR_LEN), src);
    return RACAL_HR_LEN;
  }

  method HrToCanon(h: HrOrder, dst: array<byte>, src: seq<byte>) returns (rv: nat)
    requires h.Permutations() && |src| == HR_CANON_LEN && dst.Length >= HR_CANON_LEN
    modifies dst
    ensures rv == HR_CANON_LEN && dst[..] == ToCanon(h, HrLayout(), src) + old(dst[..][HR_CANON_LEN..])
  {
    ghost var init := dst[..];
    var hi := GetBit(Lsb, src, 94);
    var lo := GetBit(Lsb, src, 93);
    var mapping := if hi || lo then h.voiced else h.unvoiced;
    ghost var canon := h.Canon(hi || lo);
    var i := 0;
    while i < 112
      invariant 0 <= i <= 112
      invariant dst[..] == Loop(init, HrLayout(), canon, src, i)
    {
      CopyBit(Msb, dst, mapping[i], Lsb, src, i);
      i := i + 1;
    }
    PermutationCovers(mapping, HR_BITS);
    LoopIsMove(init, HrLayout(), canon, Zeros(HR_CANON_LEN), src);
    return RACAL_HR_LEN;
  }

  function FrLayout(t: seq<nat>): (l: Layout)
    requires Permutation(t, FR_BITS)
    ensures l.Valid()
  {
    Layout(Side(Msb, FR_CANON_LEN, t), Side(Lsb, RACAL_FR_LEN, Run(0, FR_BITS)), Zeros(RACAL_FR_LEN))
  }

  method FrFromCanon(t: seq<nat>, dst: array<byte>, src: seq<byte>) returns (rv: nat)
    requires Permutation(t, FR_BITS) && |src| == FR_CANON_LEN && dst.Length >= RACAL_FR_LEN
    modifies dst
    ensures rv == RACAL_FR_LEN && dst[..] == FrLayout(t).FromCanon(src) + old(dst[..][RACAL_FR_LEN..])
  {
    dst[32] := 0x00;
    ghost var l, init := FrLayout(t), dst[..];
    assert init[RACAL_FR_LEN..] == old(dst[..][RACAL_FR_LEN..]);
    var i := 0;
    while i < 260
      invariant 0 <= i <= 260
      invariant dst[..] == Loop(init, l.canon, l.side, src, i)
    {
      assert l.side.pos[i] == i;
      CopyBit(Lsb, dst, i, Msb, src, t[i]);
      i := i + 1;
    }
    RunPermutes(FR_BITS);
    TailCleared(Lsb, l.side.pos, FR_BITS, RACAL_FR_LEN, init);
    LoopIsMove(init, l.canon, l.side, l.base, src);
    return RACAL_FR_LEN;
  }

  method FrToCanon(t: seq<nat>, dst: array<byte>, src: seq<byte>) returns (rv: nat)
    requires Permutation(t, FR_BITS) && |src| == RACAL_FR_LEN && dst.Length >= FR_CANON_LEN
    modifies dst
    ensures rv == FR_CANON_LEN && dst[..] == FrLayout(t).ToCanon(src) + old(dst[..][FR_CANON_LEN..])
  {
    dst[32] := 0x00;
    ghost var l, init := FrLayout(t), dst[..];
    assert init[FR_CANON_LEN..] == old(dst[..][FR_CANON_LEN..]);
    var i := 0;
    while i < 260
      invariant 0 <= i <= 260
      invariant dst[..] == Loop(init, l.side, l.canon, src, i)
    {
      CopyBit(Msb, dst, t[i], Lsb, src, i);
      i := i + 1;
    }
    TailCleared(Msb, t, FR_BITS, FR_CANON_LEN, init);
    LoopIsMove(init, l.side, l.canon, Zeros(FR_CANON_LEN), src);
    return FR_CANON_LEN;
  }

  /** Enhanced full rate keeps the bit order and only changes the packing. */
  function EfrLayout(): (l: Layout)
    ensures l.Valid()
  {
    Layout(Side(Msb, EFR_CANON_LEN, Run(0, EFR_BITS)), Side(Lsb, RACAL_EFR_LEN, Run(0, EFR_BITS)), Zeros(RACAL_EFR_LEN))
  }

  method EfrFromCanon(dst: array<byte>, src: seq<byte>) returns (rv: nat)
    requires |src| == EFR_CANON_LEN && dst.Length >= RACAL_EFR_LEN
    modifies dst
    ensures rv == RACAL_EFR_LEN && dst[..] == EfrLayout().FromCanon(src) + old(dst[..][RACAL_EFR_LEN..])
  {
    dst[30] := 0x00;
    ghost var l, init := EfrLayout(), dst[..];
    assert init[RACAL_EFR_LEN..] == old(dst[..][RACAL_EFR_LEN..]);
    var i := 0;
    while i < 244
      invariant 0 <= i <= 244
      invariant dst[..] == Loop(init, l.canon, l.side, src, i)
    {
      assert l.side.pos[i] == i;
      CopyBit(Lsb, dst, i, Msb, src, i);
      i := i + 1;
    }
    RunPermutes(EFR_BITS);
    TailCleared(Lsb, l.side.pos, EFR_BITS, RACAL_EFR_LEN, init);
    LoopIsMove(init, l.canon, l.side, l.base, src);
    return RACAL_EFR_LEN;
  }

  method EfrToCanon(dst: array<byte>, src: seq<byte>) returns (rv: nat)
    requires |src| == RACAL_EFR_LEN && dst.Length >= EFR_CANON_LEN
    modifies dst
    ensures rv == EFR_CANON_LEN && dst[..] == EfrLayout().ToCanon(src) + old(dst[..][EFR_CANON_LEN..])
  {
    dst[30] := 0x00;
    ghost var l, init := EfrLayout(), dst[..];
    assert init[EFR_CANON_LEN..] == old(dst[..][EFR_CANON_LEN..]);
    var i := 0;
    while i < 244
      invariant 0 <= i <= 244
      invariant dst[..] == Loop(init, l.side, l.canon, src, i)
    {
      assert l.canon.pos[i] == i;
      CopyBit(Msb, dst, i, Lsb, src, i);
      i := i + 1;
    }
    RunPermutes(EFR_BITS);
    TailCleared(Msb, l.canon.pos, EFR_BITS, EFR_CANON_LEN, init);
    LoopIsMove(init, l.side, l.canon, Zeros(EFR_CANON_LEN), src);
    return EFR_CANON_LEN;
  }

  lemma EfrCovers()
    ensures EfrLayout().Covers(EFR_BITS)
  {
    RunPermutes(EFR_BITS);
    PermutationCovers(EfrLayout().canon.pos, EFR_BITS);
  }

  /** Half rate bit by bit: bit `i`, counted from the least significant end, is bit `i` of the channel order. */
  lemma HrFromBits(h: HrOrder, x: seq<byte>, i: nat)
    requires h.Permutations() && i < 112
    ensures Get(Lsb, FromCanon(h, HrLayout(), x), i)
            == Get(Msb, x, (if Get(Msb, x, 34) || Get(Msb, x, 35) then h.voiced else h.unvoiced)[i])
  {
    HrLands(h, HrLayout(), x, i, 0);
    assert HrLayout().pos[i] == i;
  }

  lemma HrToBits(h: HrOrder, y: seq<byte>, i: nat)
    requires h.Permutations() && i < 112
    ensures Get(Msb, ToCanon(h, HrLayout(), y),
                (if Get(Lsb, y, 93) || Get(Lsb, y, 94) then h.voiced else h.unvoiced)[i]) == Get(Lsb, y, i)
  {
    HrLands(h, HrLayout(), y, i, 0);
    assert HrLayout().pos[i] == i && HrLayout().pos[93] == 93 && HrLayout().pos[94] == 94;
  }

  /** Full rate bit by bit, in both directions, with a clear tail. */
  lemma FrBits(t: seq<nat>, z: seq<byte>, i: nat, p: nat)
    requires Permutation(t, 260) && i < 260 && p < 264
    ensures Get(Lsb, FrLayout(t).FromCanon(z), i) == Get(Msb, z, t[i])
    ensures Get(Msb, FrLayout(t).ToCanon(z), t[i]) == Get(Lsb, z, i)
    ensures 260 <= p ==> !Get(Lsb, FrLayout(t).FromCanon(z), p) && !Get(Msb, FrLayout(t).ToCanon(z), p)
  {
    var l := FrLayout(t);
    l.Lands(z, i, p);
    assert l.side.pos[i] == i;
    RunHits(0, FR_BITS, p);
    ZerosAreClear(Lsb, RACAL_FR_LEN);
  }

  /** EFR bit by bit, in both directions: no table, only the order within bytes. */
  lemma EfrBits(z: seq<byte>, i: nat, p: nat)
    requires i < 244 && p < 248
    ensures Get(Lsb, EfrLayout().FromCanon(z), i) == Get(Msb, z, i)
    ensures Get(Msb, EfrLayout().ToCanon(z), i) == Get(Lsb, z, i)
    ensures 244 <= p ==> !Get(Lsb, EfrLayout().FromCanon(z), p) && !Get(Msb, EfrLayout().ToCanon(z), p)
  {
    var l := EfrLayout();
    l.Lands(z, i, p);
    assert l.side.pos[i] == i && l.canon.pos[i] == i;
    RunHits(0, EFR_BITS, p);
    ZerosAreClear(Lsb, RACAL_EFR_LEN);
  }
}
