/** src/fmt_ti.c: the buffer format of the TI Calypso, 33 bytes for half and full rate. */
module FmtTi {
  import opened Bits
  import opened Frames
  import opened Placement
  import opened HrTables

  const TI_LEN: nat := 33

  /** From bit 95 on, half-rate bits are moved up by the 4-bit gap. */
  function HrLayout(): (side: Side)
    ensures HrSide(side) && side.len == TI_LEN
  {
    Side(Msb, TI_LEN, Gapped(HR_BITS, 95))
  }

  method HrFromCanon(h: HrOrder, dst: array<byte>, src: seq<byte>) returns (rv: nat)
    requires h.Permutations() && |src| == HR_CANON_LEN && dst.Length >= TI_LEN
    modifies dst
    ensures rv == TI_LEN && dst[..] == FromCanon(h, HrLayout(), src) + old(dst[..][TI_LEN..])
  {
    Memset(dst, TI_LEN);
    ghost var init := dst[..];
    var hi := GetBit(Msb, src, 34);
    var lo := GetBit(Msb, src, 35);
    var mapping := if hi || lo then h.voiced else h.unvoiced;
    ghost var canon := h.Canon(hi || lo);
    var i := 0;
    while i < 112
      invariant 0 <= i <= 112
      invariant dst[..] == Loop(init, canon, HrLayout(), src, i)
    {
      var si := mapping[i];
      var di := if i >= 95 then i + 4 else i;
      assert di == HrLayout().pos[i];
      CopyBit(Msb, dst, di, Msb, src, si);
      i := i + 1;
    }
    LoopIsMoveCleared(old(dst[..][TI_LEN..]), canon, HrLayout(), src);
    return TI_LEN;
  }

  method HrToCanon(h: HrOrder, dst: array<byte>, src: seq<byte>) returns (rv: nat)
    requires h.Permutations() && |src| == TI_LEN && dst.Length >= HR_CANON_LEN
    modifies dst
    ensures rv == HR_CANON_LEN && dst[..] == ToCanon(h, HrLayout(), src) + old(dst[..][HR_CANON_LEN..])
  {
    ghost var init := dst[..];
    var hi := GetBit(Msb, src, 94);
    var lo := GetBit(Msb, src, 93);
    var mapping := if hi || lo then h.voiced else h.unvoiced;
    ghost var canon := h.Canon(hi || lo);
    var i := 0;
    while i < 112
      invariant 0 <= i <= 112
      invariant dst[..] == Loop(init, HrLayout(), canon, src, i)
    {
      var si := if i >= 95 then i + 4 else i;
      var di := mapping[i];
      assert si == HrLayout().pos[i];
      CopyBit(Msb, dst, di, Msb, src, si);
      i := i + 1;
    }
    PermutationCovers(mapping, HR_BITS);
    LoopIsMove(init, HrLayout(), canon, Zeros(HR_CANON_LEN), src);
    return HR_CANON_LEN;
  }

  /** Full rate: bits 182 to 185 of the TI buffer are unused. */
  function FrLayout(t: seq<nat>): (l: Layout)
    requires Permutation(t, FR_BITS)
    ensures l.Valid()
  {
    Layout(Side(Msb, FR_CANON_LEN, t), Side(Msb, TI_LEN, Gapped(FR_BITS, 182)), Zeros(TI_LEN))
  }

  /** The bits that `ti_fr_from_canon` never writes are in the two bytes it clears first. */
  lemma FrGapCleared(t: seq<nat>, init: seq<byte>)
    requires Permutation(t, FR_BITS) && TI_LEN <= |init| && init[22] == init[23] == 0
    ensures forall p: nat :: p < 8 * TI_LEN && p !in FrLayout(t).side.pos ==>
      182 <= p < 186 && Get(Msb, init, p) == Get(Msb, Zeros(TI_LEN), p)
  {
    ZerosAreClear(Msb, TI_LEN);
    forall p: nat | p < 8 * TI_LEN && p !in FrLayout(t).side.pos
      ensures 182 <= p < 186 && !Get(Msb, init, p)
    {
      GappedHits(FR_BITS, 182, p);
      ZeroByte(Msb, init, p);
    }
  }

  method FrFromCanon(t: seq<nat>, dst: array<byte>, src: seq<byte>) returns (rv: nat)
    requires Permutation(t, FR_BITS) && |src| == FR_CANON_LEN && dst.Length >= TI_LEN
    modifies dst
    ensures rv == TI_LEN && dst[..] == FrLayout(t).FromCanon(src) + old(dst[..][TI_LEN..])
  {
    dst[22], dst[23] := 0x00, 0x00;
    ghost var l, init := FrLayout(t), dst[..];
    assert init[TI_LEN..] == old(dst[..][TI_LEN..]);
    var i := 0;
    while i < 260
      invariant 0 <= i <= 260
      invariant dst[..] == Loop(init, l.canon, l.side, src, i)
    {
      var si := t[i];
      var di := if i >= 182 then i + 4 else i;
      assert di == l.side.pos[i];
      CopyBit(Msb, dst, di, Msb, src, si);
      i := i + 1;
    }
    FrGapCleared(t, init);
    LoopIsMove(init, l.canon, l.side, l.base, src);
    return TI_LEN;
  }

  method FrToCanon(t: seq<nat>, dst: array<byte>, src: seq<byte>) returns (rv: nat)
    requires Permutation(t, FR_BITS) && |src| == TI_LEN && dst.Length >= FR_CANON_LEN
    modifies dst
    ensures rv == FR_CANON_LEN && dst[..] == FrLayout(t).ToCanon(src) + old(dst[..][FR_CANON_LEN..])
  {
    dst[32] := 0x00;
    ghost var l, init := FrLayout(t), dst[..];
    assert init[FR_CANON_LEN..] == old(dst[..][FR_CANON_LEN..]);
    var i := 0;
    while i < 260
      invariant 0 <= i <= 260
      invariant dst[..] == Loop(init, l.side, l.canon, src, i)
    {
      var si := if i >= 182 then i + 4 else i;
      var di := t[i];
      assert si == l.side.pos[i];
      CopyBit(Msb, dst, di, Msb, src, si);
      i := i + 1;
    }
    TailCleared(Msb, t, FR_BITS, FR_CANON_LEN, init);
    LoopIsMove(init, l.side, l.canon, Zeros(FR_CANON_LEN), src);
    return FR_CANON_LEN;
  }

  /**
   Half rate bit by bit, for any canonical frame: bit `i` of the channel order of the table that the two
   voicing bits choose, moved up by four from bit 95 on, all else clear.
   */
  lemma HrFromBits(h: HrOrder, x: seq<byte>, i: nat, p: nat)
    requires h.Permutations() && i < 112 && p < 264
    ensures Get(Msb, FromCanon(h, HrLayout(), x), if i >= 95 then i + 4 else i)
            == Get(Msb, x, (if Get(Msb, x, 34) || Get(Msb, x, 35) then h.voiced else h.unvoiced)[i])
    ensures 95 <= p < 99 || 116 <= p ==> !Get(Msb, FromCanon(h, HrLayout(), x), p)
  {
    HrLands(h, HrLayout(), x, i, p);
    assert HrLayout().pos[i] == if i >= 95 then i + 4 else i;
    GappedHits(HR_BITS, 95, p);
  }

  /** And back, by the voicing bits at 93 and 94 of the channel frame. */
  lemma HrToBits(h: HrOrder, y: seq<byte>, i: nat)
    requires h.Permutations() && i < 112
    ensures Get(Msb, ToCanon(h, HrLayout(), y),
                (if Get(Msb, y, 93) || Get(Msb, y, 94) then h.voiced else h.unvoiced)[i])
            == Get(Msb, y, if i >= 95 then i + 4 else i)
  {
    HrLands(h, HrLayout(), y, i, 0);
    assert HrLayout().pos[i] == if i >= 95 then i + 4 else i;
    assert HrLayout().pos[93] == 93 && HrLayout().pos[94] == 94;
  }

  /** Full rate bit by bit, in both directions: moved up by four from bit 182 on, all else clear. */
  lemma FrBits(t: seq<nat>, z: seq<byte>, i: nat, p: nat)
    requires Permutation(t, 260) && i < 260 && p < 264
    ensures Get(Msb, FrLayout(t).FromCanon(z), if i >= 182 then i + 4 else i) == Get(Msb, z, t[i])
    ensures Get(Msb, FrLayout(t).ToCanon(z), t[i]) == Get(Msb, z, if i >= 182 then i + 4 else i)
    ensures 182 <= p < 186 ==> !Get(Msb, FrLayout(t).FromCanon(z), p)
    ensures 260 <= p ==> !Get(Msb, FrLayout(t).ToCanon(z), p)
  {
    var l := FrLayout(t);
    l.Lands(z, i, p);
    assert l.side.pos[i] == if i >= 182 then i + 4 else i;
    GappedHits(FR_BITS, 182, p);
    ZerosAreClear(Msb, TI_LEN);
  }
}
