/**
 src/fmt_ti.c, enhanced full rate.  The channel order table `gsm660_bitorder` numbers the 260 bits of a
 channel frame, which repeats four bits twice and carries an 8-bit CRC; the canonical frame has neither,
 so both converters compress the index and skip what has no canonical place.  Both also visit only the
 first 244 of the 260 table entries.
 */
module FmtTiEfr {
  import opened Bits
  import opened Frames
  import opened Placement
  import FmtTi

  const CHANNEL_BITS: nat := 260

  /** The canonical index of channel bit `i`, or -1 for a repeated or CRC bit: the chain of tests in both loops. */
  function Squeeze(i: nat): (c: int) {
    if i < 71 then i
    else if i < 73 then -1
    else if i < 123 then i - 2
    else if i < 125 then -1
    else if i < 178 then i - 4
    else if i < 180 then -1
    else if i < 230 then i - 6
    else if i < 232 then -1
    else if i < 252 then i - 8
    else -1
  }

  predicate Kept(i: nat) {
    Squeeze(i) >= 0
  }

  function Expand(c: nat): (i: nat)
    requires c < EFR_BITS
  {
    if c < 71 then c
    else if c < 121 then c + 2
    else if c < 174 then c + 4
    else if c < 224 then c + 6
    else c + 8
  }

  /** The kept indices and the 244 canonical ones are in order-preserving one-to-one correspondence. */
  lemma SqueezeBijective(i: nat, j: nat, c: nat)
    requires Kept(i) && Kept(j) && c < EFR_BITS
    ensures Squeeze(i) < EFR_BITS && Expand(Squeeze(i)) == i
    ensures Kept(Expand(c)) && Expand(c) < CHANNEL_BITS && Squeeze(Expand(c)) == c
    ensures i < j <==> Squeeze(i) < Squeeze(j)
  {
  }

  /** The 244 entries of the table that the loops visit: distinct channel bits. */
  predicate Visited(v: seq<nat>) {
    |v| == EFR_BITS && Distinct(v) && Below(v, CHANNEL_BITS)
  }

  function Gap(i: nat): nat {
    if i >= 182 then i + 4 else i
  }

  /** The rounds of the loop over `v` in which a bit is copied. */
  function Copying(v: seq<nat>): (r: seq<nat>)
    ensures |r| <= |v|
    ensures forall n :: 0 <= n < |r| ==> r[n] < |v| && Kept(v[r[n]])
  {
    if v == [] then []
    else
      var k := |v| - 1;
      if Kept(v[k]) then Copying(v[..k]) + [k] else Copying(v[..k])
  }

  lemma {:induction false} CopyingIs(v: seq<nat>)
    ensures forall m, n :: 0 <= m < n < |Copying(v)| ==> Copying(v)[m] < Copying(v)[n]
    ensures forall i: nat :: i in Copying(v) <==> i < |v| && Kept(v[i])
  {
    if v == [] {
    } else {
      CopyingIs(v[..|v| - 1]);
    }
  }

  /** Where the copied bits sit in the TI buffer and in the canonical frame. */
  function TiPos(v: seq<nat>): (pos: seq<nat>)
    ensures |pos| == |Copying(v)| && forall n :: 0 <= n < |pos| ==> pos[n] == Gap(Copying(v)[n])
  {
    var r := Copying(v);
    seq(|r|, n requires 0 <= n < |r| => Gap(r[n]))
  }

  function CanonPos(v: seq<nat>): (pos: seq<nat>)
    ensures |pos| == |Copying(v)| && forall n :: 0 <= n < |pos| ==> pos[n] == Squeeze(v[Copying(v)[n]])
  {
    var r := Copying(v);
    seq(|r|, n requires 0 <= n < |r| => Squeeze(v[r[n]]))
  }

  lemma PositionsValid(v: seq<nat>)
    requires Visited(v)
    ensures Distinct(TiPos(v)) && Below(TiPos(v), 8 * FmtTi.TI_LEN)
    ensures Distinct(CanonPos(v)) && Below(CanonPos(v), EFR_BITS)
  {
    var r := Copying(v);
    CopyingIs(v);
    forall m, n | 0 <= m < n < |r|
      ensures TiPos(v)[m] != TiPos(v)[n] && CanonPos(v)[m] != CanonPos(v)[n]
    {
      SqueezeBijective(v[r[m]], v[r[n]], 0);
      SqueezeBijective(v[r[n]], v[r[m]], 0);
    }
    forall n | 0 <= n < |r|
      ensures CanonPos(v)[n] < EFR_BITS
    {
      SqueezeBijective(v[r[n]], v[r[n]], 0);
    }
  }

  function EfrLayout(v: seq<nat>): (l: Layout)
    requires Visited(v)
    ensures l.Valid()
  {
    PositionsValid(v);
    Layout(Side(Msb, EFR_CANON_LEN, CanonPos(v)), Side(Msb, FmtTi.TI_LEN, TiPos(v)), Zeros(FmtTi.TI_LEN))
  }

  /** Canonical bit `p` is reached by one of the 244 visited table entries. */
  ghost predicate Reached(v: seq<nat>, p: nat) {
    exists i :: 0 <= i < |v| && Squeeze(v[i]) == p
  }

  lemma ReachedIffMoved(v: seq<nat>, p: nat)
    ensures p in CanonPos(v) <==> Reached(v, p)
  {
    var r := Copying(v);
    CopyingIs(v);
    if p in CanonPos(v) {
      var n := IndexOf(CanonPos(v), p);
      assert Squeeze(v[r[n]]) == p;
    }
    if Reached(v, p) {
      var i :| 0 <= i < |v| && Squeeze(v[i]) == p;
      var n := IndexOf(r, i);
      assert CanonPos(v)[n] == p;
    }
  }

  /** After the first `i` rounds, `n` bits have been copied. */
  predicate Progress(v: seq<nat>, i: nat, n: nat) {
    var r := Copying(v);
    n <= |r| && (n > 0 ==> r[n - 1] < i) && (n < |r| ==> i <= r[n])
  }

  /** The next round copies to and from the next pair of positions, or copies nothing. */
  lemma NextRound(v: seq<nat>, i: nat, n: nat)
    requires Progress(v, i, n) && i < |v|
    ensures Kept(v[i]) ==> n < |Copying(v)| && TiPos(v)[n] == Gap(i) && CanonPos(v)[n] == Squeeze(v[i])
    ensures Progress(v, i + 1, if Kept(v[i]) then n + 1 else n)
  {
    CopyingIs(v);
    InOrder(Copying(v), i, n);
  }

  /** In an increasing sequence, the first element that is not below `i` is `i` itself if `i` occurs. */
  lemma InOrder(r: seq<nat>, i: nat, n: nat)
    requires forall a, b :: 0 <= a < b < |r| ==> r[a] < r[b]
    requires n <= |r| && (n > 0 ==> r[n - 1] < i) && (n < |r| ==> i <= r[n])
    ensures if i in r then n < |r| && r[n] == i else n < |r| ==> i < r[n]
    ensures i in r && n + 1 < |r| ==> i < r[n + 1]
  {
    if i in r {
      var m := IndexOf(r, i);
      assert m == n;
    }
  }

  method EfrFromCanon(t: seq<nat>, dst: array<byte>, src: seq<byte>) returns (rv: nat)
    requires |t| == CHANNEL_BITS && Visited(t[..EFR_BITS]) && |src| == EFR_CANON_LEN && dst.Length >= FmtTi.TI_LEN
    modifies dst
    ensures rv == FmtTi.TI_LEN && dst[..] == EfrLayout(t[..EFR_BITS]).FromCanon(src) + old(dst[..][FmtTi.TI_LEN..])
  {
    ghost var v := t[..EFR_BITS];
    Memset(dst, FmtTi.TI_LEN);
    ghost var l, init := EfrLayout(v), dst[..];
    ghost var n := 0;
    var i := 0;
    while i < 244
      invariant 0 <= i <= 244
      invariant Progress(v, i, n)
      invariant dst[..] == Loop(init, l.canon, l.side, src, n)
    {
      NextRound(v, i, n);
      var tsi := t[i];
      var di := if i >= 182 then i + 4 else i;
      var si := Squeeze(tsi);
      if si >= 0 {
        PositionsValid(v);
        assert di == l.side.pos[n] && si == l.canon.pos[n];
        CopyBit(Msb, dst, di, Msb, src, si);
        n := n + 1;
      }
      i := i + 1;
    }
    LoopIsMoveCleared(old(dst[..][FmtTi.TI_LEN..]), l.canon, l.side, src);
    return FmtTi.TI_LEN;
  }

  method EfrToCanon(t: seq<nat>, dst: array<byte>, src: seq<byte>) returns (rv: nat)
    requires |t| == CHANNEL_BITS && Visited(t[..EFR_BITS]) && |src| == FmtTi.TI_LEN && dst.Length >= EFR_CANON_LEN
    modifies dst
    ensures rv == EFR_CANON_LEN
    ensures dst[..] == EfrLayout(t[..EFR_BITS]).ToCanon(src) + old(dst[..][EFR_CANON_LEN..])
  {
    ghost var v := t[..EFR_BITS];
    Memset(dst, EFR_CANON_LEN);
    ghost var l, init := EfrLayout(v), dst[..];
    ghost var n := 0;
    var i := 0;
    while i < 244
      invariant 0 <= i <= 244
      invariant Progress(v, i, n)
      invariant dst[..] == Loop(init, l.side, l.canon, src, n)
    {
      NextRound(v, i, n);
      var si := if i >= 182 then i + 4 else i;
      var tdi := t[i];
      var di := Squeeze(tdi);
      if di >= 0 {
        PositionsValid(v);
        assert si == l.side.pos[n] && di == l.canon.pos[n];
        CopyBit(Msb, dst, di, Msb, src, si);
        n := n + 1;
      }
      i := i + 1;
    }
    LoopIsMoveCleared(old(dst[..][EFR_CANON_LEN..]), l.side, l.canon, src);
    return EFR_CANON_LEN;
  }

  /** To TI and back keeps exactly the canonical bits that are reached and clears every other one. */
  lemma KeepsReached(v: seq<nat>, x: seq<byte>, p: nat)
    requires Visited(v) && |x| == EFR_CANON_LEN && p < 8 * EFR_CANON_LEN
    ensures Get(Msb, EfrLayout(v).ToCanon(EfrLayout(v).FromCanon(x)), p) <==> Reached(v, p) && Get(Msb, x, p)
  {
    var l := EfrLayout(v);
    MoveMove(l.canon, l.side, l.canon, l.base, Zeros(EFR_CANON_LEN), x);
    MoveBits(l.canon, l.canon, Zeros(EFR_CANON_LEN), x);
    ZerosAreClear(Msb, EFR_CANON_LEN);
    ReachedIffMoved(v, p);
    if p in l.canon.pos {
      assert l.canon.pos[IndexOf(l.canon.pos, p)] == p;
    }
  }

  /** A first conversion loses what it loses; every further one, in either direction, loses nothing. */
  lemma Stabilises(v: seq<nat>, x: seq<byte>, y: seq<byte>)
    requires Visited(v)
    ensures var l := EfrLayout(v); l.FromCanon(l.ToCanon(l.FromCanon(x))) == l.FromCanon(x)
    ensures var l := EfrLayout(v); l.ToCanon(l.FromCanon(l.ToCanon(y))) == l.ToCanon(y)
  {
    var l := EfrLayout(v);
    MoveMove(l.canon, l.side, l.canon, l.base, Zeros(EFR_CANON_LEN), x);
    MoveMove(l.canon, l.canon, l.side, Zeros(EFR_CANON_LEN), l.base, x);
    MoveMove(l.side, l.canon, l.side, Zeros(EFR_CANON_LEN), l.base, y);
    MoveMove(l.side, l.side, l.canon, l.base, Zeros(EFR_CANON_LEN), y);
  }

  /** No visited entry is a repeated or a CRC bit. */
  predicate AllKept(v: seq<nat>) {
    forall i :: 0 <= i < |v| ==> Kept(v[i])
  }

  lemma AllKeptReachesAll(v: seq<nat>, p: nat)
    requires Visited(v) && AllKept(v) && p < EFR_BITS
    ensures Reached(v, p)
  {
    var r := Copying(v);
    CopyingIs(v);
    DistinctCount(r);
    assert Upto(|v|) <= Image(r);
    SubsetCount(Upto(|v|), Image(r));
    PositionsValid(v);
    PermutationHits(CanonPos(v), EFR_BITS, p);
    ReachedIffMoved(v, p);
  }

  lemma AllKeptCovers(v: seq<nat>)
    requires Visited(v) && AllKept(v)
    ensures EfrLayout(v).Covers(EFR_BITS)
  {
    var l := EfrLayout(v);
    forall p: nat ensures p in l.canon.pos <==> p < EFR_BITS {
      PositionsValid(v);
      ReachedIffMoved(v, p);
      if p < EFR_BITS {
        AllKeptReachesAll(v, p);
      }
    }
  }

  lemma FewerCopied(v: seq<nat>, i: nat)
    requires i < |v| && !Kept(v[i])
    ensures |Copying(v)| < |v|
  {
    CopyingIs(v);
    DistinctCount(Copying(v));
    SubsetCount(Image(Copying(v)), Upto(|v|) - {i});
  }

  /** A skipped entry leaves some canonical bit unreached: 243 entries cannot reach 244 bits. */
  lemma SkippedLeavesUnreached(v: seq<nat>, i: nat) returns (p: nat)
    requires Visited(v) && i < |v| && !Kept(v[i])
    ensures p < EFR_BITS && !Reached(v, p)
  {
    FewerCopied(v, i);
    PositionsValid(v);
    DistinctCount(CanonPos(v));
    if Upto(|v|) <= Image(CanonPos(v)) {
      SubsetCount(Upto(|v|), Image(CanonPos(v)));
      assert false;
    }
    p :| p in Upto(|v|) && p !in Image(CanonPos(v));
    ReachedIffMoved(v, p);
  }

  ghost predicate Lossless(v: seq<nat>)
    requires Visited(v)
  {
    forall x: seq<byte> :: |x| == EFR_CANON_LEN ==>
      EfrLayout(v).ToCanon(EfrLayout(v).FromCanon(x)) == ClearFrom(EFR_BITS, x)
  }

  /** The format loses no payload bit, like the other EFR formats, if and only if no visited entry is skipped. */
  lemma LosslessIff(v: seq<nat>)
    requires Visited(v)
    ensures Lossless(v) <==> AllKept(v)
  {
    var l := EfrLayout(v);
    if AllKept(v) {
      AllKeptCovers(v);
      forall x: seq<byte> | |x| == EFR_CANON_LEN
        ensures l.ToCanon(l.FromCanon(x)) == ClearFrom(EFR_BITS, x)
      {
        l.RoundTrip(EFR_BITS, x);
      }
    } else {
      var i :| 0 <= i < |v| && !Kept(v[i]);
      var p := SkippedLeavesUnreached(v, i);
      LostBit(v, p);
    }
  }

  lemma LostBit(v: seq<nat>, p: nat)
    requires Visited(v) && p < EFR_BITS && !Reached(v, p)
    ensures !Lossless(v)
  {
    var x := Pack(Msb, EFR_CANON_LEN, (q: nat) => q == p);
    KeepsReached(v, x, p);
    assert Get(Msb, ClearFrom(EFR_BITS, x), p);
  }

  /**
   The channel bits without a canonical place are four that are repeated, twice each, and the CRC.  Any other
   has its own number less two for each pair of repeated bits below it.
   */
  lemma Numbered(i: nat)
    ensures !Kept(i) <==> i in {71, 72, 123, 124, 178, 179, 230, 231} || 252 <= i
    ensures Kept(i) ==> Squeeze(i) == i - 2 * ((if i > 72 then 1 else 0) + (if i > 124 then 1 else 0)
                                               + (if i > 179 then 1 else 0) + (if i > 231 then 1 else 0))
  {
  }

  lemma KeptLands(v: seq<nat>, z: seq<byte>, i: nat, p: nat, c: nat)
    requires Visited(v) && i < |v| && Squeeze(v[i]) == c && p == Gap(i)
    ensures Get(Msb, EfrLayout(v).FromCanon(z), p) == Get(Msb, z, c)
    ensures Get(Msb, EfrLayout(v).ToCanon(z), c) == Get(Msb, z, p)
  {
    CopyingIs(v);
    var n := IndexOf(Copying(v), i);
    EfrLayout(v).Lands(z, n, 0);
  }

  lemma SkippedClear(v: seq<nat>, x: seq<byte>, i: nat, p: nat)
    requires Visited(v) && i < |v| && !Kept(v[i]) && p == Gap(i)
    ensures !Get(Msb, EfrLayout(v).FromCanon(x), p)
  {
    var l := EfrLayout(v);
    CopyingIs(v);
    forall n | 0 <= n < |l.side.pos| ensures l.side.pos[n] != p {
      assert Copying(v)[n] in Copying(v);
    }
    MoveBits(l.canon, l.side, l.base, x);
    ZerosAreClear(Msb, FmtTi.TI_LEN);
  }

  /**
   Bit by bit: the entry at `i` of the table names a channel bit.  If it is a repeated or a CRC bit, its place
   in the TI frame is clear; otherwise that place holds the canonical bit with the number above.
   */
  lemma EfrFromBits(v: seq<nat>, x: seq<byte>, i: nat, p: nat, c: int)
    requires Visited(v) && i < 244 && p == (if i >= 182 then i + 4 else i)
    requires c == v[i] - 2 * ((if v[i] > 72 then 1 else 0) + (if v[i] > 124 then 1 else 0)
                              + (if v[i] > 179 then 1 else 0) + (if v[i] > 231 then 1 else 0))
    ensures v[i] in {71, 72, 123, 124, 178, 179, 230, 231} || 252 <= v[i] ==>
      !Get(Msb, EfrLayout(v).FromCanon(x), p)
    ensures !(v[i] in {71, 72, 123, 124, 178, 179, 230, 231} || 252 <= v[i]) ==>
      c >= 0 && Get(Msb, EfrLayout(v).FromCanon(x), p) == Get(Msb, x, c)
  {
    Numbered(v[i]);
    if Kept(v[i]) {
      KeptLands(v, x, i, p, c);
    } else {
      SkippedClear(v, x, i, p);
    }
  }

  /** And back: every such bit returns to its canonical place. */
  lemma EfrToBits(v: seq<nat>, y: seq<byte>, i: nat, p: nat, c: int)
    requires Visited(v) && i < 244 && p == (if i >= 182 then i + 4 else i)
    requires !(v[i] in {71, 72, 123, 124, 178, 179, 230, 231} || 252 <= v[i])
    requires c == v[i] - 2 * ((if v[i] > 72 then 1 else 0) + (if v[i] > 124 then 1 else 0)
                              + (if v[i] > 179 then 1 else 0) + (if v[i] > 231 then 1 else 0))
    ensures c >= 0 && Get(Msb, EfrLayout(v).ToCanon(y), c) == Get(Msb, y, p)
  {
    Numbered(v[i]);
    KeptLands(v, y, i, p, c);
  }

  /** The gap of the TI frame and what is behind its 248 bits are clear. */
  lemma GapClear(v: seq<nat>, x: seq<byte>, p: nat)
    requires Visited(v) && (182 <= p < 186 || 248 <= p < 264)
    ensures !Get(Msb, EfrLayout(v).FromCanon(x), p)
  {
    var l := EfrLayout(v);
    MoveBits(l.canon, l.side, l.base, x);
    ZerosAreClear(Msb, FmtTi.TI_LEN);
    forall n | 0 <= n < |l.side.pos| ensures l.side.pos[n] != p {
      assert l.side.pos[n] == Gap(Copying(v)[n]);
    }
  }

  /** So is every canonical bit that no visited entry names. */
  lemma UnreachedClear(v: seq<nat>, y: seq<byte>, c: nat)
    requires Visited(v) && c < 248 && !Reached(v, c)
    ensures !Get(Msb, EfrLayout(v).ToCanon(y), c)
  {
    var l := EfrLayout(v);
    MoveBits(l.side, l.canon, Zeros(EFR_CANON_LEN), y);
    ZerosAreClear(Msb, EFR_CANON_LEN);
    ReachedIffMoved(v, c);
  }
}
