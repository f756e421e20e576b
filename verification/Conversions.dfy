/**
 Converting a recording from one format to another and on to a third: what any number of conversions
 does to a frame.
 */
module Conversions {
  import opened Bits
  import opened Frames
  import opened Placement
  import HrTables
  import FmtTi
  import FmtTiEfr
  import FmtRacal
  import FmtAmr
  import FmtGsm
  import FmtRtpEfr
  import FmtHrRef
  import FmtRtpHr

  /** The two converters of a format descriptor, as functions on frames. */
  datatype Format = Format(frameLen: nat, from: seq<byte> -> seq<byte>, to: seq<byte> -> seq<byte>)

  /** A lossless format of a codec whose canonical frames have `n` bytes and `bits` payload bits. */
  ghost predicate Lossless(f: Format, n: nat, bits: nat) {
    && (forall x: seq<byte> :: |x| == n ==>
          |f.from(x)| == f.frameLen && f.to(f.from(x)) == ClearFrom(bits, x))
    && (forall x: seq<byte>, z: seq<byte> :: |x| == |z| == n && z == ClearFrom(bits, x) ==> f.from(z) == f.from(x))
    && (forall y: seq<byte> :: |y| == f.frameLen ==> |f.to(y)| == n && ClearFrom(bits, f.to(y)) == f.to(y))
  }

  ghost predicate AllLossless(fs: seq<Format>, n: nat, bits: nat) {
    forall i :: 0 <= i < |fs| ==> Lossless(fs[i], n, bits)
  }

  /** A canonical frame pushed through one format after the other, each time back to canonical form. */
  function Chain(fs: seq<Format>, x: seq<byte>): seq<byte> {
    if fs == [] then x else var f := fs[|fs| - 1]; f.to(f.from(Chain(fs[..|fs| - 1], x)))
  }

  lemma ClearTwice(bits: nat, x: seq<byte>)
    ensures ClearFrom(bits, ClearFrom(bits, x)) == ClearFrom(bits, x)
  {
    SameBits(Msb, ClearFrom(bits, ClearFrom(bits, x)), ClearFrom(bits, x));
  }

  lemma HopKeepsPayload(f: Format, n: nat, bits: nat, z: seq<byte>)
    requires Lossless(f, n, bits) && |z| == n
    ensures f.to(f.from(z)) == ClearFrom(bits, z) && |ClearFrom(bits, z)| == n
  {
  }

  /** However many formats, in whatever order: the payload is intact and the unused bits are clear. */
  lemma {:induction false} ChainKeepsPayload(fs: seq<Format>, n: nat, bits: nat, x: seq<byte>)
    requires AllLossless(fs, n, bits) && |x| == n
    ensures Chain(fs, x) == if fs == [] then x else ClearFrom(bits, x)
  {
    if fs == [] {
    } else {
      var k := |fs| - 1;
      ChainKeepsPayload(fs[..k], n, bits, x);
      HopKeepsPayload(fs[k], n, bits, Chain(fs[..k], x));
      ClearTwice(bits, x);
    }
  }

  /** A frame of format `f` converted to each of `gs` in turn, the way successive runs of the program do. */
  function Route(f: Format, gs: seq<Format>, y: seq<byte>): seq<byte> {
    if gs == [] then y
    else
      var k := |gs| - 1;
      var last := if k == 0 then f else gs[k - 1];
      gs[k].from(last.to(Route(f, gs[..k], y)))
  }

  lemma StoredFaithfully(f: Format, g: Format, n: nat, bits: nat, y: seq<byte>)
    requires Lossless(f, n, bits) && Lossless(g, n, bits) && |y| == f.frameLen
    ensures g.to(g.from(f.to(y))) == f.to(y)
  {
  }

  /** Format `g` stores canonical frame `x` faithfully. */
  predicate Keeps(g: Format, x: seq<byte>) {
    g.to(g.from(x)) == x
  }

  lemma {:induction false} RouteThrough(f: Format, gs: seq<Format>, y: seq<byte>)
    requires gs != [] && forall i :: 0 <= i < |gs| ==> Keeps(gs[i], f.to(y))
    ensures Route(f, gs, y) == gs[|gs| - 1].from(f.to(y))
  {
    var k := |gs| - 1;
    if k > 0 {
      RouteThrough(f, gs[..k], y);
      assert Keeps(gs[k - 1], f.to(y));
    } else {
      assert gs[..k] == [];
    }
  }

  /** A detour through any number of lossless formats gives the same frame as the direct conversion. */
  lemma RouteIsDirect(f: Format, gs: seq<Format>, n: nat, bits: nat, y: seq<byte>)
    requires Lossless(f, n, bits) && AllLossless(gs, n, bits) && gs != [] && |y| == f.frameLen
    ensures Route(f, gs, y) == gs[|gs| - 1].from(f.to(y))
  {
    forall i | 0 <= i < |gs| ensures Keeps(gs[i], f.to(y)) {
      StoredFaithfully(f, gs[i], n, bits, y);
    }
    RouteThrough(f, gs, y);
  }

  /** A layout that covers the payload gives a lossless format. */
  function OfLayout(l: Layout): Format
    requires l.Valid()
  {
    Format(l.side.len, x => l.FromCanon(x), y => l.ToCanon(y))
  }

  lemma LayoutLossless(l: Layout, bits: nat)
    requires l.Valid() && l.Covers(bits)
    ensures Lossless(OfLayout(l), l.canon.len, bits)
  {
    var f := OfLayout(l);
    forall x: seq<byte> | |x| == l.canon.len
      ensures |f.from(x)| == f.frameLen && f.to(f.from(x)) == ClearFrom(bits, x)
      ensures forall z: seq<byte> :: z == ClearFrom(bits, x) ==> f.from(z) == f.from(x)
    {
      l.RoundTrip(bits, x);
      l.IgnoresTail(bits, x);
    }
    forall y: seq<byte> | |y| == f.frameLen
      ensures |f.to(y)| == l.canon.len && ClearFrom(bits, f.to(y)) == f.to(y)
    {
      l.ClearsTail(bits, y);
    }
  }

  lemma PermutedLossless(l: Layout, bits: nat)
    requires l.Valid() && l.canon.o == Msb && bits <= 8 * l.canon.len && Permutation(l.canon.pos, bits)
    ensures Lossless(OfLayout(l), l.canon.len, bits)
  {
    l.PermutationPayload(bits);
    LayoutLossless(l, bits);
  }

  /** The libosmocodec tables: `gsm610_bitorder`, `gsm690_12_2_bitorder` and the two half-rate orders. */
  datatype Tables = Tables(fr: seq<nat>, efr: seq<nat>, hr: HrTables.HrOrder) {
    predicate Valid() {
      Permutation(fr, FR_BITS) && Permutation(efr, EFR_BITS) && hr.Valid()
    }
  }

  function GsmFormat(): Format {
    OfLayout(FmtGsm.GsmLayout())
  }

  function TiFrFormat(t: Tables): Format
    requires t.Valid()
  {
    OfLayout(FmtTi.FrLayout(t.fr))
  }

  function RacalFrFormat(t: Tables): Format
    requires t.Valid()
  {
    OfLayout(FmtRacal.FrLayout(t.fr))
  }

  lemma GsmLossless()
    ensures Lossless(GsmFormat(), FR_CANON_LEN, FR_BITS)
  {
    FmtGsm.Covers();
    LayoutLossless(FmtGsm.GsmLayout(), FR_BITS);
  }

  lemma TiFrLossless(t: Tables)
    requires t.Valid()
    ensures Lossless(TiFrFormat(t), FR_CANON_LEN, FR_BITS)
  {
    PermutedLossless(FmtTi.FrLayout(t.fr), FR_BITS);
  }

  lemma RacalFrLossless(t: Tables)
    requires t.Valid()
    ensures Lossless(RacalFrFormat(t), FR_CANON_LEN, FR_BITS)
  {
    PermutedLossless(FmtRacal.FrLayout(t.fr), FR_BITS);
  }

  lemma FullRateLossless(t: Tables)
    requires t.Valid()
    ensures Lossless(GsmFormat(), FR_CANON_LEN, FR_BITS)
    ensures Lossless(TiFrFormat(t), FR_CANON_LEN, FR_BITS)
    ensures Lossless(RacalFrFormat(t), FR_CANON_LEN, FR_BITS)
  {
    GsmLossless();
    TiFrLossless(t);
    RacalFrLossless(t);
  }

  function RacalEfrFormat(): Format {
    OfLayout(FmtRacal.EfrLayout())
  }

  function AmrEfrFormat(t: Tables): Format
    requires t.Valid()
  {
    OfLayout(FmtAmr.EfrLayout(t.efr))
  }

  lemma EnhancedFullRateLossless(t: Tables)
    requires t.Valid()
    ensures Lossless(RacalEfrFormat(), EFR_CANON_LEN, EFR_BITS)
    ensures Lossless(AmrEfrFormat(t), EFR_CANON_LEN, EFR_BITS)
  {
    FmtRacal.EfrCovers();
    LayoutLossless(FmtRacal.EfrLayout(), EFR_BITS);
    PermutedLossless(FmtAmr.EfrLayout(t.efr), EFR_BITS);
  }

  function TiEfrFormat(v: seq<nat>): Format
    requires FmtTiEfr.Visited(v)
  {
    OfLayout(FmtTiEfr.EfrLayout(v))
  }

  lemma TiEfrKeptLossless(v: seq<nat>)
    requires FmtTiEfr.Visited(v) && FmtTiEfr.AllKept(v)
    ensures Lossless(TiEfrFormat(v), EFR_CANON_LEN, EFR_BITS)
  {
    FmtTiEfr.AllKeptCovers(v);
    LayoutLossless(FmtTiEfr.EfrLayout(v), EFR_BITS);
  }

  lemma LosslessTrips(l: Layout, bits: nat)
    requires l.Valid() && Lossless(OfLayout(l), l.canon.len, bits)
    ensures forall x: seq<byte> :: |x| == l.canon.len ==> l.ToCanon(l.FromCanon(x)) == ClearFrom(bits, x)
  {
    forall x: seq<byte> | |x| == l.canon.len ensures l.ToCanon(l.FromCanon(x)) == ClearFrom(bits, x) {
      assert OfLayout(l).to(OfLayout(l).from(x)) == ClearFrom(bits, x);
    }
  }

  /** ti-efr takes its place among the lossless formats exactly if its table visits no repeated or CRC bit. */
  lemma TiEfrLosslessIff(v: seq<nat>)
    requires FmtTiEfr.Visited(v)
    ensures Lossless(TiEfrFormat(v), EFR_CANON_LEN, EFR_BITS) <==> FmtTiEfr.AllKept(v)
  {
    if FmtTiEfr.AllKept(v) {
      TiEfrKeptLossless(v);
    } else if Lossless(TiEfrFormat(v), EFR_CANON_LEN, EFR_BITS) {
      LosslessTrips(FmtTiEfr.EfrLayout(v), EFR_BITS);
      FmtTiEfr.LosslessIff(v);
    }
  }

  /** TI and Racal half rate, told apart by `side`. */
  function HrFormat(t: Tables, side: Side): Format
    requires t.Valid() && HrTables.HrSide(side)
  {
    Format(side.len, x => HrTables.FromCanon(t.hr, side, x), y => HrTables.ToCanon(t.hr, side, y))
  }

  lemma ClearNothing(bits: nat, x: seq<byte>)
    requires 8 * |x| <= bits
    ensures ClearFrom(bits, x) == x
  {
    SameBits(Msb, ClearFrom(bits, x), x);
  }

  lemma HalfRateLossless(t: Tables, side: Side)
    requires t.Valid() && HrTables.HrSide(side)
    ensures Lossless(HrFormat(t, side), HR_CANON_LEN, HR_BITS)
  {
    var f := HrFormat(t, side);
    forall x: seq<byte> | |x| == HR_CANON_LEN
      ensures |f.from(x)| == f.frameLen && f.to(f.from(x)) == x == ClearFrom(HR_BITS, x)
    {
      HrTables.RoundTrip(t.hr, side, x);
      ClearNothing(HR_BITS, x);
    }
    forall y: seq<byte> | |y| == f.frameLen
      ensures |f.to(y)| == HR_CANON_LEN && ClearFrom(HR_BITS, f.to(y)) == f.to(y)
    {
      ClearNothing(HR_BITS, f.to(y));
    }
  }

  function RtpHrEtsiFormat(): Format {
    Format(HR_CANON_LEN, x => x, y => FmtRtpHr.EtsiTo(y))
  }

  function RtpHrIetfFormat(): Format {
    Format(FmtRtpHr.IETF_LEN, x => FmtRtpHr.IetfFrom(x), y => FmtRtpHr.IetfTo(y))
  }

  lemma RtpHrLossless()
    ensures Lossless(RtpHrEtsiFormat(), HR_CANON_LEN, HR_BITS)
    ensures Lossless(RtpHrIetfFormat(), HR_CANON_LEN, HR_BITS)
  {
    forall x: seq<byte> | |x| == HR_CANON_LEN
      ensures ClearFrom(HR_BITS, x) == x && FmtRtpHr.EtsiTo(x) == x && FmtRtpHr.IetfTo(FmtRtpHr.IetfFrom(x)) == x
    {
      ClearNothing(HR_BITS, x);
    }
  }

  /** Words as the host lays them out in memory. */
  function Store(big: bool, ws: seq<nat>): (y: seq<byte>)
    ensures |y| == 2 * |ws|
  {
    seq(2 * |ws|, i requires 0 <= i < 2 * |ws| =>
          if (i % 2 == 0) == big then ws[i / 2] / 256 % 256 else ws[i / 2] % 256)
  }

  function Word(big: bool, first: nat, second: nat): nat {
    if big then 256 * first + second else first + 256 * second
  }

  function Load(big: bool, y: seq<byte>): (ws: seq<nat>)
    ensures |ws| == |y| / 2
  {
    seq(|y| / 2, i requires 0 <= i < |y| / 2 => Word(big, y[2 * i], y[2 * i + 1]))
  }

  /** Words of 16 bits. */
  predicate Words(ws: seq<nat>) {
    forall i :: 0 <= i < |ws| ==> ws[i] < 0x1_0000
  }

  /** The bytes of word `i`, on a big-endian host the more significant one first. */
  lemma StoreBytes(big: bool, ws: seq<nat>, i: nat)
    requires Words(ws) && i < |ws|
    ensures Store(big, ws)[2 * i] == if big then ws[i] / 256 else ws[i] % 256
    ensures Store(big, ws)[2 * i + 1] == if big then ws[i] % 256 else ws[i] / 256
  {
    assert 2 * i / 2 == i && 2 * i % 2 == 0 && (2 * i + 1) / 2 == i && (2 * i + 1) % 2 == 1;
  }

  lemma LoadStore(big: bool, ws: seq<nat>)
    requires Words(ws)
    ensures Load(big, Store(big, ws)) == ws
  {
    forall i | 0 <= i < |ws|
      ensures Load(big, Store(big, ws))[i] == ws[i]
    {
      assert 2 * i / 2 == i && (2 * i + 1) / 2 == i && 2 * i % 2 == 0 && (2 * i + 1) % 2 == 1;
    }
  }

  /** hr-ref-dec with four flag words, hr-ref-enc with two. */
  function HrRefFormat(w: FmtHrRef.WidthTables, big: bool, flags: nat): Format
    requires w.Valid()
  {
    var len := 2 * (FmtHrRef.PARAMS + flags);
    Format(len,
           x => if |x| == HR_CANON_LEN then Store(big, FmtHrRef.FromCanon(w, x) + seq(flags, _ => 0)) else [],
           y => if |y| == len then FmtHrRef.ToCanon(w, Load(big, y)[..FmtHrRef.PARAMS]) else [])
  }

  lemma HrRefLossless(w: FmtHrRef.WidthTables, big: bool, flags: nat)
    requires w.Valid()
    ensures Lossless(HrRefFormat(w, big, flags), HR_CANON_LEN, HR_BITS)
  {
    var f := HrRefFormat(w, big, flags);
    forall x: seq<byte> | |x| == HR_CANON_LEN
      ensures |f.from(x)| == f.frameLen && f.to(f.from(x)) == x == ClearFrom(HR_BITS, x)
    {
      var ps := FmtHrRef.FromCanon(w, x);
      var ws := ps + seq(flags, _ => 0);
      forall i | 0 <= i < |ws| ensures ws[i] < 0x1_0000 {
        if i < |ps| {
          FmtHrRef.ParameterFits(w, x, i);
        }
      }
      LoadStore(big, ws);
      assert ws[..|ps|] == ps;
      FmtHrRef.RoundTrip(w, x);
      ClearNothing(HR_BITS, x);
    }
    forall y: seq<byte> | |y| == f.frameLen
      ensures |f.to(y)| == HR_CANON_LEN && ClearFrom(HR_BITS, f.to(y)) == f.to(y)
    {
      ClearNothing(HR_BITS, f.to(y));
    }
  }

  /** A stored frame in the reference codec's format: parameters, cut to their widths, and no flags. */
  function Normalised(w: FmtHrRef.WidthTables, big: bool, flags: nat, y: seq<byte>): seq<byte>
    requires w.Valid() && |y| == 2 * (FmtHrRef.PARAMS + flags)
  {
    Store(big, FmtHrRef.Reduced(w, Load(big, y)[..FmtHrRef.PARAMS]) + seq(flags, _ => 0))
  }

  /** Through canonical form and back, a stored frame is normalised, if its voicing word is stored faithfully. */
  lemma HrRefNormalises(w: FmtHrRef.WidthTables, big: bool, flags: nat, y: seq<byte>)
    requires w.Valid() && |y| == 2 * (FmtHrRef.PARAMS + flags) && FmtHrRef.VoicingStored(Load(big, y)[5])
    ensures var f := HrRefFormat(w, big, flags); f.from(f.to(y)) == Normalised(w, big, flags, y)
  {
    FmtHrRef.ParametersRoundTrip(w, Load(big, y)[..FmtHrRef.PARAMS]);
  }

  /** A stored frame with voicing word `v` and 1 as its next parameter. */
  function Misstored(big: bool, flags: nat, v: nat): (y: seq<byte>)
    ensures |y| == 2 * (FmtHrRef.PARAMS + flags)
  {
    Store(big, FmtHrRef.Witness(v) + seq(flags, _ => 0))
  }

  lemma MisstoredLoads(big: bool, flags: nat, v: nat)
    requires v < 0x1_0000
    ensures Load(big, Misstored(big, flags, v))[..FmtHrRef.PARAMS] == FmtHrRef.Witness(v)
    ensures Load(big, Misstored(big, flags, v))[5] == v
  {
    var ps := FmtHrRef.Witness(v);
    var ws := ps + seq(flags, _ => 0);
    assert Words(ws);
    LoadStore(big, ws);
    assert ws[..|ps|] == ps;
  }

  lemma HrRefMisread(w: FmtHrRef.WidthTables, big: bool, flags: nat, v: nat)
    requires w.Valid() && w.voiced[6] == w.unvoiced[6] + 1 && v < 0x1_0000 && !FmtHrRef.VoicingStored(v)
    ensures var f := HrRefFormat(w, big, flags); var y := Misstored(big, flags, v);
      f.from(f.to(y)) != Normalised(w, big, flags, y)
  {
    MisstoredLoads(big, flags, v);
    FmtHrRef.MisreadLag(w, v);
    var ps := FmtHrRef.Witness(v);
    var qs, rs := FmtHrRef.FromCanon(w, FmtHrRef.ToCanon(w, ps)), FmtHrRef.Reduced(w, ps);
    ReadBack(big, qs, rs, seq(flags, _ => 0), 6);
  }

  /** Two stored sequences of words that differ, on this host, in byte pair `i`. */
  lemma ReadBack(big: bool, a: seq<nat>, b: seq<nat>, rest: seq<nat>, i: nat)
    requires |a| == |b| && i < |a| && a[i] == 0 && b[i] == 1
    ensures Store(big, a + rest) != Store(big, b + rest)
  {
    var k := if big then 2 * i + 1 else 2 * i;
    assert k / 2 == i && (k % 2 == 0) == !big;
    assert Store(big, a + rest)[k] == 0 && Store(big, b + rest)[k] == 1;
  }

  /** The exact condition on the voicing word under which all stored frames come back normalised. */
  lemma HrRefNormalisesIff(w: FmtHrRef.WidthTables, big: bool, flags: nat, v: nat)
    requires w.Valid() && w.voiced[6] == w.unvoiced[6] + 1 && v < 0x1_0000
    ensures (forall y: seq<byte> :: |y| == 2 * (FmtHrRef.PARAMS + flags) && Load(big, y)[5] == v ==>
               var f := HrRefFormat(w, big, flags); f.from(f.to(y)) == Normalised(w, big, flags, y))
            <==> FmtHrRef.VoicingStored(v)
  {
    if FmtHrRef.VoicingStored(v) {
      forall y: seq<byte> | |y| == 2 * (FmtHrRef.PARAMS + flags) && Load(big, y)[5] == v
        ensures var f := HrRefFormat(w, big, flags); f.from(f.to(y)) == Normalised(w, big, flags, y)
      {
        HrRefNormalises(w, big, flags, y);
      }
    } else {
      MisstoredLoads(big, flags, v);
      HrRefMisread(w, big, flags, v);
    }
  }

  /** The EFR formats whose tables are permutations; rtp-efr replaces a frame without payload. */
  datatype EfrName = AmrEfr | RacalEfr | RtpEfr

  function EfrHop(t: Tables, f: EfrName, x: seq<byte>): seq<byte>
    requires t.Valid()
  {
    match f
    case AmrEfr => AmrEfrFormat(t).to(AmrEfrFormat(t).from(x))
    case RacalEfr => RacalEfrFormat().to(RacalEfrFormat().from(x))
    case RtpEfr => FmtRtpEfr.To(FmtRtpEfr.From(x))
  }

  function EfrChain(t: Tables, fs: seq<EfrName>, x: seq<byte>): seq<byte>
    requires t.Valid()
  {
    if fs == [] then x else EfrHop(t, fs[|fs| - 1], EfrChain(t, fs[..|fs| - 1], x))
  }

  /** What a frame has become after at least one conversion, `rtp` telling whether rtp-efr was among them. */
  ghost function Settled(rtp: bool, x: seq<byte>): (r: seq<byte>)
    requires |x| == EFR_CANON_LEN
    ensures |r| == EFR_CANON_LEN
  {
    if rtp && FmtRtpEfr.NoPayload(x) then FmtRtpEfr.Sid() else ClearFrom(EFR_BITS, x)
  }

  lemma AmrHop(t: Tables, x: seq<byte>)
    requires t.Valid() && |x| == EFR_CANON_LEN
    ensures EfrHop(t, AmrEfr, x) == ClearFrom(EFR_BITS, x)
  {
    FmtAmr.EfrLayout(t.efr).PermutationPayload(EFR_BITS);
    FmtAmr.EfrLayout(t.efr).RoundTrip(EFR_BITS, x);
  }

  lemma RacalHop(t: Tables, x: seq<byte>)
    requires t.Valid() && |x| == EFR_CANON_LEN
    ensures EfrHop(t, RacalEfr, x) == ClearFrom(EFR_BITS, x)
  {
    FmtRacal.EfrCovers();
    FmtRacal.EfrLayout().RoundTrip(EFR_BITS, x);
  }

  lemma HopSettles(t: Tables, f: EfrName, x: seq<byte>)
    requires t.Valid() && |x| == EFR_CANON_LEN
    ensures EfrHop(t, f, x) == Settled(f.RtpEfr?, x)
  {
    match f
    case AmrEfr => AmrHop(t, x);
    case RacalEfr => RacalHop(t, x);
    case RtpEfr => FmtRtpEfr.RoundTrip(x);
  }

  lemma SettledTwice(a: bool, b: bool, x: seq<byte>)
    requires |x| == EFR_CANON_LEN
    ensures Settled(b, Settled(a, x)) == Settled(a || b, x)
  {
    FmtRtpEfr.SidStable();
    FmtRtpEfr.PayloadKept(x);
  }

  lemma SettledHop(t: Tables, a: bool, f: EfrName, x: seq<byte>)
    requires t.Valid() && |x| == EFR_CANON_LEN
    ensures EfrHop(t, f, Settled(a, x)) == Settled(a || f.RtpEfr?, x)
  {
    HopSettles(t, f, Settled(a, x));
    SettledTwice(a, f.RtpEfr?, x);
  }

  lemma LastIn<T>(s: seq<T>, v: T)
    requires s != []
    ensures v in s <==> v in s[..|s| - 1] || s[|s| - 1] == v
  {
    assert s == s[..|s| - 1] + [s[|s| - 1]];
  }

  /**
   Any chain of EFR formats, on any frame: intact payload, unless there was none and one of the formats is
   rtp-efr.
   */
  lemma {:induction false} EfrChainIs(t: Tables, fs: seq<EfrName>, x: seq<byte>)
    requires t.Valid() && |x| == EFR_CANON_LEN
    ensures EfrChain(t, fs, x) == if fs == [] then x else Settled(RtpEfr in fs, x)
  {
    if fs == [] {
    } else {
      var k := |fs| - 1;
      EfrChainIs(t, fs[..k], x);
      LastIn(fs, RtpEfr);
      if k == 0 {
        HopSettles(t, fs[0], x);
      } else {
        SettledHop(t, RtpEfr in fs[..k], fs[k], x);
      }
    }
  }
}
