/**
 The formats that gapk ships, registered with their real converters.  The bit-order tables and the speech
 codecs come from other libraries and stay parameters.
 */
module Shipped {
  import opened Bits
  import opened Frames
  import opened Placement
  import opened Procqueue
  import opened Pipeline
  import opened ChainTyping
  import opened Translation
  import opened Conversions
  import opened FileDetours
  import HrTables
  import FmtTi
  import FmtTiEfr
  import FmtRacal
  import FmtAmr
  import FmtGsm
  import FmtRtpEfr
  import FmtRtpAmr
  import FmtRtpHr
  import FmtHrRef

  const CODEC_HR: nat := 2
  const CODEC_FR: nat := 3
  const CODEC_EFR: nat := 4
  const CODEC_AMR: nat := 5

  const FMT_INVALID: nat := 0
  const FMT_AMR_EFR: nat := 1
  const FMT_GSM: nat := 2
  const FMT_HR_REF_DEC: nat := 3
  const FMT_HR_REF_ENC: nat := 4
  const FMT_RACAL_HR: nat := 5
  const FMT_RACAL_FR: nat := 6
  const FMT_RACAL_EFR: nat := 7
  const FMT_RAWPCM_S16LE: nat := 8
  const FMT_TI_HR: nat := 9
  const FMT_TI_FR: nat := 10
  const FMT_TI_EFR: nat := 11
  const FMT_AMR_OPENCORE: nat := 12
  const FMT_RTP_AMR: nat := 13
  const FMT_RTP_EFR: nat := 14
  const FMT_RTP_HR_ETSI: nat := 15
  const FMT_RTP_HR_IETF: nat := 16

  /** The longest frame of the AMR codec, mode 12.2 with its header. */
  const MAX_AMR_LEN: nat := 32

  /** The tables of libosmocodec, the width tables, and the host's byte order. */
  datatype Setup = Setup(tables: Tables, efrOrder: seq<nat>, widths: FmtHrRef.WidthTables, bigEndian: bool) {
    predicate Valid() {
      tables.Valid() && FmtTiEfr.Visited(efrOrder) && widths.Valid()
    }
  }

  // --- Frame kinds ---------------------------------------------------------------------------------------------

  predicate HrType(t: nat) {
    t == FMT_HR_REF_DEC || t == FMT_HR_REF_ENC || t == FMT_RACAL_HR || t == FMT_TI_HR
    || t == FMT_RTP_HR_ETSI || t == FMT_RTP_HR_IETF
  }

  predicate FrType(t: nat) {
    t == FMT_GSM || t == FMT_RACAL_FR || t == FMT_TI_FR
  }

  predicate EfrType(t: nat) {
    t == FMT_AMR_EFR || t == FMT_RACAL_EFR || t == FMT_TI_EFR || t == FMT_RTP_EFR
  }

  /** The formats of variable length. */
  predicate AmrType(t: nat) {
    t == FMT_AMR_OPENCORE || t == FMT_RTP_AMR
  }

  predicate ShippedType(t: nat) {
    HrType(t) || FrType(t) || EfrType(t) || AmrType(t) || t == FMT_RAWPCM_S16LE
  }

  function CodecTypeOf(t: nat): nat {
    if HrType(t) then CODEC_HR else if FrType(t) then CODEC_FR else if EfrType(t) then CODEC_EFR
    else if AmrType(t) then CODEC_AMR else CODEC_PCM
  }

  function FrameLenOf(t: nat): nat {
    if t == FMT_AMR_EFR then FmtAmr.EFR_LEN
    else if t == FMT_GSM then FmtGsm.GSM_LEN
    else if t == FMT_HR_REF_DEC then FmtHrRef.HR_REF_DEC_LEN
    else if t == FMT_HR_REF_ENC then FmtHrRef.HR_REF_ENC_LEN
    else if t == FMT_RACAL_HR then FmtRacal.RACAL_HR_LEN
    else if t == FMT_RACAL_FR then FmtRacal.RACAL_FR_LEN
    else if t == FMT_RACAL_EFR then FmtRacal.RACAL_EFR_LEN
    else if t == FMT_RAWPCM_S16LE then PCM_CANON_LEN
    else if t == FMT_TI_HR || t == FMT_TI_FR || t == FMT_TI_EFR then FmtTi.TI_LEN
    else if t == FMT_RTP_EFR then FmtRtpEfr.EFR_LEN
    else if t == FMT_RTP_HR_ETSI then HR_CANON_LEN
    else if t == FMT_RTP_HR_IETF then FmtRtpHr.IETF_LEN
    else 0
  }

  function CanonLenOf(c: nat): nat {
    if c == CODEC_PCM then PCM_CANON_LEN else if c == CODEC_HR then HR_CANON_LEN
    else if c == CODEC_FR then FR_CANON_LEN else if c == CODEC_EFR then EFR_CANON_LEN else 0
  }

  /** AMR frames are not empty, and their RTP payload has a header byte in front. */
  function RawKind(t: nat): Kind {
    x => if t == FMT_AMR_OPENCORE then 1 <= |x| <= MAX_AMR_LEN
      else if t == FMT_RTP_AMR then 2 <= |x| <= MAX_AMR_LEN + 1
      else |x| == FrameLenOf(t)
  }

  function CanonKind(c: nat): Kind {
    x => if c == CODEC_AMR then 1 <= |x| <= MAX_AMR_LEN else |x| == CanonLenOf(c)
  }

  const FRAMES: FrameKinds := FrameKinds(t => RawKind(t), c => CanonKind(c))

  // --- Converters and descriptors ------------------------------------------------------------------------------

  /** Host-order samples to little-endian bytes and back. */
  function SwapSamples(big: bool): seq<byte> -> seq<byte> {
    x => if big then seq(|x|, i requires 0 <= i < |x| =>
                       if i % 2 == 1 then x[i - 1] else if i + 1 < |x| then x[i + 1] else x[i]) else x
  }

  function HrConverters(s: Setup, t: nat): Format
    requires s.Valid()
  {
    if t == FMT_HR_REF_DEC then HrRefFormat(s.widths, s.bigEndian, 4)
    else if t == FMT_HR_REF_ENC then HrRefFormat(s.widths, s.bigEndian, 2)
    else if t == FMT_RACAL_HR then HrFormat(s.tables, FmtRacal.HrLayout())
    else if t == FMT_TI_HR then HrFormat(s.tables, FmtTi.HrLayout())
    else if t == FMT_RTP_HR_ETSI then RtpHrEtsiFormat()
    else RtpHrIetfFormat()
  }

  function FrConverters(s: Setup, t: nat): Format
    requires s.Valid()
  {
    if t == FMT_GSM then GsmFormat() else if t == FMT_RACAL_FR then RacalFrFormat(s.tables) else TiFrFormat(s.tables)
  }

  function EfrConverters(s: Setup, t: nat): Format
    requires s.Valid()
  {
    if t == FMT_AMR_EFR then AmrEfrFormat(s.tables)
    else if t == FMT_RACAL_EFR then RacalEfrFormat()
    else if t == FMT_TI_EFR then TiEfrFormat(s.efrOrder)
    else RtpEfrFormat()
  }

  function RtpEfrFormat(): Format {
    Format(FmtRtpEfr.EFR_LEN, x => FmtRtpEfr.From(x), y => FmtRtpEfr.To(y))
  }

  function PcmFormat(big: bool): Format {
    Format(PCM_CANON_LEN, SwapSamples(big), SwapSamples(big))
  }

  /** The converters of a format of fixed length. */
  function Converters(s: Setup, t: nat): Format
    requires s.Valid()
  {
    if HrType(t) then HrConverters(s, t)
    else if FrType(t) then FrConverters(s, t)
    else if EfrType(t) then EfrConverters(s, t)
    else PcmFormat(s.bigEndian)
  }

  /** A converter behind its `assert(src_len == n)`. */
  function Guarded(n: nat, f: seq<byte> -> seq<byte>): seq<byte> -> Ret {
    x => if |x| != n then Abort else Done(f(x))
  }

  /** "#!AMR\\n" */
  const AMR_FILE_HEADER: seq<byte> := [0x23, 0x21, 0x41, 0x4d, 0x52, 0x0a]

  /** The RTP formats take payloads of any length. */
  predicate Lenient(t: nat) {
    t == FMT_RTP_EFR || t == FMT_RTP_HR_ETSI || t == FMT_RTP_HR_IETF
  }

  /** amr-efr refuses a frame with another header byte. */
  function FixedToCanon(t: nat, f: Format): seq<byte> -> Ret {
    y => if Lenient(t) then Done(f.to(y))
      else if |y| != f.frameLen then Abort
      else if t == FMT_AMR_EFR && 0 < |y| && y[0] != FmtAmr.AMR_HEADER then Error(-1)
      else Done(f.to(y))
  }

  /** A format of fixed length with converters `f`. */
  function Describe(t: nat, f: Format): FormatDesc {
    FormatDesc(t, CodecTypeOf(t), f.frameLen, Guarded(CanonLenOf(CodecTypeOf(t)), f.from), FixedToCanon(t, f),
               if t == FMT_AMR_EFR then AMR_FILE_HEADER else [])
  }

  /** What the converter makes of shorter packets is no function of the packet; none arises between files. */
  function RtpAmrToCanon(y: seq<byte>): Ret {
    if !(2 <= |y| < 0x1_0000_0000) then Abort
    else match FmtRtpAmr.To(y, |y|) case Delivered(frame) => Done(frame) case Overrun => Abort
  }

  function DescribeAmr(t: nat): FormatDesc {
    if t == FMT_AMR_OPENCORE then FormatDesc(t, CODEC_AMR, 0, x => Done(x), y => Done(y), [])
    else FormatDesc(t, CODEC_AMR, 0, x => Done(FmtRtpAmr.From(x)), y => RtpAmrToCanon(y), [])
  }

  /** `osmo_gapk_fmt_get_from_type` */
  function FormatOf(s: Setup, t: nat): FormatDesc
    requires s.Valid()
  {
    if AmrType(t) then DescribeAmr(t) else Describe(t, Converters(s, t))
  }

  // --- Every descriptor is sound -------------------------------------------------------------------------------

  /** A descriptor that can stand in the table under type `t`. */
  ghost predicate Fitting(d: FormatDesc, t: nat) {
    && d.ftype == t && d.codecType == CodecTypeOf(t) && d.frameLen == FrameLenOf(t)
    && SoundDesc(d, RawKind(t), CanonKind(d.codecType))
  }

  /** Converters between frames of the declared length and canonical frames of `n` bytes. */
  ghost predicate KeepsLengths(f: Format, len: nat, n: nat) {
    && f.frameLen == len
    && (forall x: seq<byte> :: |x| == n ==> |f.from(x)| == len)
    && (forall y: seq<byte> :: |y| == len ==> |f.to(y)| == n)
  }

  lemma DescribeFits(t: nat, f: Format)
    requires !AmrType(t) && KeepsLengths(f, FrameLenOf(t), CanonLenOf(CodecTypeOf(t)))
    ensures Fitting(Describe(t, f), t)
  {
  }

  lemma LosslessKeeps(f: Format, n: nat, bits: nat)
    requires Lossless(f, n, bits)
    ensures KeepsLengths(f, f.frameLen, n)
  {
  }

  lemma LayoutKeeps(l: Layout)
    requires l.Valid()
    ensures KeepsLengths(OfLayout(l), l.side.len, l.canon.len)
  {
    forall z: seq<byte> ensures |l.FromCanon(z)| == l.side.len && |l.ToCanon(z)| == l.canon.len {
      l.Lengths(z);
    }
  }

  /** The formats that keep every payload bit, with ti-efr if its table is such. */
  predicate LosslessType(s: Setup, t: nat) {
    HrType(t) || FrType(t) || t == FMT_AMR_EFR || t == FMT_RACAL_EFR
    || (t == FMT_TI_EFR && FmtTiEfr.AllKept(s.efrOrder))
  }

  function PayloadBits(c: nat): nat {
    if c == CODEC_HR then HR_BITS else if c == CODEC_FR then FR_BITS else EFR_BITS
  }

  /** Canonical length and number of payload bits of the codec of type `t`. */
  predicate CanonOf(t: nat, n: nat, bits: nat) {
    n == CanonLenOf(CodecTypeOf(t)) && bits == PayloadBits(CodecTypeOf(t))
  }

  lemma HrRefAs(s: Setup, flags: nat, f: Format)
    requires s.Valid() && f == HrRefFormat(s.widths, s.bigEndian, flags)
    ensures Lossless(f, HR_CANON_LEN, HR_BITS)
  {
    HrRefLossless(s.widths, s.bigEndian, flags);
  }

  lemma HrChannelAs(s: Setup, side: Side, f: Format)
    requires s.Valid() && HrTables.HrSide(side) && f == HrFormat(s.tables, side)
    ensures Lossless(f, HR_CANON_LEN, HR_BITS)
  {
    HalfRateLossless(s.tables, side);
  }

  lemma RtpHrEtsiAs(f: Format)
    requires f == RtpHrEtsiFormat()
    ensures Lossless(f, HR_CANON_LEN, HR_BITS)
  {
    RtpHrLossless();
  }

  lemma RtpHrIetfAs(f: Format)
    requires f == RtpHrIetfFormat()
    ensures Lossless(f, HR_CANON_LEN, HR_BITS)
  {
    RtpHrLossless();
  }

  lemma GsmAs(f: Format)
    requires f == GsmFormat()
    ensures Lossless(f, FR_CANON_LEN, FR_BITS)
  {
    GsmLossless();
  }

  lemma RacalFrAs(s: Setup, f: Format)
    requires s.Valid() && f == RacalFrFormat(s.tables)
    ensures Lossless(f, FR_CANON_LEN, FR_BITS)
  {
    RacalFrLossless(s.tables);
  }

  lemma TiFrAs(s: Setup, f: Format)
    requires s.Valid() && f == TiFrFormat(s.tables)
    ensures Lossless(f, FR_CANON_LEN, FR_BITS)
  {
    TiFrLossless(s.tables);
  }

  lemma RacalEfrAs(s: Setup, f: Format)
    requires s.Valid() && f == RacalEfrFormat()
    ensures Lossless(f, EFR_CANON_LEN, EFR_BITS)
  {
    EnhancedFullRateLossless(s.tables);
  }

  lemma AmrEfrAs(s: Setup, f: Format)
    requires s.Valid() && f == AmrEfrFormat(s.tables)
    ensures Lossless(f, EFR_CANON_LEN, EFR_BITS)
  {
    EnhancedFullRateLossless(s.tables);
  }

  lemma HrAt(s: Setup, t: nat, f: Format)
    requires s.Valid() && HrType(t) && f == HrConverters(s, t)
    ensures Lossless(f, HR_CANON_LEN, HR_BITS)
  {
    if t == FMT_HR_REF_DEC {
      HrRefAs(s, 4, f);
    } else if t == FMT_HR_REF_ENC {
      HrRefAs(s, 2, f);
    } else if t == FMT_RACAL_HR {
      HrChannelAs(s, FmtRacal.HrLayout(), f);
    } else if t == FMT_TI_HR {
      HrChannelAs(s, FmtTi.HrLayout(), f);
    } else if t == FMT_RTP_HR_ETSI {
      RtpHrEtsiAs(f);
    } else {
      RtpHrIetfAs(f);
    }
  }

  lemma FrAt(s: Setup, t: nat, f: Format)
    requires s.Valid() && FrType(t) && f == FrConverters(s, t)
    ensures Lossless(f, FR_CANON_LEN, FR_BITS)
  {
    if t == FMT_GSM {
      GsmAs(f);
    } else if t == FMT_RACAL_FR {
      RacalFrAs(s, f);
    } else {
      TiFrAs(s, f);
    }
  }

  lemma TiEfrAs(s: Setup, f: Format)
    requires s.Valid() && FmtTiEfr.AllKept(s.efrOrder) && f == TiEfrFormat(s.efrOrder)
    ensures Lossless(f, EFR_CANON_LEN, EFR_BITS)
  {
    TiEfrKeptLossless(s.efrOrder);
  }

  lemma EfrAt(s: Setup, t: nat, f: Format)
    requires s.Valid() && LosslessType(s, t) && EfrType(t) && f == EfrConverters(s, t)
    ensures Lossless(f, EFR_CANON_LEN, EFR_BITS)
  {
    if t == FMT_AMR_EFR {
      AmrEfrAs(s, f);
    } else if t == FMT_RACAL_EFR {
      RacalEfrAs(s, f);
    } else {
      TiEfrAs(s, f);
    }
  }

  lemma HrCase(s: Setup, t: nat, f: Format, n: nat, bits: nat)
    requires s.Valid() && LosslessType(s, t) && HrType(t) && f == HrConverters(s, t)
    requires n == HR_CANON_LEN && bits == HR_BITS
    ensures Lossless(f, n, bits)
  {
    HrAt(s, t, f);
  }

  lemma FrCase(s: Setup, t: nat, f: Format, n: nat, bits: nat)
    requires s.Valid() && LosslessType(s, t) && FrType(t) && f == FrConverters(s, t)
    requires n == FR_CANON_LEN && bits == FR_BITS
    ensures Lossless(f, n, bits)
  {
    FrAt(s, t, f);
  }

  lemma EfrCase(s: Setup, t: nat, f: Format, n: nat, bits: nat)
    requires s.Valid() && LosslessType(s, t) && EfrType(t) && f == EfrConverters(s, t)
    requires n == EFR_CANON_LEN && bits == EFR_BITS
    ensures Lossless(f, n, bits)
  {
    EfrAt(s, t, f);
  }

  /** Every shipped format but rtp-efr, PCM and those of variable length is lossless, ti-efr under its condition. */
  lemma ConvertersLossless(s: Setup, t: nat, f: Format, n: nat, bits: nat)
    requires s.Valid() && LosslessType(s, t) && f == Converters(s, t) && CanonOf(t, n, bits)
    ensures Lossless(f, n, bits)
  {
    if HrType(t) {
      HrCase(s, t, f, n, bits);
    } else if FrType(t) {
      FrCase(s, t, f, n, bits);
    } else {
      EfrCase(s, t, f, n, bits);
    }
  }

  lemma HrLen(s: Setup, t: nat)
    requires s.Valid() && HrType(t)
    ensures HrConverters(s, t).frameLen == FrameLenOf(t) > 0
  {
  }

  lemma FrLen(s: Setup, t: nat)
    requires s.Valid() && FrType(t)
    ensures FrConverters(s, t).frameLen == FrameLenOf(t) > 0
  {
  }

  lemma EfrLen(s: Setup, t: nat)
    requires s.Valid() && EfrType(t)
    ensures EfrConverters(s, t).frameLen == FrameLenOf(t) > 0
  {
  }

  lemma ConvertersLen(s: Setup, t: nat)
    requires s.Valid() && ShippedType(t) && !AmrType(t)
    ensures Converters(s, t).frameLen == FrameLenOf(t) > 0
  {
    if HrType(t) {
      HrLen(s, t);
    } else if FrType(t) {
      FrLen(s, t);
    } else if EfrType(t) {
      EfrLen(s, t);
    }
  }

  lemma TiEfrKeeps(s: Setup, f: Format, n: nat)
    requires s.Valid() && f == TiEfrFormat(s.efrOrder) && n == EFR_CANON_LEN
    ensures KeepsLengths(f, f.frameLen, n)
  {
    LayoutKeeps(FmtTiEfr.EfrLayout(s.efrOrder));
  }

  lemma RtpEfrKeeps(f: Format, n: nat)
    requires f == RtpEfrFormat() && n == EFR_CANON_LEN
    ensures KeepsLengths(f, f.frameLen, n)
  {
  }

  lemma PcmKeeps(f: Format, big: bool, n: nat)
    requires f == PcmFormat(big) && n == PCM_CANON_LEN
    ensures KeepsLengths(f, f.frameLen, n)
  {
  }

  /** The lossy formats and PCM keep the lengths. */
  lemma OthersKeep(s: Setup, t: nat, f: Format, n: nat)
    requires s.Valid() && ShippedType(t) && !AmrType(t) && !LosslessType(s, t) && f == Converters(s, t)
    requires n == CanonLenOf(CodecTypeOf(t))
    ensures KeepsLengths(f, f.frameLen, n)
  {
    if t == FMT_TI_EFR {
      TiEfrKeeps(s, f, n);
    } else if t == FMT_RTP_EFR {
      RtpEfrKeeps(f, n);
    } else {
      PcmKeeps(f, s.bigEndian, n);
    }
  }

  lemma ConvertersKeep(s: Setup, t: nat, f: Format, n: nat, bits: nat)
    requires s.Valid() && ShippedType(t) && !AmrType(t) && f == Converters(s, t) && CanonOf(t, n, bits)
    ensures KeepsLengths(f, f.frameLen, n)
  {
    if LosslessType(s, t) {
      ConvertersLossless(s, t, f, n, bits);
      LosslessKeeps(f, n, bits);
    } else {
      OthersKeep(s, t, f, n);
    }
  }

  lemma AmrFits(t: nat)
    requires AmrType(t)
    ensures Fitting(DescribeAmr(t), t)
  {
    if t == FMT_RTP_AMR {
      forall y: seq<byte> | RawKind(t)(y)
        ensures RtpAmrToCanon(y).Done? && 1 <= |RtpAmrToCanon(y).out| <= MAX_AMR_LEN
      {
        FmtRtpAmr.DeliveredIff(y, |y|);
      }
    }
  }

  /**
   Every shipped descriptor is what its place in the table demands; in particular no converter's assertion
   can fail.
   */
  lemma AllFitting(s: Setup, t: nat)
    requires s.Valid() && ShippedType(t)
    ensures Fitting(FormatOf(s, t), t)
  {
    if AmrType(t) {
      AmrFits(t);
    } else {
      ConvertersLen(s, t);
      ConvertersKeep(s, t, Converters(s, t), CanonLenOf(CodecTypeOf(t)), PayloadBits(CodecTypeOf(t)));
      DescribeFits(t, Converters(s, t));
    }
  }

  // --- The registry --------------------------------------------------------------------------------------------

  function EncFormatOf(c: nat): nat {
    if c == CODEC_HR then FMT_HR_REF_ENC else if c == CODEC_FR then FMT_GSM else if c == CODEC_EFR then FMT_AMR_EFR
    else if c == CODEC_AMR then FMT_AMR_OPENCORE else FMT_INVALID
  }

  function DecFormatOf(c: nat): nat {
    if c == CODEC_HR then FMT_HR_REF_DEC else EncFormatOf(c)
  }

  predicate ShippedCodec(c: nat) {
    c == CODEC_PCM || c == CODEC_HR || c == CODEC_FR || c == CODEC_EFR || c == CODEC_AMR
  }

  /**
   A descriptor of codec `c`.  What is compiled in keeps to the kinds of frames; what is not leaves its
   format at zero.
   */
  ghost predicate FittingCodec(d: CodecDesc, c: nat) {
    && d.ctype == c && d.canonLen == CanonLenOf(c)
    && (d.encFormat == EncFormatOf(c) || d.encFormat == FMT_INVALID)
    && (d.decFormat == DecFormatOf(c) || d.decFormat == FMT_INVALID)
    && (d.encode.Some? ==> SoundCoder(d.encode.value, CanonKind(CODEC_PCM), RawKind(d.encFormat)))
    && (d.decode.Some? ==> SoundCoder(d.decode.value, RawKind(d.decFormat), CanonKind(CODEC_PCM)))
  }

  /** The lookup tables of src/formats.c and src/codecs.c for format types `ts` and codec types `cs`. */
  function Register(ts: set<nat>, cs: set<nat>, desc: nat -> FormatDesc, codec: nat -> CodecDesc): Registry {
    Registry(map t | t in ts :: desc(t), map c | c in cs :: codec(c))
  }

  /** Any part of the tables that has the codecs of its formats; codecs need not be compiled in. */
  ghost predicate Sheets(ts: set<nat>, cs: set<nat>, desc: nat -> FormatDesc, codec: nat -> CodecDesc) {
    && (forall t :: t in ts ==> ShippedType(t) && Fitting(desc(t), t) && CodecTypeOf(t) in cs)
    && (forall c :: c in cs ==> ShippedCodec(c) && FittingCodec(codec(c), c))
    && CODEC_PCM in cs
  }

  lemma CodecSoundHere(reg: Registry, d: CodecDesc, c: nat)
    requires ShippedCodec(c) && FittingCodec(d, c)
    ensures SoundCodec(reg, FRAMES, d)
  {
  }

  /** With fitting descriptors the registry meets every hypothesis of the pipeline theorems. */
  lemma RegisterSound(ts: set<nat>, cs: set<nat>, desc: nat -> FormatDesc, codec: nat -> CodecDesc)
    requires Sheets(ts, cs, desc, codec)
    ensures var reg := Register(ts, cs, desc, codec);
      reg.Consistent() && SoundRegistry(reg, FRAMES) && PcmFixed(reg)
  {
    var reg := Register(ts, cs, desc, codec);
    forall t | t in reg.formats
      ensures reg.formats[t].ftype == t && reg.formats[t].codecType in reg.codecs
      ensures SoundDesc(reg.formats[t], FRAMES.raw(t), FRAMES.canon(reg.formats[t].codecType))
    {
      assert Fitting(desc(t), t);
    }
    forall c | c in reg.codecs
      ensures reg.codecs[c].ctype == c && reg.codecs[c].canonLen == CanonLenOf(c)
          && SoundCodec(reg, FRAMES, reg.codecs[c])
    {
      CodecSoundHere(reg, codec(c), c);
    }
  }

  lemma CoderFormats(c: nat)
    requires ShippedCodec(c)
    ensures EncFormatOf(c) == FMT_INVALID || CodecTypeOf(EncFormatOf(c)) == c
    ensures DecFormatOf(c) == FMT_INVALID || CodecTypeOf(DecFormatOf(c)) == c
  {
  }

  lemma FormatHere(ts: set<nat>, desc: nat -> FormatDesc, t: nat)
    requires forall t :: t in ts ==> ShippedType(t) && Fitting(desc(t), t)
    ensures t in ts ==> t != FMT_INVALID && desc(t).frameLen == FrameLenOf(t) && desc(t).codecType == CodecTypeOf(t)
  {
  }

  /** Codecs work on formats of their own; only the AMR encoder can be lost. */
  lemma RegisterOwn(ts: set<nat>, cs: set<nat>, desc: nat -> FormatDesc, codec: nat -> CodecDesc, a: nat, b: nat)
    requires Sheets(ts, cs, desc, codec) && a in ts && b in ts
    ensures var reg := Register(ts, cs, desc, codec);
      && Request(reg, desc(a), desc(b)) && OwnFormats(reg, desc(a), desc(b))
      && (EncoderLost(reg, desc(a), desc(b)) ==> AmrType(b))
  {
    RegisterSound(ts, cs, desc, codec);
    assert Fitting(desc(a), a) && Fitting(desc(b), b);
    var ca, cb := CodecTypeOf(a), CodecTypeOf(b);
    assert FittingCodec(codec(ca), ca) && FittingCodec(codec(cb), cb);
    CoderFormats(ca);
    CoderFormats(cb);
    FormatHere(ts, desc, codec(ca).decFormat);
    FormatHere(ts, desc, codec(cb).encFormat);
  }

  // --- Any two formats, any file -------------------------------------------------------------------------------

  /**
   The request is accepted; no pass can go wrong, on any file and from any state of the coders; and the
   output file is the output header followed by the translation of the input file.
   */
  ghost predicate Converts(reg: Registry, fin: FormatDesc, fout: FormatDesc, file: seq<byte>) {
    && Request(reg, fin, fout) && Supported(reg, fin, fout) && ChainAccepted(reg, fin, fout)
    && var bs := Compile(reg, fin, fout).value;
    && FileChain(StagesIn(bs))
    && (forall mems: seq<Memory>, io: Io :: |mems| == |bs| ==>
          Safe(StagesIn(bs), mems, 0, [], io) && SafeRun(StagesIn(bs), mems, io))
    && (fin.header <= file ==>
          ConvertFile(reg, fin, fout, file)
          == Some(RunAll(StagesIn(bs), MemoriesIn(bs), Io(file[|fin.header|..], fout.header)).io.output))
  }

  /** A request whose coders are ready converts every file. */
  lemma ReadyConverts(reg: Registry, fs: FrameKinds, fin: FormatDesc, fout: FormatDesc, file: seq<byte>)
    requires Request(reg, fin, fout) && OwnFormats(reg, fin, fout) && PcmFixed(reg) && SoundRegistry(reg, fs)
    requires CodersReady(reg, fin, fout)
    ensures Converts(reg, fin, fout, file)
  {
    AcceptedIffReady(reg, fin, fout);
    AcceptedIff(reg, fin, fout);
    QueuedSupported(reg, fin, fout);
    CompiledFileChain(reg, fin, fout);
    var bs := Compile(reg, fin, fout).value;
    forall mems: seq<Memory>, io: Io | |mems| == |bs|
      ensures Safe(StagesIn(bs), mems, 0, [], io) && SafeRun(StagesIn(bs), mems, io)
    {
      CompiledChainSafe(reg, fs, fin, fout, mems, io);
    }
    if fin.header <= file {
      ProgramWrites(reg, fin, fout, file);
    }
  }

  /** `desc` and `codec` are the tables of the program; which codecs are compiled in is left open. */
  ghost predicate Installed(
    s: Setup, ts: set<nat>, cs: set<nat>, desc: nat -> FormatDesc, codec: nat -> CodecDesc) {
    && s.Valid()
    && (forall t :: t in ts <==> ShippedType(t)) && (forall t: nat :: desc(t) == FormatOf(s, t))
    && (forall c :: c in cs <==> ShippedCodec(c)) && (forall c :: c in cs ==> FittingCodec(codec(c), c))
  }

  lemma InstalledSheets(s: Setup, ts: set<nat>, cs: set<nat>, desc: nat -> FormatDesc, codec: nat -> CodecDesc)
    requires Installed(s, ts, cs, desc, codec)
    ensures Sheets(ts, cs, desc, codec)
  {
    forall t | t in ts ensures ShippedType(t) && Fitting(desc(t), t) && CodecTypeOf(t) in cs {
      AllFitting(s, t);
      assert ShippedCodec(CodecTypeOf(t));
    }
  }

  /**
   Any two formats that gapk ships, and any file: apart from a lost AMR encoder the request is accepted
   exactly if the coders it needs are there, none for formats of one codec; and then the file is converted.
   */
  lemma ShippedConverts(s: Setup, ts: set<nat>, cs: set<nat>, desc: nat -> FormatDesc, codec: nat -> CodecDesc,
                        a: nat, b: nat, file: seq<byte>)
    requires Installed(s, ts, cs, desc, codec) && a in ts && b in ts
    ensures var reg := Register(ts, cs, desc, codec);
      && Request(reg, desc(a), desc(b))
      && (ChainAccepted(reg, desc(a), desc(b)) && !EncoderLost(reg, desc(a), desc(b))
          <==> CodersReady(reg, desc(a), desc(b)))
      && (EncoderLost(reg, desc(a), desc(b)) ==> AmrType(b))
      && (CodecTypeOf(a) == CodecTypeOf(b) ==> CodersReady(reg, desc(a), desc(b)))
      && (CodersReady(reg, desc(a), desc(b)) ==> Converts(reg, desc(a), desc(b), file))
  {
    var reg := Register(ts, cs, desc, codec);
    InstalledSheets(s, ts, cs, desc, codec);
    RegisterSound(ts, cs, desc, codec);
    RegisterOwn(ts, cs, desc, codec, a, b);
    AcceptedIffReady(reg, desc(a), desc(b));
    assert Fitting(desc(a), a) && Fitting(desc(b), b);
    if CodersReady(reg, desc(a), desc(b)) {
      ReadyConverts(reg, FRAMES, desc(a), desc(b), file);
    }
  }

  // --- Detours -------------------------------------------------------------------------------------------------

  /** The descriptors of lossless formats other than amr-efr read whatever there is. */
  lemma LosslessDescribed(t: nat, f: Format, n: nat, bits: nat)
    requires t != FMT_AMR_EFR && CanonOf(t, n, bits) && Lossless(f, n, bits) && f.frameLen > 0
    ensures Describes(Describe(t, f), f, n) && ReadsAll(Describe(t, f), f)
  {
  }

  /** That of amr-efr reads what it wrote. */
  lemma AmrDescribed(s: Setup, f: Format)
    requires s.Valid() && f == AmrEfrFormat(s.tables)
    ensures Describes(Describe(FMT_AMR_EFR, f), f, EFR_CANON_LEN)
  {
    var l := FmtAmr.EfrLayout(s.tables.efr);
    forall x: seq<byte> ensures |l.FromCanon(x)| == FmtAmr.EFR_LEN && l.FromCanon(x)[0] == FmtAmr.AMR_HEADER {
      FmtAmr.HeaderWritten(s.tables.efr, x);
    }
  }

  /** Every complete amr-efr frame of the file body carries the header byte. */
  ghost predicate AmrHeaders(input: seq<byte>)
    decreases |input|
  {
    |input| >= FmtAmr.EFR_LEN ==> input[0] == FmtAmr.AMR_HEADER && AmrHeaders(input[FmtAmr.EFR_LEN..])
  }

  lemma {:induction false} AmrReadableIff(f: Format, input: seq<byte>)
    requires f.frameLen == FmtAmr.EFR_LEN
    ensures Readable(Describe(FMT_AMR_EFR, f), f, input) <==> AmrHeaders(input)
    decreases |input|
  {
    if |input| < FmtAmr.EFR_LEN {
    } else {
      AmrReadableIff(f, input[FmtAmr.EFR_LEN..]);
    }
  }

  /** The file body can be read in format `t`. */
  ghost predicate Body(t: nat, input: seq<byte>) {
    t == FMT_AMR_EFR ==> AmrHeaders(input)
  }

  /** What the general results on detours ask of a format. */
  ghost predicate Usable(d: FormatDesc, f: Format, n: nat, bits: nat) {
    Lossless(f, n, bits) && Describes(d, f, n)
  }

  lemma DescribedUsable(s: Setup, t: nat, f: Format, n: nat, bits: nat)
    requires s.Valid() && LosslessType(s, t) && CanonOf(t, n, bits) && Lossless(f, n, bits) && f.frameLen > 0
    requires t == FMT_AMR_EFR ==> f == AmrEfrFormat(s.tables)
    ensures Usable(Describe(t, f), f, n, bits)
  {
    if t == FMT_AMR_EFR {
      AmrDescribed(s, f);
    } else {
      LosslessDescribed(t, f, n, bits);
    }
  }

  lemma ShippedUsable(s: Setup, t: nat, d: FormatDesc, f: Format, n: nat, bits: nat)
    requires s.Valid() && LosslessType(s, t) && f == Converters(s, t) && CanonOf(t, n, bits) && d == FormatOf(s, t)
    ensures Usable(d, f, n, bits)
  {
    ConvertersLen(s, t);
    ConvertersLossless(s, t, f, n, bits);
    DescribedUsable(s, t, f, n, bits);
  }

  lemma BodyReadable(s: Setup, t: nat, d: FormatDesc, f: Format, n: nat, bits: nat, input: seq<byte>)
    requires s.Valid() && LosslessType(s, t) && f == Converters(s, t) && CanonOf(t, n, bits) && d == FormatOf(s, t)
    requires Body(t, input)
    ensures f.frameLen > 0 && Readable(d, f, input)
  {
    ConvertersLen(s, t);
    if t == FMT_AMR_EFR {
      AmrReadableIff(f, input);
    } else {
      ConvertersLossless(s, t, f, n, bits);
      LosslessDescribed(t, f, n, bits);
      ReadsAllReadable(d, f, input);
    }
  }

  /** Descriptor and converters of a shipped lossless format of codec `c`. */
  ghost predicate Stands(s: Setup, t: nat, d: FormatDesc, f: Format, c: nat) {
    s.Valid() && LosslessType(s, t) && d == FormatOf(s, t) && f == Converters(s, t) && CodecTypeOf(t) == c
  }

  lemma StandsTypes(s: Setup, t: nat, d: FormatDesc, f: Format, c: nat)
    requires Stands(s, t, d, f, c)
    ensures d.ftype == t && d.codecType == c
  {
  }

  /**
   Any three shipped lossless formats of one codec: a file that went through `b` on its way from `a` to `c`
   is, header and all, the file that one run from `a` to `c` leaves.
   */
  lemma ShippedDetour(s: Setup, reg: Registry, codec: nat, a: nat, fa: FormatDesc, f: Format,
                      b: nat, fb: FormatDesc, g: Format, c: nat, fc: FormatDesc, h: Format, input: seq<byte>)
    requires Stands(s, a, fa, f, codec) && Stands(s, b, fb, g, codec) && Stands(s, c, fc, h, codec)
    requires a != b && b != c && a != c && Request(reg, fa, fb) && Request(reg, fb, fc) && Body(a, input)
    ensures fa.codecType == fb.codecType == fc.codecType == codec
    ensures var once := ConvertFile(reg, fa, fb, fa.header + input);
      once.Some? && ConvertFile(reg, fb, fc, once.value) == ConvertFile(reg, fa, fc, fa.header + input)
  {
    var n, bits := CanonLenOf(codec), PayloadBits(codec);
    StandsTypes(s, a, fa, f, codec);
    ShippedUsable(s, a, fa, f, n, bits);
    StandsTypes(s, b, fb, g, codec);
    ShippedUsable(s, b, fb, g, n, bits);
    StandsTypes(s, c, fc, h, codec);
    ShippedUsable(s, c, fc, h, n, bits);
    BodyReadable(s, a, fa, f, n, bits, input);
    Detour(reg, fa, f, fb, g, fc, h, n, bits, input);
  }

  /**
   There and back: every frame is normalised and keeps its canonical form, and a file of whole frames that
   the format could have written itself comes back byte for byte.
   */
  lemma ShippedReturn(s: Setup, reg: Registry, codec: nat, a: nat, fa: FormatDesc, f: Format,
                      b: nat, fb: FormatDesc, g: Format, input: seq<byte>)
    requires Stands(s, a, fa, f, codec) && Stands(s, b, fb, g, codec) && a != b && Request(reg, fa, fb)
    requires Body(a, input)
    ensures fa.codecType == fb.codecType == codec && f.frameLen > 0
    ensures var once := ConvertFile(reg, fa, fb, fa.header + input);
      && once.Some?
      && ConvertFile(reg, fb, fa, once.value) == Some(fa.header + Blocks(f.frameLen, FileDetours.Through(f, f), input))
      && (|input| % f.frameLen == 0 && SelfWritten(f, input) ==>
            ConvertFile(reg, fb, fa, once.value) == Some(fa.header + input))
    ensures forall y: seq<byte> :: |y| == f.frameLen ==> f.to(FileDetours.Through(f, f)(y)) == f.to(y)
  {
    var n, bits := CanonLenOf(codec), PayloadBits(codec);
    StandsTypes(s, a, fa, f, codec);
    ShippedUsable(s, a, fa, f, n, bits);
    StandsTypes(s, b, fb, g, codec);
    ShippedUsable(s, b, fb, g, n, bits);
    BodyReadable(s, a, fa, f, n, bits, input);
    ThereAndBack(reg, fa, f, fb, g, n, bits, input);
  }

  // --- The tables, entry by entry ------------------------------------------------------------------------------

  /** The converters of each type. */
  lemma HrRefEntries(s: Setup, t: nat)
    requires s.Valid()
    ensures t == 3 ==> Converters(s, t) == HrRefFormat(s.widths, s.bigEndian, 4)
    ensures t == 4 ==> Converters(s, t) == HrRefFormat(s.widths, s.bigEndian, 2)
  {
  }

  lemma HrChannelEntries(s: Setup, t: nat)
    requires s.Valid()
    ensures t == 5 ==> Converters(s, t) == HrFormat(s.tables, FmtRacal.HrLayout())
    ensures t == 9 ==> Converters(s, t) == HrFormat(s.tables, FmtTi.HrLayout())
  {
  }

  lemma HrRtpEntries(s: Setup, t: nat)
    requires s.Valid()
    ensures t == 15 ==> Converters(s, t) == RtpHrEtsiFormat()
    ensures t == 16 ==> Converters(s, t) == RtpHrIetfFormat()
  {
  }

  lemma FrEntries(s: Setup, t: nat)
    requires s.Valid()
    ensures t == 2 ==> Converters(s, t) == GsmFormat()
    ensures t == 6 ==> Converters(s, t) == RacalFrFormat(s.tables)
    ensures t == 10 ==> Converters(s, t) == TiFrFormat(s.tables)
  {
  }

  lemma EfrEntries(s: Setup, t: nat)
    requires s.Valid()
    ensures t == 1 ==> Converters(s, t) == AmrEfrFormat(s.tables)
    ensures t == 7 ==> Converters(s, t) == RacalEfrFormat()
    ensures t == 11 ==> Converters(s, t) == TiEfrFormat(s.efrOrder)
    ensures t == 14 ==> Converters(s, t) == RtpEfrFormat()
  {
  }

  lemma PcmEntry(s: Setup, t: nat)
    requires s.Valid()
    ensures t == 8 ==> Converters(s, t) == PcmFormat(s.bigEndian)
  {
  }

  /** Codecs and frame lengths of the types; 1 is PCM, 2 HR, 3 FR, 4 EFR and 5 AMR, and length 0 is variable. */
  lemma TypeEntries(t: nat)
    requires 1 <= t <= 16
    ensures CodecTypeOf(t) == [4, 3, 2, 2, 2, 3, 4, 1, 2, 3, 4, 5, 5, 4, 2, 2][t - 1]
    ensures FrameLenOf(t) == [32, 33, 44, 40, 14, 33, 31, 320, 33, 33, 33, 0, 0, 31, 14, 15][t - 1]
  {
  }

  lemma DescriptorEntries(s: Setup, t: nat)
    requires s.Valid() && ShippedType(t)
    ensures var d := FormatOf(s, t);
      d.ftype == t && d.codecType == CodecTypeOf(t) && d.frameLen == FrameLenOf(t)
  {
    AllFitting(s, t);
  }

  /** Only an .amr file has a header, "#!AMR" and a line feed. */
  lemma HeaderEntries(s: Setup, t: nat)
    requires s.Valid()
    ensures FormatOf(s, t).header == if t == 1 then [0x23, 0x21, 0x41, 0x4d, 0x52, 0x0a] else []
  {
  }

  /** The formats that encoders write and decoders read. */
  lemma CoderEntries()
    ensures EncFormatOf(2) == 4 && EncFormatOf(3) == 2 && EncFormatOf(4) == 1 && EncFormatOf(5) == 12
    ensures DecFormatOf(2) == 3 && DecFormatOf(3) == 2 && DecFormatOf(4) == 1 && DecFormatOf(5) == 12
    ensures CanonLenOf(1) == 320 && CanonLenOf(2) == 14 && CanonLenOf(3) == 33 && CanonLenOf(4) == 31
    ensures CanonLenOf(5) == 0
  {
  }

  /** The converters behind a descriptor, with their assertions; amr-efr refuses another header byte with -1. */
  lemma ConverterEntries(s: Setup, t: nat, x: seq<byte>)
    requires s.Valid() && 1 <= t <= 16 && t != 12 && t != 13
    ensures var d, f := FormatOf(s, t), Converters(s, t);
      && d.fromCanon(x) == (if |x| != CanonLenOf(d.codecType) then Abort else Done(f.from(x)))
      && d.toCanon(x) == (if t == 14 || t == 15 || t == 16 then Done(f.to(x))
                          else if |x| != f.frameLen then Abort
                          else if t == 1 && |x| > 0 && x[0] != 0x3c then Error(-1) else Done(f.to(x)))
  {
  }

  lemma AmrEntries(s: Setup, x: seq<byte>)
    requires s.Valid()
    ensures FormatOf(s, 12).fromCanon(x) == Done(x) && FormatOf(s, 12).toCanon(x) == Done(x)
    ensures FormatOf(s, 13).fromCanon(x) == Done([0xf0] + x)
    ensures 2 <= |x| < 0x1_0000_0000 ==>
      FormatOf(s, 13).toCanon(x)
      == Done(if x[1] / 4 % 2 == 1 then x[1..] else [0x44, 0x00, 0x00, 0x00, 0x00, 0x00])
  {
    if 2 <= |x| < 0x1_0000_0000 {
      FmtRtpAmr.PayloadBytes(x, x, |x|);
      assert x[1..|x|] == x[1..];
    }
  }

  /** Sample `i` of a PCM file is little-endian, that of a canonical frame in the order of the host. */
  lemma SampleBytes(big: bool, z: seq<byte>, i: nat)
    requires |z| == 320 && i < 160
    ensures |PcmFormat(big).from(z)| == |PcmFormat(big).to(z)| == 320
    ensures PcmFormat(big).from(z)[2 * i] == PcmFormat(big).to(z)[2 * i] == if big then z[2 * i + 1] else z[2 * i]
    ensures PcmFormat(big).from(z)[2 * i + 1] == PcmFormat(big).to(z)[2 * i + 1]
            == if big then z[2 * i] else z[2 * i + 1]
  {
    assert 2 * i % 2 == 0 && (2 * i + 1) % 2 == 1;
  }
}
