/**
 Building and running a conversion: descriptors, the queue calls of src/pq_file.c, src/pq_format.c and
 src/pq_codec.c, and `make_processing_chain` and `run` of src/app_osmo_gapk.c with files at both ends.
 */
module Pipeline {
  import opened Bits
  import opened Procqueue

  const CODEC_PCM: nat := 1
  const ENOTSUP: int := -95

  datatype Option<+T> = None | Some(value: T)

  type Coder = (Memory, seq<byte>) -> Answer

  /** `struct osmo_gapk_format_desc`; a length of 0 means variable. */
  datatype FormatDesc = FormatDesc(
    ftype: nat, codecType: nat, frameLen: nat,
    fromCanon: seq<byte> -> Ret, toCanon: seq<byte> -> Ret, header: seq<byte>)

  /** `struct osmo_gapk_codec_desc`; `init` is what `codec_init` returns, where NULL is `Some(None)`. */
  datatype CodecDesc = CodecDesc(
    ctype: nat, canonLen: nat, encFormat: nat, decFormat: nat,
    init: Option<Option<Memory>>, encode: Option<Coder>, decode: Option<Coder>)

  /** The lookup tables of src/formats.c and src/codecs.c. */
  datatype Registry = Registry(formats: map<nat, FormatDesc>, codecs: map<nat, CodecDesc>) {
    ghost predicate Has(f: FormatDesc) {
      f.ftype in formats && formats[f.ftype] == f
    }

    /** Descriptors are filed under their own type, every format names a known codec, and PCM is known. */
    ghost predicate Consistent() {
      && (forall t :: t in formats ==> formats[t].ftype == t && formats[t].codecType in codecs)
      && (forall t :: t in codecs ==> codecs[t].ctype == t)
      && CODEC_PCM in codecs
    }

    function Codec(f: FormatDesc): CodecDesc
      requires f.codecType in codecs
    {
      codecs[f.codecType]
    }

    function CanonLen(f: FormatDesc): nat
      requires f.codecType in codecs
    {
      codecs[f.codecType].canonLen
    }
  }

  // --- check_options -----------------------------------------------------------------------------------

  datatype Options = Options(
    fmtIn: Option<FormatDesc>, fmtOut: Option<FormatDesc>,
    fileIn: bool, rtpIn: bool, alsaIn: bool,
    fileOut: bool, rtpOut: bool, alsaOut: bool)

  function Count(a: bool, b: bool, c: bool): nat {
    (if a then 1 else 0) + (if b then 1 else 0) + (if c then 1 else 0)
  }

  predicate NeedsDecoder(fin: FormatDesc, fout: FormatDesc) {
    fin.codecType != CODEC_PCM && fin.codecType != fout.codecType
  }

  predicate NeedsEncoder(fin: FormatDesc, fout: FormatDesc) {
    fout.codecType != CODEC_PCM && fout.codecType != fin.codecType
  }

  function CheckOptions(reg: Registry, o: Options): (rv: int) {
    if o.fmtIn.None? || o.fmtOut.None? then EINVAL
    else
      var fin, fout := o.fmtIn.value, o.fmtOut.value;
      var transcoding := CheckTranscoding(reg, fin, fout);
      if transcoding != 0 then transcoding
      else if Count(o.fileIn, o.rtpIn, o.alsaIn) > 1 || Count(o.fileOut, o.rtpOut, o.alsaOut) > 1 then EINVAL
      else 0
  }

  function CheckTranscoding(reg: Registry, fin: FormatDesc, fout: FormatDesc): (rv: int) {
    if fin.codecType == fout.codecType then 0
    else if fin.codecType !in reg.codecs then EINVAL
    else if reg.Codec(fin).ctype != CODEC_PCM && reg.Codec(fin).decode.None? then ENOTSUP
    else if fout.codecType !in reg.codecs then EINVAL
    else if reg.Codec(fout).ctype != CODEC_PCM && reg.Codec(fout).encode.None? then ENOTSUP
    else 0
  }

  /** The decoder and the encoder that a change of codec calls for are there. */
  predicate Transcodable(reg: Registry, fin: FormatDesc, fout: FormatDesc) {
    && (NeedsDecoder(fin, fout) ==> fin.codecType in reg.codecs && reg.Codec(fin).decode.Some?)
    && (NeedsEncoder(fin, fout) ==> fout.codecType in reg.codecs && reg.Codec(fout).encode.Some?)
  }

  /** What `check_options` lets through: two formats, a possible conversion, at most one source and one sink. */
  lemma OptionsAccepted(reg: Registry, o: Options)
    requires reg.Consistent()
    requires forall f :: o.fmtIn == Some(f) || o.fmtOut == Some(f) ==> reg.Has(f)
    ensures CheckOptions(reg, o) == 0 <==>
      && o.fmtIn.Some? && o.fmtOut.Some? && Transcodable(reg, o.fmtIn.value, o.fmtOut.value)
      && !(o.fileIn && o.rtpIn) && !(o.fileIn && o.alsaIn) && !(o.rtpIn && o.alsaIn)
      && !(o.fileOut && o.rtpOut) && !(o.fileOut && o.alsaOut) && !(o.rtpOut && o.alsaOut)
  {
    if o.fmtIn.Some? && o.fmtOut.Some? {
      assert reg.Has(o.fmtIn.value) && reg.Has(o.fmtOut.value);
    }
  }

  /**
   The return codes: -22 without two formats, -95 if a coder is missing that a change of codec to or from
   something else than PCM asks for, and otherwise -22 for more than one source or sink.
   */
  lemma OptionCodes(reg: Registry, o: Options)
    requires reg.Consistent()
    requires forall f :: o.fmtIn == Some(f) || o.fmtOut == Some(f) ==> reg.Has(f)
    ensures o.fmtIn.None? || o.fmtOut.None? ==> CheckOptions(reg, o) == -22
    ensures o.fmtIn.Some? && o.fmtOut.Some? ==>
      var a, b := o.fmtIn.value.codecType, o.fmtOut.value.codecType;
      a in reg.codecs && b in reg.codecs &&
      var missing := a != b &&
        ((a != 1 && reg.codecs[a].decode.None?) || (b != 1 && reg.codecs[b].encode.None?));
      var crowded :=
        || (o.fileIn && o.rtpIn) || (o.fileIn && o.alsaIn) || (o.rtpIn && o.alsaIn)
        || (o.fileOut && o.rtpOut) || (o.fileOut && o.alsaOut) || (o.rtpOut && o.alsaOut);
      CheckOptions(reg, o) == if missing then -95 else if crowded then -22 else 0
  {
    if o.fmtIn.Some? && o.fmtOut.Some? {
      assert reg.Has(o.fmtIn.value) && reg.Has(o.fmtOut.value);
    }
  }

  // --- The queue calls -----------------------------------------------------------------------------------

  /** An item as a queue call leaves it, and what the call returned. */
  datatype Built = Built(stage: Stage, mem: Memory, rv: int)

  function FileItem(blkLen: nat, input: bool): Built {
    if input then Built(Stage(Source, 0, blkLen, FileInput(blkLen)), [], 0)
    else Built(Stage(Sink, blkLen, 0, FileOutput()), [], 0)
  }

  function ConvertItem(reg: Registry, fmt: FormatDesc, from: bool): Built
    requires fmt.codecType in reg.codecs
  {
    var canon := reg.CanonLen(fmt);
    if from then Built(Stage(Processing, canon, fmt.frameLen, Convert(fmt.fromCanon)), [], 0)
    else Built(Stage(Processing, fmt.frameLen, canon, Convert(fmt.toCanon)), [], 0)
  }

  /** An item that a failing call left behind untouched. */
  const BLANK: Stage := Stage(Source, 0, 0, NoProc)

  function CodecItem(reg: Registry, codec: CodecDesc, enc: bool): Built
    requires CODEC_PCM in reg.codecs
  {
    var pcm := reg.codecs[CODEC_PCM].canonLen;
    var mem := if codec.init.Some? && codec.init.value.Some? then codec.init.value.value else [];
    var format := if enc then codec.encFormat else codec.decFormat;
    var coder := if enc then codec.encode else codec.decode;
    var proc := if coder.Some? then Code(coder.value) else NoProc;
    if codec.init.Some? && codec.init.value.None? then Built(BLANK, [], EINVAL)
    else if format !in reg.formats then Built(BLANK, mem, EINVAL)
    else
      var len := reg.formats[format].frameLen;
      Built(if enc then Stage(Processing, pcm, len, proc) else Stage(Processing, len, pcm, proc), mem,
            if coder.None? then ENOTSUP else 0)
  }

  ghost predicate Building(q: Queue)
    reads q, q.items
  {
    q.Valid() && forall i :: 0 <= i < |q.items| ==> q.items[i].buf == null
  }

  function StagesIn(bs: seq<Built>): (s: seq<Stage>)
    ensures |s| == |bs| && forall i :: 0 <= i < |bs| ==> s[i] == bs[i].stage
  {
    seq(|bs|, i requires 0 <= i < |bs| => bs[i].stage)
  }

  function MemoriesIn(bs: seq<Built>): (m: seq<Memory>)
    ensures |m| == |bs| && forall i :: 0 <= i < |bs| ==> m[i] == bs[i].mem
  {
    seq(|bs|, i requires 0 <= i < |bs| => bs[i].mem)
  }

  /** The queue consists of these items. */
  ghost predicate Queued(q: Queue, bs: seq<Built>)
    reads q, q.items
  {
    && Building(q) && |q.items| == |bs|
    && forall i :: 0 <= i < |bs| ==> q.items[i].sig == bs[i].stage && q.items[i].state == bs[i].mem
  }

  /** `pq_queue_file_op` */
  method QueueFileOp(q: Queue, blkLen: nat, input: bool, ghost bs: seq<Built>) returns (rv: int)
    requires Queued(q, bs)
    modifies q
    ensures rv == 0 && Queued(q, bs + [FileItem(blkLen, input)])
    ensures var item := q.items[|bs|];
      && item.sig == (if input then Stage(Source, 0, blkLen, FileInput(blkLen))
                      else Stage(Sink, blkLen, 0, FileOutput()))
      && item.state == []
    ensures forall x :: x in q.items ==> x in old(q.items) || fresh(x)
  {
    var item := q.AddItem();
    item.sig := item.sig.(kind := if input then Source else Sink);
    item.sig := item.sig.(lenIn := if input then 0 else blkLen, lenOut := if input then blkLen else 0);
    item.sig := item.sig.(proc := if input then FileInput(blkLen) else FileOutput());
    return 0;
  }

  /** `osmo_gapk_pq_queue_fmt_convert`: nothing is added for a format whose codec is unknown. */
  method QueueFmtConvert(
    q: Queue, reg: Registry, fmt: FormatDesc, from: bool, ghost bs: seq<Built>) returns (rv: int)
    requires Queued(q, bs)
    modifies q
    ensures if fmt.codecType in reg.codecs then rv == 0 && Queued(q, bs + [ConvertItem(reg, fmt, from)])
            else rv == -22 && q.items == old(q.items) && Queued(q, bs)
    ensures fmt.codecType in reg.codecs ==>
      var item, n := q.items[|bs|], reg.codecs[fmt.codecType].canonLen;
      && item.sig == (if from then Stage(Processing, n, fmt.frameLen, Convert(fmt.fromCanon))
                      else Stage(Processing, fmt.frameLen, n, Convert(fmt.toCanon)))
      && item.state == []
    ensures forall x :: x in q.items ==> x in old(q.items) || fresh(x)
  {
    if fmt.codecType !in reg.codecs {
      return EINVAL;
    }
    var codec := reg.codecs[fmt.codecType];
    var item := q.AddItem();
    if from {
      item.sig := item.sig.(lenIn := codec.canonLen, lenOut := fmt.frameLen, proc := Convert(fmt.fromCanon));
    } else {
      item.sig := item.sig.(lenIn := fmt.frameLen, lenOut := codec.canonLen, proc := Convert(fmt.toCanon));
    }
    item.sig := item.sig.(kind := Processing);
    return 0;
  }

  /** `osmo_gapk_pq_queue_codec`: the item is added first, so that a failing call leaves it in the queue. */
  method QueueCodec(q: Queue, reg: Registry, codec: CodecDesc, enc: bool, ghost bs: seq<Built>) returns (rv: int)
    requires Queued(q, bs) && CODEC_PCM in reg.codecs
    modifies q
    ensures rv == CodecItem(reg, codec, enc).rv && Queued(q, bs + [CodecItem(reg, codec, enc)])
    ensures codec.init == Some(None) ==> rv == -22 && q.items[|bs|].sig == Stage(Source, 0, 0, NoProc)
    ensures codec.init.Some? && codec.init.value.Some? ==> q.items[|bs|].state == codec.init.value.value
    ensures codec.init.None? ==> q.items[|bs|].state == []
    ensures codec.init != Some(None) && (if enc then codec.encFormat else codec.decFormat) !in reg.formats ==>
      rv == -22 && q.items[|bs|].sig == Stage(Source, 0, 0, NoProc)
    ensures codec.init != Some(None) && enc && codec.encFormat in reg.formats ==>
      var pcm, len := reg.codecs[CODEC_PCM].canonLen, reg.formats[codec.encFormat].frameLen;
      && q.items[|bs|].sig
         == Stage(Processing, pcm, len, if codec.encode.Some? then Code(codec.encode.value) else NoProc)
      && rv == if codec.encode.Some? then 0 else -95
    ensures codec.init != Some(None) && !enc && codec.decFormat in reg.formats ==>
      var pcm, len := reg.codecs[CODEC_PCM].canonLen, reg.formats[codec.decFormat].frameLen;
      && q.items[|bs|].sig
         == Stage(Processing, len, pcm, if codec.decode.Some? then Code(codec.decode.value) else NoProc)
      && rv == if codec.decode.Some? then 0 else -95
    ensures forall x :: x in q.items ==> x in old(q.items) || fresh(x)
  {
    var item := q.AddItem();
    if codec.init.Some? {
      if codec.init.value.None? {
        return EINVAL;
      }
      item.state := codec.init.value.value;
    }
    var pcm := reg.codecs[CODEC_PCM];
    var coder: Option<Coder>;
    if enc {
      if codec.encFormat !in reg.formats {
        return EINVAL;
      }
      item.sig := item.sig.(lenIn := pcm.canonLen, lenOut := reg.formats[codec.encFormat].frameLen);
      coder := codec.encode;
    } else {
      if codec.decFormat !in reg.formats {
        return EINVAL;
      }
      item.sig := item.sig.(lenIn := reg.formats[codec.decFormat].frameLen, lenOut := pcm.canonLen);
      coder := codec.decode;
    }
    item.sig := item.sig.(proc := if coder.Some? then Code(coder.value) else NoProc, kind := Processing);
    return if coder.None? then ENOTSUP else 0;
  }

  // --- make_processing_chain -------------------------------------------------------------------------------

  /** Both formats of a request come from the registry. */
  ghost predicate Request(reg: Registry, fin: FormatDesc, fout: FormatDesc) {
    reg.Consistent() && reg.Has(fin) && reg.Has(fout)
  }

  /** From the input format to PCM, or else to canonical form; `None` if the decoder's format is unknown. */
  function InputSide(reg: Registry, fin: FormatDesc, fout: FormatDesc): Option<seq<Built>>
    requires fin.codecType in reg.codecs && CODEC_PCM in reg.codecs
    requires forall t :: t in reg.formats ==> reg.formats[t].codecType in reg.codecs
  {
    if NeedsDecoder(fin, fout) then
      var codec := reg.Codec(fin);
      if fin.ftype == codec.decFormat then Some([CodecItem(reg, codec, false)])
      else if codec.decFormat !in reg.formats then None
      else
        Some([ConvertItem(reg, fin, false), ConvertItem(reg, reg.formats[codec.decFormat], true),
              CodecItem(reg, codec, false)])
    else if fin.ftype != fout.ftype then Some([ConvertItem(reg, fin, false)])
    else Some([])
  }

  /** From PCM or canonical form to the output format. */
  function OutputSide(reg: Registry, fin: FormatDesc, fout: FormatDesc): Option<seq<Built>>
    requires fout.codecType in reg.codecs && CODEC_PCM in reg.codecs
    requires forall t :: t in reg.formats ==> reg.formats[t].codecType in reg.codecs
  {
    if NeedsEncoder(fin, fout) then
      var codec := reg.Codec(fout);
      if fout.ftype == codec.encFormat then Some([CodecItem(reg, codec, true)])
      else if codec.encFormat !in reg.formats then None
      else
        Some([CodecItem(reg, codec, true), ConvertItem(reg, reg.formats[codec.encFormat], false),
              ConvertItem(reg, fout, true)])
    else if fin.ftype != fout.ftype then Some([ConvertItem(reg, fout, true)])
    else Some([])
  }

  ghost function Compile(reg: Registry, fin: FormatDesc, fout: FormatDesc): Option<seq<Built>>
    requires Request(reg, fin, fout)
  {
    var i, o := InputSide(reg, fin, fout), OutputSide(reg, fin, fout);
    if i.None? || o.None? then None
    else Some([FileItem(fin.frameLen, true)] + i.value + o.value + [FileItem(fout.frameLen, false)])
  }

  /** "Decoding to PCM?"; the results of the queue calls are not looked at. */
  method QueueInputSide(
    q: Queue, reg: Registry, fin: FormatDesc, fout: FormatDesc, ghost bs: seq<Built>) returns (rv: int)
    requires Request(reg, fin, fout) && Queued(q, bs)
    modifies q
    ensures InputSide(reg, fin, fout).None? ==> rv == EINVAL
    ensures forall x :: x in q.items ==> x in old(q.items) || fresh(x)
    ensures InputSide(reg, fin, fout).Some? ==> rv == 0 && Queued(q, bs + InputSide(reg, fin, fout).value)
  {
    var codec := reg.codecs[fin.codecType];
    if fin.codecType != CODEC_PCM && fin.codecType != fout.codecType {
      if fin.ftype != codec.decFormat {
        if codec.decFormat !in reg.formats {
          return EINVAL;
        }
        var fmtDec := reg.formats[codec.decFormat];
        var a := QueueFmtConvert(q, reg, fin, false, bs);
        ghost var bs1 := bs + [ConvertItem(reg, fin, false)];
        var b := QueueFmtConvert(q, reg, fmtDec, true, bs1);
        ghost var bs2 := bs1 + [ConvertItem(reg, fmtDec, true)];
        var c := QueueCodec(q, reg, codec, false, bs2);
        assert bs2 + [CodecItem(reg, codec, false)] == bs + InputSide(reg, fin, fout).value;
      } else {
        var c := QueueCodec(q, reg, codec, false, bs);
      }
    } else if fin.ftype != fout.ftype {
      var a := QueueFmtConvert(q, reg, fin, false, bs);
    } else {
      assert bs + [] == bs;
    }
    return 0;
  }

  /** "Encoding from PCM?" */
  method QueueOutputSide(
    q: Queue, reg: Registry, fin: FormatDesc, fout: FormatDesc, ghost bs: seq<Built>) returns (rv: int)
    requires Request(reg, fin, fout) && Queued(q, bs)
    modifies q
    ensures OutputSide(reg, fin, fout).None? ==> rv == EINVAL
    ensures forall x :: x in q.items ==> x in old(q.items) || fresh(x)
    ensures OutputSide(reg, fin, fout).Some? ==> rv == 0 && Queued(q, bs + OutputSide(reg, fin, fout).value)
  {
    var codec := reg.codecs[fout.codecType];
    if fout.codecType != CODEC_PCM && fout.codecType != fin.codecType {
      var a := QueueCodec(q, reg, codec, true, bs);
      ghost var bs1 := bs + [CodecItem(reg, codec, true)];
      if fout.ftype != codec.encFormat {
        if codec.encFormat !in reg.formats {
          return EINVAL;
        }
        var fmtEnc := reg.formats[codec.encFormat];
        var b := QueueFmtConvert(q, reg, fmtEnc, false, bs1);
        ghost var bs2 := bs1 + [ConvertItem(reg, fmtEnc, false)];
        var c := QueueFmtConvert(q, reg, fout, true, bs2);
        assert bs2 + [ConvertItem(reg, fout, true)] == bs + OutputSide(reg, fin, fout).value;
      }
    } else if fin.ftype != fout.ftype {
      var a := QueueFmtConvert(q, reg, fout, true, bs);
    } else {
      assert bs + [] == bs;
    }
    return 0;
  }

  /** `make_processing_chain` with a file at both ends. */
  method MakeProcessingChain(q: Queue, reg: Registry, fin: FormatDesc, fout: FormatDesc) returns (rv: int)
    requires Request(reg, fin, fout) && Queued(q, [])
    modifies q
    ensures Compile(reg, fin, fout).None? ==> rv == EINVAL
    ensures forall x :: x in q.items ==> x in old(q.items) || fresh(x)
    ensures var c := Compile(reg, fin, fout); c.Some? ==>
      Queued(q, c.value) && rv == if Checked(StagesIn(c.value), true) then 0 else EINVAL
  {
    ghost var bs := [FileItem(fin.frameLen, true)];
    rv := QueueFileOp(q, fin.frameLen, true, []);
    assert [] + bs == bs;
    rv := QueueBothSides(q, reg, fin, fout);
    if rv != 0 {
      return;
    }
    bs := bs + InputSide(reg, fin, fout).value + OutputSide(reg, fin, fout).value;
    rv := QueueFileOp(q, fout.frameLen, false, bs);
    bs := bs + [FileItem(fout.frameLen, false)];
    rv := q.Check(true);
    assert q.Stages() == StagesIn(bs);
  }

  /** Everything between the source and the sink. */
  method QueueBothSides(q: Queue, reg: Registry, fin: FormatDesc, fout: FormatDesc) returns (rv: int)
    requires Request(reg, fin, fout) && Queued(q, [FileItem(fin.frameLen, true)])
    modifies q
    ensures Compile(reg, fin, fout).None? ==> rv == EINVAL
    ensures forall x :: x in q.items ==> x in old(q.items) || fresh(x)
    ensures Compile(reg, fin, fout).Some? ==> rv == 0
    ensures Compile(reg, fin, fout).Some? ==>
      Queued(q, [FileItem(fin.frameLen, true)] + InputSide(reg, fin, fout).value + OutputSide(reg, fin, fout).value)
  {
    ghost var bs := [FileItem(fin.frameLen, true)];
    rv := QueueInputSide(q, reg, fin, fout, bs);
    if rv != 0 {
      return;
    }
    bs := bs + InputSide(reg, fin, fout).value;
    rv := QueueOutputSide(q, reg, fin, fout, bs);
  }
}
