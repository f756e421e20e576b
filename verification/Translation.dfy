/**
 What a conversion means: `Transform` composes converters and coders for one frame, `Translate` runs over a
 file.  A compiled chain computes the first on every pass, and `run` the second.
 */
module Translation {
  import opened Bits
  import opened Procqueue
  import opened Pipeline
  import opened ChainTyping
  import BitFields

  // --- The meaning of a request -----------------------------------------------------------------------------

  /** A frame of format `a` as a frame of format `b` of the same codec. */
  function Recode(a: FormatDesc, b: FormatDesc, x: seq<byte>): Ret {
    if a.ftype == b.ftype then Done(x)
    else match a.toCanon(x) case Done(canon) => b.fromCanon(canon) case other => other
  }

  /** The codecs that transcoding needs can do it. */
  predicate Supported(reg: Registry, fin: FormatDesc, fout: FormatDesc) {
    fin.codecType != fout.codecType ==>
      && (fin.codecType != CODEC_PCM ==>
            fin.codecType in reg.codecs && reg.Codec(fin).decode.Some? && reg.Codec(fin).decFormat in reg.formats)
      && (fout.codecType != CODEC_PCM ==>
            fout.codecType in reg.codecs && reg.Codec(fout).encode.Some? && reg.Codec(fout).encFormat in reg.formats)
  }

  /** A frame as PCM samples, by way of the decoder with memory `mem`. */
  function ToPcm(reg: Registry, f: FormatDesc, mem: Memory, x: seq<byte>): Answer
    requires f.codecType != CODEC_PCM ==>
      f.codecType in reg.codecs && reg.Codec(f).decode.Some? && reg.Codec(f).decFormat in reg.formats
  {
    if f.codecType == CODEC_PCM then Answer(mem, f.toCanon(x))
    else
      match Recode(f, reg.formats[reg.Codec(f).decFormat], x)
      case Done(y) => reg.Codec(f).decode.value(mem, y)
      case other => Answer(mem, other)
  }

  /** PCM samples as a frame, by way of the encoder with memory `mem`. */
  function FromPcm(reg: Registry, f: FormatDesc, mem: Memory, pcm: seq<byte>): Answer
    requires f.codecType != CODEC_PCM ==>
      f.codecType in reg.codecs && reg.Codec(f).encode.Some? && reg.Codec(f).encFormat in reg.formats
  {
    if f.codecType == CODEC_PCM then Answer(mem, f.fromCanon(pcm))
    else
      var a := reg.Codec(f).encode.value(mem, pcm);
      match a.ret
      case Done(z) => Answer(a.mem, Recode(reg.formats[reg.Codec(f).encFormat], f, z))
      case _ => a
  }

  /** The memories of the decoder and the encoder in use. */
  datatype Coders = Coders(dec: Memory, enc: Memory)

  datatype Transformed = Transformed(coders: Coders, ret: Ret)

  /** One frame through the whole conversion. */
  function Transform(reg: Registry, fin: FormatDesc, fout: FormatDesc, c: Coders, x: seq<byte>): Transformed
    requires Supported(reg, fin, fout)
  {
    if fin.codecType == fout.codecType then Transformed(c, Recode(fin, fout, x))
    else
      var d := ToPcm(reg, fin, c.dec, x);
      if !d.ret.Done? then Transformed(c.(dec := d.mem), d.ret)
      else
        var e := FromPcm(reg, fout, c.enc, d.ret.out);
        Transformed(Coders(d.mem, e.mem), e.ret)
  }

  /** Within one codec: nothing happens to a frame of the same type, any other goes through canonical form once. */
  lemma Recodes(
    reg: Registry, fin: FormatDesc, fout: FormatDesc, c: Coders, x: seq<byte>, u: seq<byte>, y: seq<byte>)
    requires fin.codecType == fout.codecType
    ensures fin.ftype == fout.ftype ==> Transform(reg, fin, fout, c, x) == Transformed(c, Done(x))
    ensures fin.ftype != fout.ftype && fin.toCanon(x) == Done(u) && fout.fromCanon(u) == Done(y) ==>
      Transform(reg, fin, fout, c, x) == Transformed(c, Done(y))
  {
  }

  /**
   Between codecs, step by step: to canonical form, from there to the decoder's format, through the decoder to
   `pcm`, through the encoder, from its format to canonical form, and from there to `y`; each conversion is
   left out where the types coincide, and decoder and encoder where that side is PCM.
   */
  lemma Transcodes(
    reg: Registry, fin: FormatDesc, fout: FormatDesc, c: Coders, x: seq<byte>,
    u: seq<byte>, v: seq<byte>, pcm: seq<byte>, md: Memory,
    e: seq<byte>, w: seq<byte>, me: Memory, y: seq<byte>)
    requires Supported(reg, fin, fout) && fin.codecType != fout.codecType
    requires fin.codecType == 1 ==> fin.toCanon(x) == Done(pcm) && md == c.dec
    requires fin.codecType != 1 ==>
      var codec := reg.codecs[fin.codecType];
      && (if fin.ftype == codec.decFormat then v == x
          else fin.toCanon(x) == Done(u) && reg.formats[codec.decFormat].fromCanon(u) == Done(v))
      && reg.formats[codec.decFormat].ftype == codec.decFormat
      && codec.decode.value(c.dec, v) == Answer(md, Done(pcm))
    requires fout.codecType == 1 ==> fout.fromCanon(pcm) == Done(y) && me == c.enc
    requires fout.codecType != 1 ==>
      var codec := reg.codecs[fout.codecType];
      && codec.encode.value(c.enc, pcm) == Answer(me, Done(e))
      && reg.formats[codec.encFormat].ftype == codec.encFormat
      && (if fout.ftype == codec.encFormat then y == e
          else reg.formats[codec.encFormat].toCanon(e) == Done(w) && fout.fromCanon(w) == Done(y))
    ensures Transform(reg, fin, fout, c, x) == Transformed(Coders(md, me), Done(y))
  {
  }

  // --- Passes by parts ----------------------------------------------------------------------------------------

  /** What a stretch of the queue makes of a frame. */
  datatype Flow = Flow(ret: Ret, mems: seq<Memory>, io: Io)

  function RunPart(part: seq<Stage>, mems: seq<Memory>, frame: seq<byte>, io: Io): (r: Flow)
    requires |part| == |mems|
    ensures |r.mems| == |mems|
  {
    if part == [] then Flow(Done(frame), [], io)
    else
      var e := Apply(part[0].proc, mems[0], frame, io);
      if !e.ret.Done? then Flow(e.ret, [e.mem] + mems[1..], e.io)
      else
        var r := RunPart(part[1..], mems[1..], e.ret.out, e.io);
        Flow(r.ret, [e.mem] + r.mems, r.io)
  }

  function AndThen(r: Flow, b: seq<Stage>, mems: seq<Memory>): Flow
    requires |b| == |mems|
  {
    if !r.ret.Done? then Flow(r.ret, r.mems + mems, r.io)
    else
      var s := RunPart(b, mems, r.ret.out, r.io);
      Flow(s.ret, r.mems + s.mems, s.io)
  }

  lemma {:induction false} RunAppend(
    a: seq<Stage>, b: seq<Stage>, ma: seq<Memory>, mb: seq<Memory>, frame: seq<byte>, io: Io)
    requires |a| == |ma| && |b| == |mb|
    ensures RunPart(a + b, ma + mb, frame, io) == AndThen(RunPart(a, ma, frame, io), b, mb)
  {
    if a == [] {
      assert a + b == b && ma + mb == mb;
    } else {
      assert (a + b)[1..] == a[1..] + b && (ma + mb)[1..] == ma[1..] + mb;
      var e := Apply(a[0].proc, ma[0], frame, io);
      if e.ret.Done? {
        var r := RunPart(a[1..], ma[1..], e.ret.out, e.io);
        RunAppend(a[1..], b, ma[1..], mb, e.ret.out, e.io);
        var after := AndThen(r, b, mb).mems[|r.mems|..];
        assert [e.mem] + (r.mems + after) == ([e.mem] + r.mems) + after;
      } else {
        assert [e.mem] + (ma[1..] + mb) == ([e.mem] + ma[1..]) + mb;
      }
    }
  }

  /** The pass of the queue is the flow through all of it. */
  lemma {:induction false} ExecFlows(stages: seq<Stage>, mems: seq<Memory>, i: nat, frame: seq<byte>, io: Io)
    requires i <= |stages| == |mems|
    ensures var p := Exec(stages, mems, i, frame, io); var r := RunPart(stages[i..], mems[i..], frame, io);
      && p.mems == mems[..i] + r.mems && p.io == r.io
      && p.rv == (if r.ret.Error? then r.ret.rv else 0) && p.crashed == r.ret.Abort?
    decreases |stages| - i
  {
    if i == |stages| {
    } else {
      var e := Apply(stages[i].proc, mems[i], frame, io);
      var next := mems[i := e.mem];
      assert stages[i..][1..] == stages[i + 1..] && mems[i..][1..] == mems[i + 1..] == next[i + 1..];
      if e.ret.Done? {
        ExecFlows(stages, next, i + 1, e.ret.out, e.io);
        assert next[..i + 1] == mems[..i] + [e.mem];
      } else {
        assert next == mems[..i] + ([e.mem] + mems[i + 1..]);
      }
    }
  }

  lemma Run1(s: Stage, m: Memory, frame: seq<byte>, io: Io)
    ensures var e := Apply(s.proc, m, frame, io); RunPart([s], [m], frame, io) == Flow(e.ret, [e.mem], e.io)
  {
    assert [s][1..] == [] && [m][1..] == [];
  }

  /** Two conversions in a row are a recoding and leave everything else alone. */
  lemma RunRecode(a: Stage, b: Stage, x: FormatDesc, y: FormatDesc, frame: seq<byte>, io: Io)
    requires a.proc == Convert(x.toCanon) && b.proc == Convert(y.fromCanon) && x.ftype != y.ftype
    ensures RunPart([a, b], [[], []], frame, io) == Flow(Recode(x, y, frame), [[], []], io)
  {
    var none: seq<Memory> := [[], []];
    assert [a, b][1..] == [b] && none[1..] == [[]];
    match x.toCanon(frame)
    case Done(canon) =>
      Run1(b, [], canon, io);
    case _ =>
  }

  // --- The compiled chain -------------------------------------------------------------------------------------

  /** Memories of the input side when the decoder's is `dec`. */
  ghost function InMems(reg: Registry, fin: FormatDesc, fout: FormatDesc, dec: Memory): (m: seq<Memory>)
    requires Request(reg, fin, fout)
  {
    if NeedsDecoder(fin, fout) then (if fin.ftype == reg.Codec(fin).decFormat then [dec] else [[], [], dec])
    else if fin.ftype != fout.ftype then [[]] else []
  }

  ghost function OutMems(reg: Registry, fin: FormatDesc, fout: FormatDesc, enc: Memory): (m: seq<Memory>)
    requires Request(reg, fin, fout)
  {
    if NeedsEncoder(fin, fout) then (if fout.ftype == reg.Codec(fout).encFormat then [enc] else [enc, [], []])
    else if fin.ftype != fout.ftype then [[]] else []
  }

  ghost function ChainMems(reg: Registry, fin: FormatDesc, fout: FormatDesc, c: Coders): (m: seq<Memory>)
    requires Request(reg, fin, fout)
  {
    [[]] + InMems(reg, fin, fout, c.dec) + OutMems(reg, fin, fout, c.enc) + [[]]
  }

  /** What the input side is for. */
  function FirstHalf(reg: Registry, fin: FormatDesc, fout: FormatDesc, dec: Memory, x: seq<byte>): Answer
    requires Supported(reg, fin, fout)
  {
    if fin.codecType != fout.codecType then ToPcm(reg, fin, dec, x)
    else Answer(dec, if fin.ftype != fout.ftype then fin.toCanon(x) else Done(x))
  }

  function SecondHalf(reg: Registry, fin: FormatDesc, fout: FormatDesc, enc: Memory, m: seq<byte>): Answer
    requires Supported(reg, fin, fout)
  {
    if fin.codecType != fout.codecType then FromPcm(reg, fout, enc, m)
    else Answer(enc, if fin.ftype != fout.ftype then fout.fromCanon(m) else Done(m))
  }

  lemma DecodeFlow(reg: Registry, fin: FormatDesc, fout: FormatDesc, dec: Memory, x: seq<byte>, io: Io)
    requires Request(reg, fin, fout) && Supported(reg, fin, fout) && NeedsDecoder(fin, fout)
    requires InputSide(reg, fin, fout).Some? && AllQueued(InputSide(reg, fin, fout).value)
    ensures var i := StagesIn(InputSide(reg, fin, fout).value); var d := ToPcm(reg, fin, dec, x);
      |i| == |InMems(reg, fin, fout, dec)|
      && RunPart(i, InMems(reg, fin, fout, dec), x, io) == Flow(d.ret, InMems(reg, fin, fout, d.mem), io)
  {
    var codec, bs := reg.Codec(fin), InputSide(reg, fin, fout).value;
    var i, coder := StagesIn(bs), CodecItem(reg, codec, false);
    assert bs[|bs| - 1] == coder;
    assert coder.stage.proc == Code(codec.decode.value);
    if |bs| == 1 {
      assert i == [coder.stage];
      Run1(coder.stage, dec, x, io);
    } else {
      var fmt := reg.formats[codec.decFormat];
      assert i == [i[0], i[1]] + [coder.stage];
      RunRecode(i[0], i[1], fin, fmt, x, io);
      RunAppend([i[0], i[1]], [coder.stage], [[], []], [dec], x, io);
      match Recode(fin, fmt, x)
      case Done(y) =>
        Run1(coder.stage, dec, y, io);
      case _ =>
    }
  }

  lemma EncodeFlow(reg: Registry, fin: FormatDesc, fout: FormatDesc, enc: Memory, pcm: seq<byte>, io: Io)
    requires Request(reg, fin, fout) && Supported(reg, fin, fout) && NeedsEncoder(fin, fout)
    requires OutputSide(reg, fin, fout).Some? && AllQueued(OutputSide(reg, fin, fout).value)
    ensures var o := StagesIn(OutputSide(reg, fin, fout).value); var e := FromPcm(reg, fout, enc, pcm);
      |o| == |OutMems(reg, fin, fout, enc)|
      && RunPart(o, OutMems(reg, fin, fout, enc), pcm, io) == Flow(e.ret, OutMems(reg, fin, fout, e.mem), io)
  {
    var codec, bs := reg.Codec(fout), OutputSide(reg, fin, fout).value;
    var o, coder := StagesIn(bs), CodecItem(reg, codec, true);
    assert bs[0] == coder;
    assert coder.stage.proc == Code(codec.encode.value);
    Run1(coder.stage, enc, pcm, io);
    if |bs| == 1 {
      assert o == [coder.stage];
    } else {
      var fmt := reg.formats[codec.encFormat];
      assert o == [coder.stage] + [o[1], o[2]];
      RunAppend([coder.stage], [o[1], o[2]], [enc], [[], []], pcm, io);
      var a := codec.encode.value(enc, pcm);
      match a.ret
      case Done(z) =>
        RunRecode(o[1], o[2], fmt, fout, z, io);
      case _ =>
    }
  }

  lemma InputFlow(reg: Registry, fin: FormatDesc, fout: FormatDesc, dec: Memory, x: seq<byte>, io: Io)
    requires Request(reg, fin, fout) && Supported(reg, fin, fout)
    requires InputSide(reg, fin, fout).Some? && AllQueued(InputSide(reg, fin, fout).value)
    ensures var i := StagesIn(InputSide(reg, fin, fout).value); var d := FirstHalf(reg, fin, fout, dec, x);
      |i| == |InMems(reg, fin, fout, dec)|
      && RunPart(i, InMems(reg, fin, fout, dec), x, io) == Flow(d.ret, InMems(reg, fin, fout, d.mem), io)
  {
    var i := StagesIn(InputSide(reg, fin, fout).value);
    if NeedsDecoder(fin, fout) {
      DecodeFlow(reg, fin, fout, dec, x, io);
    } else if fin.ftype != fout.ftype {
      assert i == [i[0]];
      Run1(i[0], [], x, io);
    }
  }

  lemma OutputFlow(reg: Registry, fin: FormatDesc, fout: FormatDesc, enc: Memory, m: seq<byte>, io: Io)
    requires Request(reg, fin, fout) && Supported(reg, fin, fout)
    requires OutputSide(reg, fin, fout).Some? && AllQueued(OutputSide(reg, fin, fout).value)
    ensures var o := StagesIn(OutputSide(reg, fin, fout).value); var e := SecondHalf(reg, fin, fout, enc, m);
      |o| == |OutMems(reg, fin, fout, enc)|
      && RunPart(o, OutMems(reg, fin, fout, enc), m, io) == Flow(e.ret, OutMems(reg, fin, fout, e.mem), io)
  {
    var o := StagesIn(OutputSide(reg, fin, fout).value);
    if NeedsEncoder(fin, fout) {
      EncodeFlow(reg, fin, fout, enc, m, io);
    } else if fin.ftype != fout.ftype {
      assert o == [o[0]];
      Run1(o[0], [], m, io);
    }
  }

  /** The two halves make up the transformation. */
  lemma Halves(reg: Registry, fin: FormatDesc, fout: FormatDesc, c: Coders, x: seq<byte>)
    requires Supported(reg, fin, fout)
    ensures var t := Transform(reg, fin, fout, c, x); var d := FirstHalf(reg, fin, fout, c.dec, x);
      if !d.ret.Done? then t == Transformed(c.(dec := d.mem), d.ret)
      else var e := SecondHalf(reg, fin, fout, c.enc, d.ret.out); t == Transformed(Coders(d.mem, e.mem), e.ret)
  {
  }

  /** Both sides in a row compute the transformation and touch no file. */
  lemma SidesTransform(reg: Registry, fin: FormatDesc, fout: FormatDesc, c: Coders, x: seq<byte>, io: Io)
    requires Request(reg, fin, fout) && Supported(reg, fin, fout)
    requires Compile(reg, fin, fout).Some?
    requires AllQueued(InputSide(reg, fin, fout).value) && AllQueued(OutputSide(reg, fin, fout).value)
    ensures var i, o := StagesIn(InputSide(reg, fin, fout).value), StagesIn(OutputSide(reg, fin, fout).value);
      var t := Transform(reg, fin, fout, c, x);
      && |i| == |InMems(reg, fin, fout, c.dec)| && |o| == |OutMems(reg, fin, fout, c.enc)|
      && RunPart(i + o, InMems(reg, fin, fout, c.dec) + OutMems(reg, fin, fout, c.enc), x, io)
         == Flow(t.ret, InMems(reg, fin, fout, t.coders.dec) + OutMems(reg, fin, fout, t.coders.enc), io)
  {
    var i, o := StagesIn(InputSide(reg, fin, fout).value), StagesIn(OutputSide(reg, fin, fout).value);
    var d := FirstHalf(reg, fin, fout, c.dec, x);
    InputFlow(reg, fin, fout, c.dec, x, io);
    OutputFlow(reg, fin, fout, c.enc, [], io);
    Halves(reg, fin, fout, c, x);
    RunAppend(i, o, InMems(reg, fin, fout, c.dec), OutMems(reg, fin, fout, c.enc), x, io);
    if d.ret.Done? {
      OutputFlow(reg, fin, fout, c.enc, d.ret.out, io);
    }
  }

  /** What one pass does: read a block, transform it, write the result. */
  datatype Meant = Meant(rv: int, coders: Coders, io: Io, crashed: bool)

  function PassMeans(reg: Registry, fin: FormatDesc, fout: FormatDesc, c: Coders, io: Io): Meant
    requires Supported(reg, fin, fout)
  {
    var n := fin.frameLen;
    if !(0 < n <= |io.input|) then Meant(-1, c, io.(input := if n == 0 then io.input else []), false)
    else
      var t, rest := Transform(reg, fin, fout, c, io.input[..n]), io.(input := io.input[n..]);
      match t.ret
      case Done(out) =>
        if out == [] then Meant(-1, t.coders, rest, false)
        else Meant(0, t.coders, rest.(output := io.output + out), false)
      case Error(rv) => Meant(rv, t.coders, rest, false)
      case Abort => Meant(0, t.coders, rest, true)
  }

  lemma SinkFlow(r: Flow, len: nat)
    ensures var s := AndThen(r, [FileItem(len, false).stage], [[]]);
      && s.mems == r.mems + [[]]
      && (r.ret.Done? && r.ret.out != [] ==> s.ret == Done([]) && s.io == r.io.(output := r.io.output + r.ret.out))
      && (r.ret.Done? && r.ret.out == [] ==> s.ret == Error(-1) && s.io == r.io)
      && (!r.ret.Done? ==> s.ret == r.ret && s.io == r.io)
  {
    if r.ret.Done? {
      Run1(FileItem(len, false).stage, [], r.ret.out, r.io);
    }
  }

  /**
   Compiler correctness: one pass of the chain that was built for a request reads one block, computes
   exactly the requested transformation of it, and writes the result; for every file, every format pair
   and every state of the coders.
   */
  lemma CompilerCorrect(reg: Registry, fin: FormatDesc, fout: FormatDesc, c: Coders, io: Io)
    requires Request(reg, fin, fout) && Supported(reg, fin, fout)
    requires Compile(reg, fin, fout).Some? && AllQueued(Compile(reg, fin, fout).value)
    ensures var all := StagesIn(Compile(reg, fin, fout).value); var m := PassMeans(reg, fin, fout, c, io);
      |all| == |ChainMems(reg, fin, fout, c)|
      && Exec(all, ChainMems(reg, fin, fout, c), 0, [], io)
          == Pass(m.rv, ChainMems(reg, fin, fout, m.coders), m.io, m.crashed)
  {
    var i, o := InputSide(reg, fin, fout).value, OutputSide(reg, fin, fout).value;
    var source, sink := FileItem(fin.frameLen, true), FileItem(fout.frameLen, false);
    Parts(source, i, o, sink);
    RegroupBuilt(source, i, o, sink);
    MiddlePass(reg, fin, fout, c, io);
    MemsRegroup(reg, fin, fout, c);
    MemsRegroup(reg, fin, fout, PassMeans(reg, fin, fout, c, io).coders);
  }

  ghost function MiddleMems(reg: Registry, fin: FormatDesc, fout: FormatDesc, c: Coders): seq<Memory>
    requires Request(reg, fin, fout)
  {
    InMems(reg, fin, fout, c.dec) + OutMems(reg, fin, fout, c.enc)
  }

  lemma MemsRegroup(reg: Registry, fin: FormatDesc, fout: FormatDesc, c: Coders)
    requires Request(reg, fin, fout)
    ensures ChainMems(reg, fin, fout, c) == [[]] + (MiddleMems(reg, fin, fout, c) + [[]])
  {
    Regroup([], InMems(reg, fin, fout, c.dec), OutMems(reg, fin, fout, c.enc), []);
  }

  /** The same with both sides taken as one stretch between source and sink. */
  lemma MiddlePass(reg: Registry, fin: FormatDesc, fout: FormatDesc, c: Coders, io: Io)
    requires Request(reg, fin, fout) && Supported(reg, fin, fout)
    requires Compile(reg, fin, fout).Some?
    requires AllQueued(InputSide(reg, fin, fout).value) && AllQueued(OutputSide(reg, fin, fout).value)
    ensures var sides := StagesIn(InputSide(reg, fin, fout).value) + StagesIn(OutputSide(reg, fin, fout).value);
      var m := PassMeans(reg, fin, fout, c, io);
      |sides| == |MiddleMems(reg, fin, fout, c)|
      && Exec([FileItem(fin.frameLen, true).stage] + (sides + [FileItem(fout.frameLen, false).stage]),
              [[]] + (MiddleMems(reg, fin, fout, c) + [[]]), 0, [], io)
         == Pass(m.rv, [[]] + (MiddleMems(reg, fin, fout, m.coders) + [[]]), m.io, m.crashed)
  {
    var sides := StagesIn(InputSide(reg, fin, fout).value) + StagesIn(OutputSide(reg, fin, fout).value);
    var source, sink := FileItem(fin.frameLen, true).stage, FileItem(fout.frameLen, false).stage;
    SidesTransform(reg, fin, fout, c, [], io);
    ThreeParts(source, sides, sink, MiddleMems(reg, fin, fout, c), io);
    var e := Apply(source.proc, [], [], io);
    if e.ret.Done? {
      SidesTransform(reg, fin, fout, c, e.ret.out, e.io);
      var t := Transform(reg, fin, fout, c, e.ret.out);
      SinkFlow(Flow(t.ret, MiddleMems(reg, fin, fout, t.coders), e.io), fout.frameLen);
    }
  }

  lemma Regroup<T>(a: T, i: seq<T>, o: seq<T>, z: T)
    ensures [a] + i + o + [z] == [a] + (i + o + [z])
  {
  }

  lemma RegroupBuilt(a: Built, i: seq<Built>, o: seq<Built>, z: Built)
    ensures StagesIn([a] + i + o + [z]) == [a.stage] + (StagesIn(i) + StagesIn(o) + [z.stage])
  {
    Parts(a, i, o, z);
    assert StagesIn(i) + StagesIn(o) + [z.stage] == StagesIn(i) + (StagesIn(o) + [z.stage]);
  }

  /** A pass over a source, a stretch without memory of files, and a sink. */
  lemma ThreeParts(source: Stage, sides: seq<Stage>, sink: Stage, mems: seq<Memory>, io: Io)
    requires |sides| == |mems|
    ensures var p := Exec([source] + (sides + [sink]), [[]] + (mems + [[]]), 0, [], io);
      var e := Apply(source.proc, [], [], io);
      var r := if e.ret.Done? then AndThen(RunPart(sides, mems, e.ret.out, e.io), [sink], [[]])
               else Flow(e.ret, mems + [[]], e.io);
      p == Pass(if r.ret.Error? then r.ret.rv else 0, [e.mem] + r.mems, r.io, r.ret.Abort?)
  {
    var all, allMems: seq<Memory> := [source] + (sides + [sink]), [[]] + (mems + [[]]);
    ExecFlows(all, allMems, 0, [], io);
    assert all[0..] == all && allMems[0..] == allMems;
    RunAppend([source], sides + [sink], [[]], mems + [[]], [], io);
    Run1(source, [], [], io);
    var e := Apply(source.proc, [], [], io);
    if e.ret.Done? {
      RunAppend(sides, [sink], mems, [[]], e.ret.out, e.io);
    }
  }

  /** A pass in full, for a block that becomes `y`: it is read, `y` is written, and the coders have moved on. */
  lemma PassWrites(
    reg: Registry, fin: FormatDesc, fout: FormatDesc, c: Coders, io: Io, next: Coders, y: seq<byte>)
    requires Request(reg, fin, fout) && Supported(reg, fin, fout)
    requires Compile(reg, fin, fout).Some? && AllQueued(Compile(reg, fin, fout).value)
    requires 0 < fin.frameLen <= |io.input| && y != []
    requires Transform(reg, fin, fout, c, io.input[..fin.frameLen]) == Transformed(next, Done(y))
    ensures |Compile(reg, fin, fout).value| == |ChainMems(reg, fin, fout, c)|
    ensures Exec(StagesIn(Compile(reg, fin, fout).value), ChainMems(reg, fin, fout, c), 0, [], io)
            == Pass(0, ChainMems(reg, fin, fout, next), Io(io.input[fin.frameLen..], io.output + y), false)
  {
    CompilerCorrect(reg, fin, fout, c, io);
  }

  /**
   A file without a complete block becomes nothing; one that starts with block `x`, for `x` becoming `y`, becomes
   `y` followed by what the rest becomes, with the coders where they then are.
   */
  lemma TranslateFrames(
    reg: Registry, fin: FormatDesc, fout: FormatDesc, c: Coders, x: seq<byte>, rest: seq<byte>,
    next: Coders, y: seq<byte>)
    requires Supported(reg, fin, fout) && |x| == fin.frameLen > 0
    ensures |rest| < fin.frameLen ==> Translate(reg, fin, fout, c, rest) == Translated(0, [], -1)
    ensures Transform(reg, fin, fout, c, x) == Transformed(next, Done(y)) && y != [] ==>
      var r := Translate(reg, fin, fout, next, rest);
      Translate(reg, fin, fout, c, x + rest) == Translated(r.count + 1, y + r.output, r.rv)
  {
    assert (x + rest)[..|x|] == x && (x + rest)[|x|..] == rest;
  }

  /** The state that the initialisation of a codec returned; none without an initialisation. */
  function InitialState(codec: CodecDesc): Memory {
    match codec.init
    case Some(Some(m)) => m
    case _ => []
  }

  /** Decoder and encoder each start with the state of their codec, whatever the queue calls do with it. */
  ghost function InitialCoders(reg: Registry, fin: FormatDesc, fout: FormatDesc): Coders
    requires Request(reg, fin, fout)
  {
    Coders(InitialState(reg.Codec(fin)), InitialState(reg.Codec(fout)))
  }

  lemma InitialMems(reg: Registry, fin: FormatDesc, fout: FormatDesc)
    requires Request(reg, fin, fout) && Compile(reg, fin, fout).Some?
    ensures MemoriesIn(Compile(reg, fin, fout).value) == ChainMems(reg, fin, fout, InitialCoders(reg, fin, fout))
  {
    var i, o := InputSide(reg, fin, fout).value, OutputSide(reg, fin, fout).value;
    var c := InitialCoders(reg, fin, fout);
    assert MemoriesIn(i) == InMems(reg, fin, fout, c.dec);
    assert MemoriesIn(o) == OutMems(reg, fin, fout, c.enc);
    MemoryParts(FileItem(fin.frameLen, true), i, o, FileItem(fout.frameLen, false));
  }

  lemma MemoriesAppend(x: seq<Built>, y: seq<Built>)
    ensures MemoriesIn(x + y) == MemoriesIn(x) + MemoriesIn(y)
  {
  }

  lemma MemoryParts(a: Built, i: seq<Built>, o: seq<Built>, z: Built)
    ensures MemoriesIn([a] + i + o + [z]) == [a.mem] + MemoriesIn(i) + MemoriesIn(o) + [z.mem]
  {
    MemoriesAppend([a] + i + o, [z]);
    MemoriesAppend([a] + i, o);
    MemoriesAppend([a], i);
    assert MemoriesIn([a]) == [a.mem] && MemoriesIn([z]) == [z.mem];
  }

  /** A request that passes `check_options` and whose calls all succeed is supported. */
  lemma QueuedSupported(reg: Registry, fin: FormatDesc, fout: FormatDesc)
    requires Request(reg, fin, fout) && CheckTranscoding(reg, fin, fout) == 0
    requires Compile(reg, fin, fout).Some? && AllQueued(Compile(reg, fin, fout).value)
    ensures Supported(reg, fin, fout)
  {
    var i, o := InputSide(reg, fin, fout).value, OutputSide(reg, fin, fout).value;
    Parts(FileItem(fin.frameLen, true), i, o, FileItem(fout.frameLen, false));
    if NeedsDecoder(fin, fout) {
      assert i[|i| - 1] == CodecItem(reg, reg.Codec(fin), false);
    }
    if NeedsEncoder(fin, fout) {
      assert o[0] == CodecItem(reg, reg.Codec(fout), true);
    }
  }

  // --- Whole files --------------------------------------------------------------------------------------------

  /** Number of frames converted, everything written, and what ended the run. */
  datatype Translated = Translated(count: nat, output: seq<byte>, rv: int)

  /** Block after block, until one fails or the file holds no complete block any more. */
  function Translate(reg: Registry, fin: FormatDesc, fout: FormatDesc, c: Coders, input: seq<byte>): Translated
    requires Supported(reg, fin, fout)
    decreases |input|
  {
    var n := fin.frameLen;
    if !(0 < n <= |input|) then Translated(0, [], -1)
    else
      var t := Transform(reg, fin, fout, c, input[..n]);
      match t.ret
      case Done(out) =>
        if out == [] then Translated(0, [], -1)
        else
          var r := Translate(reg, fin, fout, t.coders, input[n..]);
          Translated(r.count + 1, out + r.output, r.rv)
      case Error(rv) => Translated(0, [], rv)
      case Abort => Translated(0, [], 0)
  }

  /**
   The whole run of a complete chain, from any state and on any file: the output file grows by exactly the
   translation of the input file, and the frame counter is the number of frames translated.
   */
  lemma {:induction false} RunTranslates(reg: Registry, fin: FormatDesc, fout: FormatDesc, c: Coders, io: Io)
    requires Request(reg, fin, fout) && Supported(reg, fin, fout)
    requires Compile(reg, fin, fout).Some? && AllQueued(Compile(reg, fin, fout).value)
    ensures var all := StagesIn(Compile(reg, fin, fout).value);
      FileChain(all) && |all| == |ChainMems(reg, fin, fout, c)|
    ensures var t := Translate(reg, fin, fout, c, io.input);
      var r := RunAll(StagesIn(Compile(reg, fin, fout).value), ChainMems(reg, fin, fout, c), io);
      r.frames == t.count && r.rv == t.rv && r.io.output == io.output + t.output
    decreases |io.input|
  {
    var all, mems := StagesIn(Compile(reg, fin, fout).value), ChainMems(reg, fin, fout, c);
    CompiledFileChain(reg, fin, fout);
    CompilerCorrect(reg, fin, fout, c, io);
    PassProgress(all, mems, io);
    var m := PassMeans(reg, fin, fout, c, io);
    if m.rv == 0 && !m.crashed {
      RunTranslates(reg, fin, fout, m.coders, m.io);
      OutputGrows(reg, fin, fout, c, io);
    }
  }

  /** A complete chain, run from where the queue calls left it. */
  lemma CompleteRun(reg: Registry, fin: FormatDesc, fout: FormatDesc, io: Io)
    requires Request(reg, fin, fout) && ChainAccepted(reg, fin, fout) && AllQueued(Compile(reg, fin, fout).value)
    ensures var bs := Compile(reg, fin, fout).value;
      && FileChain(StagesIn(bs)) && Supported(reg, fin, fout)
      && var t := Translate(reg, fin, fout, InitialCoders(reg, fin, fout), io.input);
      && var r := RunAll(StagesIn(bs), MemoriesIn(bs), io);
      && r.frames == t.count && r.rv == t.rv && r.io.output == io.output + t.output
  {
    QueuedSupported(reg, fin, fout);
    InitialMems(reg, fin, fout);
    RunTranslates(reg, fin, fout, InitialCoders(reg, fin, fout), io);
  }

  /** An accepted chain whose encoder is not lost is complete. */
  lemma AcceptedRun(reg: Registry, fin: FormatDesc, fout: FormatDesc, io: Io)
    requires Request(reg, fin, fout) && OwnFormats(reg, fin, fout) && PcmFixed(reg)
    requires ChainAccepted(reg, fin, fout) && !EncoderLost(reg, fin, fout)
    ensures var bs := Compile(reg, fin, fout).value;
      && AllQueued(bs) && FileChain(StagesIn(bs)) && Supported(reg, fin, fout)
      && var t := Translate(reg, fin, fout, InitialCoders(reg, fin, fout), io.input);
      && var r := RunAll(StagesIn(bs), MemoriesIn(bs), io);
      && r.frames == t.count && r.rv == t.rv && r.io.output == io.output + t.output
  {
    AcceptedIff(reg, fin, fout);
    CompleteRun(reg, fin, fout, io);
  }

  // --- The lost encoder ---------------------------------------------------------------------------------------

  lemma BlankAborts(stages: seq<Stage>, mems: seq<Memory>, frame: seq<byte>, io: Io)
    requires |stages| == |mems| && stages != [] && stages[0] == BLANK
    ensures RunPart(stages, mems, frame, io).ret == Abort
  {
  }

  /** A pass through `i` to a blank item crashes unless something on the way reports an error. */
  lemma BlankReachedIff(
    source: Stage, i: seq<Stage>, rest: seq<Stage>, ms: Memory, mi: seq<Memory>, mr: seq<Memory>, io: Io)
    requires |i| == |mi| && |rest| == |mr| && rest != [] && rest[0] == BLANK
    ensures var e := Apply(source.proc, ms, [], io);
      Exec([source] + (i + rest), [ms] + (mi + mr), 0, [], io).crashed
      <==> !e.ret.Error? && (e.ret.Done? ==> !RunPart(i, mi, e.ret.out, e.io).ret.Error?)
  {
    var all, mems := [source] + (i + rest), [ms] + (mi + mr);
    ExecFlows(all, mems, 0, [], io);
    assert all[0..] == all && mems[0..] == mems;
    RunAppend([source], i + rest, [ms], mi + mr, [], io);
    Run1(source, ms, [], io);
    var e := Apply(source.proc, ms, [], io);
    if e.ret.Done? {
      RunAppend(i, rest, mi, mr, e.ret.out, e.io);
      var r := RunPart(i, mi, e.ret.out, e.io);
      if r.ret.Done? {
        BlankAborts(rest, mr, r.ret.out, r.io);
      }
    }
  }

  lemma HeadMiddleRest<T>(s: seq<T>, n: nat)
    requires 1 <= n <= |s|
    ensures s == [s[0]] + (s[1..n] + s[n..])
  {
  }

  lemma LostEncoderBlank(reg: Registry, fin: FormatDesc, fout: FormatDesc)
    requires Request(reg, fin, fout) && OutputSide(reg, fin, fout).Some? && EncoderLost(reg, fin, fout)
    ensures var o := OutputSide(reg, fin, fout).value; o != [] && o[0].stage == BLANK
  {
  }

  /** The chain in three parts, the last of which starts with the blank item. */
  lemma LostEncoderShape(reg: Registry, fin: FormatDesc, fout: FormatDesc) returns (rest: seq<Stage>)
    requires Request(reg, fin, fout) && Compile(reg, fin, fout).Some? && EncoderLost(reg, fin, fout)
    ensures StagesIn(Compile(reg, fin, fout).value)
            == [FileItem(fin.frameLen, true).stage] + (StagesIn(InputSide(reg, fin, fout).value) + rest)
    ensures rest != [] && rest[0] == BLANK
  {
    var i, o := InputSide(reg, fin, fout).value, OutputSide(reg, fin, fout).value;
    var source, sink := FileItem(fin.frameLen, true), FileItem(fout.frameLen, false);
    Parts(source, i, o, sink);
    LostEncoderBlank(reg, fin, fout);
    rest := StagesIn(o) + [sink.stage];
    var all := StagesIn(Compile(reg, fin, fout).value);
    assert all == [all[0]] + all[1..];
  }

  /**
   When the encoder is lost, the chain is accepted, and a pass makes the program call a missing callback
   exactly if the file holds a block and the input side does not report an error on it.
   */
  lemma LostEncoderCrashes(reg: Registry, fin: FormatDesc, fout: FormatDesc, mems: seq<Memory>, io: Io)
    requires Request(reg, fin, fout) && OwnFormats(reg, fin, fout) && PcmFixed(reg)
    requires CheckTranscoding(reg, fin, fout) == 0 && Compile(reg, fin, fout).Some? && EncoderLost(reg, fin, fout)
    requires |mems| == |Compile(reg, fin, fout).value|
    ensures ChainAccepted(reg, fin, fout)
    ensures var i, n := StagesIn(InputSide(reg, fin, fout).value), fin.frameLen;
      Exec(StagesIn(Compile(reg, fin, fout).value), mems, 0, [], io).crashed
      <==> 0 < n <= |io.input|
           && !RunPart(i, mems[1..1 + |i|], io.input[..n], io.(input := io.input[n..])).ret.Error?
  {
    AcceptedIff(reg, fin, fout);
    var source, i := FileItem(fin.frameLen, true).stage, StagesIn(InputSide(reg, fin, fout).value);
    var rest := LostEncoderShape(reg, fin, fout);
    var n := 1 + |i|;
    HeadMiddleRest(mems, n);
    BlankReachedIff(source, i, rest, mems[0], mems[1..n], mems[n..], io);
  }

  /** A successful pass in terms of the translation. */
  lemma OutputGrows(reg: Registry, fin: FormatDesc, fout: FormatDesc, c: Coders, io: Io)
    requires Supported(reg, fin, fout)
    requires PassMeans(reg, fin, fout, c, io).rv == 0 && !PassMeans(reg, fin, fout, c, io).crashed
    ensures var m := PassMeans(reg, fin, fout, c, io);
      var t, r := Translate(reg, fin, fout, c, io.input), Translate(reg, fin, fout, m.coders, m.io.input);
      t.count == r.count + 1 && t.rv == r.rv && io.output + t.output == m.io.output + r.output
  {
  }

  lemma DivStep(a: nat, n: nat)
    requires 0 < n <= a
    ensures a / n == (a - n) / n + 1
  {
    var q, r := (a - n) / n, (a - n) % n;
    assert a - n == n * q + r;
    assert a == n * (q + 1) + r;
    DivUnique(a, n, q + 1, r);
  }

  lemma DivUnique(a: nat, n: nat, q: nat, r: nat)
    requires a == n * q + r && r < n
    ensures a / n == q
  {
    var d := q - a / n;
    assert n * q == n * (a / n) + n * d;
    BitFields.Times(n, d);
  }

  /** The coders after the first `k` blocks, and the fate of block `k`. */
  function CodersAt(reg: Registry, fin: FormatDesc, fout: FormatDesc, c: Coders, input: seq<byte>, k: nat): Coders
    requires Supported(reg, fin, fout)
    decreases k
  {
    if k == 0 || |input| < fin.frameLen then c
    else
      CodersAt(
        reg, fin, fout, Transform(reg, fin, fout, c, input[..fin.frameLen]).coders, input[fin.frameLen..], k - 1)
  }

  /** What is left of the input after `k` blocks. */
  function Drop(n: nat, input: seq<byte>, k: nat): seq<byte> {
    if k == 0 || |input| < n then input else Drop(n, input[n..], k - 1)
  }

  /** The number of complete blocks, counted off one by one. */
  function Whole(len: nat, n: nat): nat
    requires n > 0
  {
    if len < n then 0 else 1 + Whole(len - n, n)
  }

  lemma {:induction false} WholeIs(len: nat, n: nat)
    requires n > 0
    ensures Whole(len, n) == len / n
  {
    if len < n {
      DivUnique(len, n, 0, len);
    } else {
      WholeIs(len - n, n);
      DivStep(len, n);
    }
  }

  lemma {:induction false} DropIs(n: nat, input: seq<byte>, k: nat, at: nat)
    requires n > 0 && at == k * n && at <= |input|
    ensures Drop(n, input, k) == input[at..]
    decreases k
  {
    if k == 0 {
    } else {
      assert at == (k - 1) * n + n;
      assert |input| >= n by {
        BitFields.Times(n, k);
      }
      DropIs(n, input[n..], k - 1, at - n);
      assert input[n..][at - n..] == input[at..];
    }
  }

  lemma {:induction false} HowFarCounted(
    reg: Registry, fin: FormatDesc, fout: FormatDesc, c: Coders, input: seq<byte>)
    requires Supported(reg, fin, fout) && fin.frameLen > 0
    ensures var k := Translate(reg, fin, fout, c, input).count; var n := fin.frameLen;
      var rest := Drop(n, input, k);
      && k <= Whole(|input|, n)
      && (k < Whole(|input|, n) ==>
            n <= |rest| &&
            var ret := Transform(reg, fin, fout, CodersAt(reg, fin, fout, c, input, k), rest[..n]).ret;
            !ret.Done? || ret.out == [])
    decreases |input|
  {
    var n := fin.frameLen;
    if |input| < n {
    } else {
      var t := Transform(reg, fin, fout, c, input[..n]);
      if t.ret.Done? && t.ret.out != [] {
        HowFarCounted(reg, fin, fout, t.coders, input[n..]);
      }
    }
  }

  /**
   How far a run gets: no further than the complete blocks of the file, all of them unless one fails, and
   then exactly up to the first block that fails or yields nothing.
   */
  lemma HowFar(reg: Registry, fin: FormatDesc, fout: FormatDesc, c: Coders, input: seq<byte>)
    requires Supported(reg, fin, fout) && fin.frameLen > 0
    ensures var k := Translate(reg, fin, fout, c, input).count; var n := fin.frameLen;
      var rest := Drop(n, input, k);
      && k <= |input| / n
      && (k < |input| / n ==>
            n <= |rest| &&
            var ret := Transform(reg, fin, fout, CodersAt(reg, fin, fout, c, input, k), rest[..n]).ret;
            !ret.Done? || ret.out == [])
  {
    WholeIs(|input|, fin.frameLen);
    HowFarCounted(reg, fin, fout, c, input);
  }
}
