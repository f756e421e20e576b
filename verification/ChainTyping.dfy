/**
 What `make_processing_chain` builds: when the strict check accepts it, and why it then never goes wrong.
 */
module ChainTyping {
  import opened Bits
  import opened Procqueue
  import opened Pipeline

  /** The length checks of a queue, front to back, behind an item that writes `len` bytes. */
  predicate Links(stages: seq<Stage>, len: nat) {
    stages != [] ==>
      (stages[0].lenIn != 0 ==> stages[0].lenIn == len) && Links(stages[1..], stages[0].lenOut)
  }

  function OutLen(stages: seq<Stage>, len: nat): nat {
    if stages == [] then len else stages[|stages| - 1].lenOut
  }

  lemma {:induction false} LinksAppend(a: seq<Stage>, b: seq<Stage>, len: nat)
    ensures Links(a + b, len) <==> Links(a, len) && Links(b, OutLen(a, len))
  {
    if a == [] {
      assert a + b == b;
    } else {
      assert (a + b)[1..] == a[1..] + b;
      LinksAppend(a[1..], b, a[0].lenOut);
    }
  }

  lemma {:induction false} LinksChecked(stages: seq<Stage>)
    requires stages != []
    ensures Links(stages[1..], stages[0].lenOut) <==> Checked(stages, false)
  {
    var rest := stages[1..];
    if rest == [] {
    } else {
      LinksChecked(rest);
      assert forall i :: 0 < i < |rest| ==> rest[i] == stages[i + 1];
      if Checked(rest, false) && (rest[0].lenIn != 0 ==> rest[0].lenIn == stages[0].lenOut) {
        forall i | 0 < i < |stages| && stages[i].lenIn != 0
          ensures stages[i].lenIn == stages[i - 1].lenOut
        {
          if i > 1 {
            assert rest[i - 1].lenIn == rest[i - 2].lenOut;
          }
        }
      }
      if Checked(stages, false) {
        forall i | 0 < i < |rest| && rest[i].lenIn != 0
          ensures rest[i].lenIn == rest[i - 1].lenOut
        {
          assert stages[i + 1].lenIn == stages[i].lenOut;
        }
      }
    }
  }

  /** Every queue call returned 0. */
  predicate AllQueued(bs: seq<Built>) {
    forall i :: 0 <= i < |bs| ==> bs[i].rv == 0
  }

  /** The formats that the two codecs work on are, as far as they are known, formats of these codecs. */
  ghost predicate OwnFormats(reg: Registry, fin: FormatDesc, fout: FormatDesc)
    requires Request(reg, fin, fout)
  {
    && (reg.Codec(fin).decFormat in reg.formats ==> reg.formats[reg.Codec(fin).decFormat].codecType == fin.codecType)
    && (reg.Codec(fout).encFormat in reg.formats ==> reg.formats[reg.Codec(fout).encFormat].codecType == fout.codecType)
  }

  /** PCM frames have a fixed length. */
  ghost predicate PcmFixed(reg: Registry) {
    CODEC_PCM in reg.codecs && reg.codecs[CODEC_PCM].canonLen != 0
  }

  /** The encoder cannot be set up, and what it should have written has no fixed length. */
  ghost predicate EncoderLost(reg: Registry, fin: FormatDesc, fout: FormatDesc)
    requires Request(reg, fin, fout)
  {
    var codec := reg.Codec(fout);
    && NeedsEncoder(fin, fout) && codec.init == Some(None)
    && codec.encFormat in reg.formats && reg.formats[codec.encFormat].frameLen == 0
  }

  /** The frame length half-way: PCM, canonical, or the format's own when nothing is to be done. */
  ghost function MidLen(reg: Registry, fin: FormatDesc, fout: FormatDesc): nat
    requires Request(reg, fin, fout)
  {
    if fin.codecType != fout.codecType then reg.codecs[CODEC_PCM].canonLen
    else if fin.ftype != fout.ftype then reg.CanonLen(fin)
    else fin.frameLen
  }

  lemma Links1(s: Stage, len: nat)
    ensures Links([s], len) <==> (s.lenIn != 0 ==> s.lenIn == len)
    ensures OutLen([s], len) == s.lenOut
  {
    assert [s][1..] == [];
  }

  lemma Links3(s: Stage, t: Stage, u: Stage, len: nat)
    ensures Links([s, t, u], len) <==>
      (s.lenIn != 0 ==> s.lenIn == len) && (t.lenIn != 0 ==> t.lenIn == s.lenOut)
          && (u.lenIn != 0 ==> u.lenIn == t.lenOut)
    ensures OutLen([s, t, u], len) == u.lenOut
  {
    assert [s, t, u][1..] == [t, u] && [t, u][1..] == [u];
    Links1(u, t.lenOut);
  }

  /** A failed codec call leaves a blank item, which passes its own check but hands on length 0. */
  lemma CodecItemIs(reg: Registry, codec: CodecDesc, enc: bool)
    requires CODEC_PCM in reg.codecs && (if enc then codec.encode.Some? else codec.decode.Some?)
    ensures var b := CodecItem(reg, codec, enc); var format := if enc then codec.encFormat else codec.decFormat;
      var pcm := reg.codecs[CODEC_PCM].canonLen;
      && (b.rv != 0 ==> b.stage == BLANK)
      && (b.rv == 0 ==>
            && format in reg.formats && b.stage.kind == Processing
            && b.stage.lenIn == (if enc then pcm else reg.formats[format].frameLen)
            && b.stage.lenOut == (if enc then reg.formats[format].frameLen else pcm))
  {
  }

  lemma InputSideLinks(reg: Registry, fin: FormatDesc, fout: FormatDesc)
    requires Request(reg, fin, fout) && OwnFormats(reg, fin, fout) && CheckTranscoding(reg, fin, fout) == 0
    requires InputSide(reg, fin, fout).Some?
    ensures var i := InputSide(reg, fin, fout).value;
      && Links(StagesIn(i), fin.frameLen)
      && (AllQueued(i) ==> OutLen(StagesIn(i), fin.frameLen) == MidLen(reg, fin, fout))
      && (!AllQueued(i) ==> NeedsDecoder(fin, fout) && OutLen(StagesIn(i), fin.frameLen) == 0)
  {
    var i := InputSide(reg, fin, fout).value;
    var s := StagesIn(i);
    if NeedsDecoder(fin, fout) {
      CodecItemIs(reg, reg.Codec(fin), false);
      if |i| == 1 {
        assert s == [i[0].stage];
        Links1(s[0], fin.frameLen);
      } else {
        assert s == [i[0].stage, i[1].stage, i[2].stage];
        Links3(s[0], s[1], s[2], fin.frameLen);
      }
    } else if fin.ftype != fout.ftype {
      assert s == [i[0].stage];
      Links1(s[0], fin.frameLen);
    } else {
      assert s == [];
    }
  }

  /** The output side behind an item that writes `len` bytes. */
  lemma OutputSideLinks(reg: Registry, fin: FormatDesc, fout: FormatDesc, len: nat)
    requires Request(reg, fin, fout) && OwnFormats(reg, fin, fout) && CheckTranscoding(reg, fin, fout) == 0
    requires OutputSide(reg, fin, fout).Some?
    ensures var o := OutputSide(reg, fin, fout).value;
      var links := Links(StagesIn(o) + [FileItem(fout.frameLen, false).stage], len);
      && (AllQueued(o) && len == MidLen(reg, fin, fout) ==> links)
      && (AllQueued(o) && len == 0 && PcmFixed(reg) && NeedsDecoder(fin, fout) ==> !links)
      && (!AllQueued(o) ==> (links <==> EncoderLost(reg, fin, fout)))
      && (EncoderLost(reg, fin, fout) ==> !AllQueued(o))
  {
    var o := OutputSide(reg, fin, fout).value;
    var s, sink := StagesIn(o), FileItem(fout.frameLen, false).stage;
    LinksAppend(s, [sink], len);
    Links1(sink, OutLen(s, len));
    if NeedsEncoder(fin, fout) {
      CodecItemIs(reg, reg.Codec(fout), true);
      assert o[0] == CodecItem(reg, reg.Codec(fout), true);
      if |o| == 1 {
        assert s == [o[0].stage];
        Links1(s[0], len);
      } else {
        assert s == [o[0].stage, o[1].stage, o[2].stage];
        Links3(s[0], s[1], s[2], len);
      }
    } else if fin.ftype != fout.ftype {
      assert s == [o[0].stage];
      Links1(s[0], len);
    } else {
      assert s == [];
    }
  }

  /**
   `make_processing_chain` ignores what the queue calls return.  Exactly one kind of failure escapes the
   strict check as well: that of an encoder whose own format has no fixed length.
   */
  lemma AcceptedIff(reg: Registry, fin: FormatDesc, fout: FormatDesc)
    requires Request(reg, fin, fout) && OwnFormats(reg, fin, fout) && PcmFixed(reg)
    requires CheckTranscoding(reg, fin, fout) == 0 && Compile(reg, fin, fout).Some?
    ensures var bs := Compile(reg, fin, fout).value;
      && (Checked(StagesIn(bs), true) <==> AllQueued(bs) || EncoderLost(reg, fin, fout))
      && !(AllQueued(bs) && EncoderLost(reg, fin, fout))
  {
    var i, o := InputSide(reg, fin, fout).value, OutputSide(reg, fin, fout).value;
    var source, sink := FileItem(fin.frameLen, true), FileItem(fout.frameLen, false);
    InputSideLinks(reg, fin, fout);
    OutputSideLinks(reg, fin, fout, OutLen(StagesIn(i), fin.frameLen));
    CheckedLinks(source, i, o, sink);
    Parts(source, i, o, sink);
  }

  /** The strict check of a chain, part by part. */
  lemma CheckedLinks(a: Built, i: seq<Built>, o: seq<Built>, z: Built)
    requires a.stage.kind == Source && z.stage.kind == Sink
    ensures Checked(StagesIn([a] + i + o + [z]), true) <==>
      && Links(StagesIn(i), a.stage.lenOut)
      && Links(StagesIn(o) + [z.stage], OutLen(StagesIn(i), a.stage.lenOut))
  {
    Parts(a, i, o, z);
    LinksAppend(StagesIn(i), StagesIn(o) + [z.stage], a.stage.lenOut);
    LinksChecked(StagesIn([a] + i + o + [z]));
  }

  /** No variable-length format or codec is involved. */
  ghost predicate FixedLength(reg: Registry, fin: FormatDesc, fout: FormatDesc)
    requires Request(reg, fin, fout)
  {
    && OwnFormats(reg, fin, fout) && PcmFixed(reg)
    && fin.frameLen != 0 && fout.frameLen != 0 && reg.CanonLen(fin) != 0 && reg.CanonLen(fout) != 0
    && (reg.Codec(fin).decFormat in reg.formats ==> reg.formats[reg.Codec(fin).decFormat].frameLen != 0)
    && (reg.Codec(fout).encFormat in reg.formats ==> reg.formats[reg.Codec(fout).encFormat].frameLen != 0)
  }

  /** For fixed-length formats the strict check accepts the finished queue exactly when every call succeeded. */
  lemma AcceptedIffQueued(reg: Registry, fin: FormatDesc, fout: FormatDesc)
    requires Request(reg, fin, fout) && FixedLength(reg, fin, fout) && CheckTranscoding(reg, fin, fout) == 0
    requires Compile(reg, fin, fout).Some?
    ensures var bs := Compile(reg, fin, fout).value; Checked(StagesIn(bs), true) <==> AllQueued(bs)
  {
    AcceptedIff(reg, fin, fout);
  }

  /** The strict check has accepted the chain for a request that `check_options` let through. */
  ghost predicate ChainAccepted(reg: Registry, fin: FormatDesc, fout: FormatDesc)
    requires Request(reg, fin, fout)
  {
    && CheckTranscoding(reg, fin, fout) == 0 && Compile(reg, fin, fout).Some?
    && Checked(StagesIn(Compile(reg, fin, fout).value), true)
  }

  /** The codec can be set up, can do what is asked of it, and its own format is known. */
  predicate CoderReady(reg: Registry, codec: CodecDesc, enc: bool) {
    && codec.init != Some(None)
    && (if enc then codec.encode.Some? else codec.decode.Some?)
    && (if enc then codec.encFormat else codec.decFormat) in reg.formats
  }

  /** The coders that the request calls for are ready; others do not matter. */
  ghost predicate CodersReady(reg: Registry, fin: FormatDesc, fout: FormatDesc)
    requires Request(reg, fin, fout)
  {
    && (NeedsDecoder(fin, fout) ==> CoderReady(reg, reg.Codec(fin), false))
    && (NeedsEncoder(fin, fout) ==> CoderReady(reg, reg.Codec(fout), true))
  }

  lemma CodecQueuedIff(reg: Registry, codec: CodecDesc, enc: bool)
    requires CODEC_PCM in reg.codecs
    ensures CodecItem(reg, codec, enc).rv == 0 <==> CoderReady(reg, codec, enc)
  {
  }

  lemma InputSideQueuedIff(reg: Registry, fin: FormatDesc, fout: FormatDesc)
    requires Request(reg, fin, fout)
    ensures InputSide(reg, fin, fout).Some? && AllQueued(InputSide(reg, fin, fout).value)
            <==> (NeedsDecoder(fin, fout) ==> CoderReady(reg, reg.Codec(fin), false))
  {
    CodecQueuedIff(reg, reg.Codec(fin), false);
    if InputSide(reg, fin, fout).Some? && NeedsDecoder(fin, fout) {
      var i := InputSide(reg, fin, fout).value;
      assert i[|i| - 1] == CodecItem(reg, reg.Codec(fin), false);
    }
  }

  lemma OutputSideQueuedIff(reg: Registry, fin: FormatDesc, fout: FormatDesc)
    requires Request(reg, fin, fout)
    ensures OutputSide(reg, fin, fout).Some? && AllQueued(OutputSide(reg, fin, fout).value)
            <==> (NeedsEncoder(fin, fout) ==> CoderReady(reg, reg.Codec(fout), true))
  {
    CodecQueuedIff(reg, reg.Codec(fout), true);
    if OutputSide(reg, fin, fout).Some? && NeedsEncoder(fin, fout) {
      var o := OutputSide(reg, fin, fout).value;
      assert o[0] == CodecItem(reg, reg.Codec(fout), true);
    }
  }

  /** A chain is complete exactly if the coders it needs are ready. */
  lemma QueuedIffReady(reg: Registry, fin: FormatDesc, fout: FormatDesc)
    requires Request(reg, fin, fout)
    ensures Compile(reg, fin, fout).Some? && AllQueued(Compile(reg, fin, fout).value) <==> CodersReady(reg, fin, fout)
  {
    InputSideQueuedIff(reg, fin, fout);
    OutputSideQueuedIff(reg, fin, fout);
    if Compile(reg, fin, fout).Some? {
      Parts(FileItem(fin.frameLen, true), InputSide(reg, fin, fout).value, OutputSide(reg, fin, fout).value,
            FileItem(fout.frameLen, false));
    }
  }

  lemma ReadyTranscoding(reg: Registry, fin: FormatDesc, fout: FormatDesc)
    requires Request(reg, fin, fout) && CodersReady(reg, fin, fout)
    ensures CheckTranscoding(reg, fin, fout) == 0
  {
  }

  /**
   What the whole request check amounts to: apart from the lost encoder, a request is accepted exactly if
   the coders that it needs are ready.  A conversion within one codec needs none.
   */
  lemma AcceptedIffReady(reg: Registry, fin: FormatDesc, fout: FormatDesc)
    requires Request(reg, fin, fout) && OwnFormats(reg, fin, fout) && PcmFixed(reg)
    ensures ChainAccepted(reg, fin, fout) && !EncoderLost(reg, fin, fout) <==> CodersReady(reg, fin, fout)
    ensures FixedLength(reg, fin, fout) ==> (ChainAccepted(reg, fin, fout) <==> CodersReady(reg, fin, fout))
  {
    QueuedIffReady(reg, fin, fout);
    if CodersReady(reg, fin, fout) {
      ReadyTranscoding(reg, fin, fout);
    }
    if CheckTranscoding(reg, fin, fout) == 0 && Compile(reg, fin, fout).Some? {
      AcceptedIff(reg, fin, fout);
    }
  }

  lemma StagesAppend(x: seq<Built>, y: seq<Built>)
    ensures StagesIn(x + y) == StagesIn(x) + StagesIn(y)
  {
  }

  lemma QueuedAppend(x: seq<Built>, y: seq<Built>)
    ensures AllQueued(x + y) <==> AllQueued(x) && AllQueued(y)
  {
    assert forall k :: 0 <= k < |y| ==> y[k] == (x + y)[|x| + k];
    assert forall k :: 0 <= k < |x| ==> x[k] == (x + y)[k];
  }

  lemma FirstAndLast<T>(a: T, i: seq<T>, o: seq<T>, z: T)
    ensures var all := [a] + i + o + [z];
      |all| == |i| + |o| + 2 && all[0] == a && all[|all| - 1] == z && all[1..] == i + (o + [z])
  {
  }

  lemma Parts(a: Built, i: seq<Built>, o: seq<Built>, z: Built)
    ensures var bs := [a] + i + o + [z]; var all := StagesIn(bs);
      && |all| == |i| + |o| + 2
      && all[0] == a.stage && all[|all| - 1] == z.stage && all[1..] == StagesIn(i) + (StagesIn(o) + [z.stage])
      && (AllQueued(bs) <==> a.rv == 0 && AllQueued(i) && AllQueued(o) && z.rv == 0)
  {
    StagesAppend([a] + i + o, [z]);
    StagesAppend([a] + i, o);
    StagesAppend([a], i);
    assert StagesIn([a]) == [a.stage] && StagesIn([z]) == [z.stage];
    FirstAndLast(a.stage, StagesIn(i), StagesIn(o), z.stage);
    QueuedAppend([a] + i + o, [z]);
    QueuedAppend([a] + i, o);
    QueuedAppend([a], i);
  }

  /** The smallest case of a lost encoder: the queue is accepted with no callback in it. */
  lemma VariableLengthUnchecked(reg: Registry, fin: FormatDesc, fout: FormatDesc)
    requires Request(reg, fin, fout) && fin.codecType == CODEC_PCM && NeedsEncoder(fin, fout)
    requires fout.frameLen == 0 && fout.ftype == reg.Codec(fout).encFormat && reg.Codec(fout).init == Some(None)
    ensures Compile(reg, fin, fout).Some?
    ensures var all := StagesIn(Compile(reg, fin, fout).value);
      Checked(all, true) && |all| == 4 && all[2].proc == NoProc
  {
    var bs := Compile(reg, fin, fout).value;
    assert bs == [FileItem(fin.frameLen, true), ConvertItem(reg, fin, false),
                  Built(BLANK, [], EINVAL), FileItem(fout.frameLen, false)];
  }

  // --- Runs of compiled chains ------------------------------------------------------------------------------

  ghost predicate LeaveInput(bs: seq<Built>) {
    forall i :: 0 <= i < |bs| ==> LeavesInput(bs[i].stage.proc)
  }

  lemma SidesLeaveInput(reg: Registry, fin: FormatDesc, fout: FormatDesc)
    requires Request(reg, fin, fout)
    ensures InputSide(reg, fin, fout).Some? ==> LeaveInput(InputSide(reg, fin, fout).value)
    ensures OutputSide(reg, fin, fout).Some? ==> LeaveInput(OutputSide(reg, fin, fout).value)
  {
  }

  /** Whatever the queue calls returned, only the first item of a chain reads the file. */
  lemma CompiledFileChain(reg: Registry, fin: FormatDesc, fout: FormatDesc)
    requires Request(reg, fin, fout) && Compile(reg, fin, fout).Some?
    ensures FileChain(StagesIn(Compile(reg, fin, fout).value))
  {
    var i, o := InputSide(reg, fin, fout).value, OutputSide(reg, fin, fout).value;
    var bs := Compile(reg, fin, fout).value;
    SidesLeaveInput(reg, fin, fout);
    forall k | 0 < k < |bs|
      ensures LeavesInput(StagesIn(bs)[k].proc)
    {
      if k <= |i| {
        assert bs[k] == i[k - 1];
      } else if k <= |i| + |o| {
        assert bs[k] == o[k - 1 - |i|];
      }
    }
  }

  // --- Type soundness of compiled chains ------------------------------------------------------------------

  /** Which frames are frames of a format, and which canonical frames are frames of a codec. */
  datatype FrameKinds = FrameKinds(raw: nat -> Kind, canon: nat -> Kind)

  /** Frames of kind `k` have length `len`, or fit the default buffer if that is variable. */
  ghost predicate Sized(k: Kind, len: nat) {
    forall x: seq<byte> :: k(x) ==> if len != 0 then |x| == len else |x| <= VAR_BUF_SIZE
  }

  /** A callback turns frames of kind `k` into frames of kind `k'` or reports an error. */
  ghost predicate Turns(f: seq<byte> -> Ret, k: Kind, k': Kind) {
    forall x: seq<byte> :: k(x) ==> f(x) != Abort && (f(x).Done? ==> k'(f(x).out))
  }

  /** The converters keep to the kinds, and if the length is fixed every frame of that length will do. */
  ghost predicate SoundDesc(f: FormatDesc, raw: Kind, canon: Kind) {
    && Sized(raw, f.frameLen) && (forall x: seq<byte> :: 0 < |x| == f.frameLen ==> raw(x))
    && Turns(f.fromCanon, canon, raw) && Turns(f.toCanon, raw, canon)
  }

  ghost predicate SoundCoder(c: Coder, k: Kind, k': Kind) {
    forall mem: Memory, x: seq<byte> :: k(x) ==>
      c(mem, x).ret != Abort && (c(mem, x).ret.Done? ==> k'(c(mem, x).ret.out))
  }

  ghost predicate SoundCodec(reg: Registry, fs: FrameKinds, c: CodecDesc) {
    && Sized(fs.canon(c.ctype), c.canonLen)
    && (c.encode.Some? && c.encFormat in reg.formats ==>
          SoundCoder(c.encode.value, fs.canon(CODEC_PCM), fs.raw(c.encFormat)))
    && (c.decode.Some? && c.decFormat in reg.formats ==>
          SoundCoder(c.decode.value, fs.raw(c.decFormat), fs.canon(CODEC_PCM)))
  }

  ghost predicate SoundRegistry(reg: Registry, fs: FrameKinds) {
    && (forall t :: t in reg.formats ==> SoundDesc(reg.formats[t], fs.raw(t), fs.canon(reg.formats[t].codecType)))
    && (forall t :: t in reg.codecs ==> SoundCodec(reg, fs, reg.codecs[t]))
  }

  lemma ConvertMaps(reg: Registry, fs: FrameKinds, f: FormatDesc, from: bool)
    requires reg.Consistent() && SoundRegistry(reg, fs) && reg.Has(f)
    ensures var raw, canon := fs.raw(f.ftype), fs.canon(f.codecType);
      Maps(ConvertItem(reg, f, from).stage, if from then canon else raw, if from then raw else canon)
  {
    assert SoundDesc(f, fs.raw(f.ftype), fs.canon(f.codecType));
    assert SoundCodec(reg, fs, reg.codecs[f.codecType]);
  }

  lemma CodecMaps(reg: Registry, fs: FrameKinds, codec: CodecDesc, enc: bool)
    requires reg.Consistent() && SoundRegistry(reg, fs) && codec.ctype in reg.codecs && reg.codecs[codec.ctype] == codec
    requires CodecItem(reg, codec, enc).rv == 0
    ensures var raw, pcm := fs.raw(if enc then codec.encFormat else codec.decFormat), fs.canon(CODEC_PCM);
      Maps(CodecItem(reg, codec, enc).stage, if enc then pcm else raw, if enc then raw else pcm)
  {
    var f := reg.formats[if enc then codec.encFormat else codec.decFormat];
    assert SoundDesc(f, fs.raw(f.ftype), fs.canon(f.codecType));
    assert SoundCodec(reg, fs, codec) && SoundCodec(reg, fs, reg.codecs[CODEC_PCM]);
  }

  /** The kind of frame between the two sides. */
  ghost function MidKind(fs: FrameKinds, fin: FormatDesc, fout: FormatDesc): Kind {
    if fin.codecType != fout.codecType then fs.canon(CODEC_PCM)
    else if fin.ftype != fout.ftype then fs.canon(fin.codecType)
    else fs.raw(fin.ftype)
  }

  ghost predicate FlowsTo(stages: seq<Stage>, kinds: seq<Kind>, start: Kind, end: Kind) {
    Flows(stages, kinds, start) && Handed(kinds, start, |kinds|) == end
  }

  lemma FlowsAppend(a: seq<Stage>, b: seq<Stage>, ka: seq<Kind>, kb: seq<Kind>, start: Kind, mid: Kind)
    requires FlowsTo(a, ka, start, mid) && Flows(b, kb, mid)
    ensures Flows(a + b, ka + kb, start) && Handed(ka + kb, start, |ka + kb|) == Handed(kb, mid, |kb|)
  {
    forall i | 0 <= i < |a + b|
      ensures Maps((a + b)[i], Handed(ka + kb, start, i), (ka + kb)[i])
    {
      if i < |a| {
        assert Maps(a[i], Handed(ka, start, i), ka[i]);
      } else {
        assert Maps(b[i - |a|], Handed(kb, mid, i - |a|), kb[i - |a|]);
      }
    }
  }

  lemma Flows1(s: Stage, k: Kind, start: Kind)
    requires Maps(s, start, k)
    ensures FlowsTo([s], [k], start, k)
  {
  }

  lemma Flows3(s: Stage, t: Stage, u: Stage, k: Kind, l: Kind, m: Kind, start: Kind)
    requires Maps(s, start, k) && Maps(t, k, l) && Maps(u, l, m)
    ensures FlowsTo([s, t, u], [k, l, m], start, m)
  {
  }

  lemma DecoderFlows(reg: Registry, fs: FrameKinds, fin: FormatDesc, fout: FormatDesc) returns (kinds: seq<Kind>)
    requires Request(reg, fin, fout) && OwnFormats(reg, fin, fout) && SoundRegistry(reg, fs) && NeedsDecoder(fin, fout)
    requires InputSide(reg, fin, fout).Some? && AllQueued(InputSide(reg, fin, fout).value)
    ensures FlowsTo(StagesIn(InputSide(reg, fin, fout).value), kinds, fs.raw(fin.ftype), fs.canon(CODEC_PCM))
  {
    var i, codec, canon := InputSide(reg, fin, fout).value, reg.Codec(fin), fs.canon(fin.codecType);
    var s, raw, pcm := StagesIn(i), fs.raw(fin.ftype), fs.canon(CODEC_PCM);
    assert i[|i| - 1] == CodecItem(reg, codec, false);
    CodecMaps(reg, fs, codec, false);
    if |i| == 1 {
      Flows1(s[0], pcm, raw);
      assert s == [s[0]];
      kinds := [pcm];
    } else {
      ConvertMaps(reg, fs, fin, false);
      ConvertMaps(reg, fs, reg.formats[codec.decFormat], true);
      Flows3(s[0], s[1], s[2], canon, fs.raw(codec.decFormat), pcm, raw);
      assert s == [s[0], s[1], s[2]];
      kinds := [canon, fs.raw(codec.decFormat), pcm];
    }
  }

  lemma InputSideFlows(reg: Registry, fs: FrameKinds, fin: FormatDesc, fout: FormatDesc) returns (kinds: seq<Kind>)
    requires Request(reg, fin, fout) && OwnFormats(reg, fin, fout) && SoundRegistry(reg, fs)
    requires InputSide(reg, fin, fout).Some? && AllQueued(InputSide(reg, fin, fout).value)
    ensures FlowsTo(StagesIn(InputSide(reg, fin, fout).value), kinds, fs.raw(fin.ftype), MidKind(fs, fin, fout))
  {
    var s := StagesIn(InputSide(reg, fin, fout).value);
    if NeedsDecoder(fin, fout) {
      kinds := DecoderFlows(reg, fs, fin, fout);
    } else if fin.ftype != fout.ftype {
      ConvertMaps(reg, fs, fin, false);
      Flows1(s[0], fs.canon(fin.codecType), fs.raw(fin.ftype));
      assert s == [s[0]];
      kinds := [fs.canon(fin.codecType)];
    } else {
      kinds := [];
    }
  }

  lemma EncoderFlows(reg: Registry, fs: FrameKinds, fin: FormatDesc, fout: FormatDesc) returns (kinds: seq<Kind>)
    requires Request(reg, fin, fout) && OwnFormats(reg, fin, fout) && SoundRegistry(reg, fs) && NeedsEncoder(fin, fout)
    requires OutputSide(reg, fin, fout).Some? && AllQueued(OutputSide(reg, fin, fout).value)
    ensures FlowsTo(StagesIn(OutputSide(reg, fin, fout).value), kinds, fs.canon(CODEC_PCM), fs.raw(fout.ftype))
  {
    var o, codec, canon := OutputSide(reg, fin, fout).value, reg.Codec(fout), fs.canon(fout.codecType);
    var s, raw, pcm := StagesIn(o), fs.raw(fout.ftype), fs.canon(CODEC_PCM);
    assert o[0] == CodecItem(reg, codec, true);
    CodecMaps(reg, fs, codec, true);
    if |o| == 1 {
      Flows1(s[0], raw, pcm);
      assert s == [s[0]];
      kinds := [raw];
    } else {
      ConvertMaps(reg, fs, fout, true);
      ConvertMaps(reg, fs, reg.formats[codec.encFormat], false);
      Flows3(s[0], s[1], s[2], fs.raw(codec.encFormat), canon, raw, pcm);
      assert s == [s[0], s[1], s[2]];
      kinds := [fs.raw(codec.encFormat), canon, raw];
    }
  }

  lemma OutputSideFlows(reg: Registry, fs: FrameKinds, fin: FormatDesc, fout: FormatDesc) returns (kinds: seq<Kind>)
    requires Request(reg, fin, fout) && OwnFormats(reg, fin, fout) && SoundRegistry(reg, fs)
    requires OutputSide(reg, fin, fout).Some? && AllQueued(OutputSide(reg, fin, fout).value)
    ensures FlowsTo(StagesIn(OutputSide(reg, fin, fout).value), kinds, MidKind(fs, fin, fout), fs.raw(fout.ftype))
  {
    var s := StagesIn(OutputSide(reg, fin, fout).value);
    if NeedsEncoder(fin, fout) {
      kinds := EncoderFlows(reg, fs, fin, fout);
    } else if fin.ftype != fout.ftype {
      ConvertMaps(reg, fs, fout, true);
      Flows1(s[0], fs.raw(fout.ftype), fs.canon(fout.codecType));
      assert s == [s[0]];
      kinds := [fs.raw(fout.ftype)];
    } else {
      kinds := [];
    }
  }

  function Anything(): Kind {
    x => true
  }

  lemma SinkMaps(reg: Registry, fs: FrameKinds, f: FormatDesc)
    requires reg.Consistent() && SoundRegistry(reg, fs) && reg.Has(f)
    ensures Flows([FileItem(f.frameLen, false).stage], [Anything()], fs.raw(f.ftype))
  {
    assert SoundDesc(f, fs.raw(f.ftype), fs.canon(f.codecType));
  }

  /** Kinds of frames can be followed through every complete chain, of fixed or variable length. */
  lemma CompiledTyped(reg: Registry, fs: FrameKinds, fin: FormatDesc, fout: FormatDesc) returns (kinds: seq<Kind>)
    requires Request(reg, fin, fout) && OwnFormats(reg, fin, fout) && SoundRegistry(reg, fs)
    requires Compile(reg, fin, fout).Some? && AllQueued(Compile(reg, fin, fout).value)
    ensures KindChain(StagesIn(Compile(reg, fin, fout).value), kinds, fs.raw(fin.ftype))
  {
    var i, o := InputSide(reg, fin, fout).value, OutputSide(reg, fin, fout).value;
    var source, sink := FileItem(fin.frameLen, true), FileItem(fout.frameLen, false);
    Parts(source, i, o, sink);
    var ki := InputSideFlows(reg, fs, fin, fout);
    var ko := OutputSideFlows(reg, fs, fin, fout);
    SinkMaps(reg, fs, fout);
    FlowsAppend(StagesIn(o), [sink.stage], ko, [Anything()], MidKind(fs, fin, fout), fs.raw(fout.ftype));
    FlowsAppend(StagesIn(i), StagesIn(o) + [sink.stage], ki, ko + [Anything()],
                fs.raw(fin.ftype), MidKind(fs, fin, fout));
    assert SoundDesc(fin, fs.raw(fin.ftype), fs.canon(fin.codecType));
    return ki + (ko + [Anything()]);
  }

  /**
   Type soundness of the compiler: unless its encoder is lost, a chain that the program accepts never calls
   a missing or aborting callback, hands every item exactly the bytes it asked for, and overruns no buffer,
   whatever the file holds and whatever state the codecs are in.
   */
  lemma CompiledChainSafe(
    reg: Registry, fs: FrameKinds, fin: FormatDesc, fout: FormatDesc, mems: seq<Memory>, io: Io)
    requires Request(reg, fin, fout) && OwnFormats(reg, fin, fout) && PcmFixed(reg) && SoundRegistry(reg, fs)
    requires ChainAccepted(reg, fin, fout) && !EncoderLost(reg, fin, fout)
    requires |mems| == |Compile(reg, fin, fout).value|
    ensures var all := StagesIn(Compile(reg, fin, fout).value);
      Safe(all, mems, 0, [], io) && !Exec(all, mems, 0, [], io).crashed && FileChain(all) && SafeRun(all, mems, io)
  {
    AcceptedIff(reg, fin, fout);
    var all := StagesIn(Compile(reg, fin, fout).value);
    var kinds := CompiledTyped(reg, fs, fin, fout);
    CompiledFileChain(reg, fin, fout);
    KindSoundness(all, kinds, fs.raw(fin.ftype), mems, io);
    KindRunSafe(all, kinds, fs.raw(fin.ftype), mems, io);
  }
}
