/**
 A recording sent over the network: one run of the program feeds its frames to the RTP sink, another takes
 them from the RTP source.
 */
module RtpLink {
  import opened Bits
  import opened Procqueue
  import opened Pipeline
  import opened ChainTyping
  import opened Translation
  import opened Conversions
  import opened FileDetours
  import opened Rtp

  /** The frames that a run hands to its sink, up to the first block that fails. */
  function Handed(reg: Registry, fin: FormatDesc, fout: FormatDesc, c: Coders, input: seq<byte>): seq<seq<byte>>
    requires Supported(reg, fin, fout)
    decreases |input|
  {
    var n := fin.frameLen;
    if !(0 < n <= |input|) then []
    else
      var t := Transform(reg, fin, fout, c, input[..n]);
      if t.ret.Done? then [t.ret.out] + Handed(reg, fin, fout, t.coders, input[n..]) else []
  }

  /** A run behind an RTP source: every accepted payload is a frame; the first rejected datagram ends it. */
  function Receive(reg: Registry, fin: FormatDesc, fout: FormatDesc, c: Coders, packets: seq<seq<byte>>): Translated
    requires Supported(reg, fin, fout)
    decreases |packets|
  {
    if packets == [] then Translated(0, [], -1)
    else
      match Parse(Received(fin.frameLen, packets[0]))
      case Rejected => Translated(0, [], -1)
      case Accepted(payload, _, _, _) =>
        var t := Transform(reg, fin, fout, c, payload);
        match t.ret
        case Done(out) =>
          if out == [] then Translated(0, [], -1)
          else
            var r := Receive(reg, fin, fout, t.coders, packets[1..]);
            Translated(r.count + 1, out + r.output, r.rv)
        case Error(rv) => Translated(0, [], rv)
        case Abort => Translated(0, [], 0)
  }

  /** The first rejected datagram ends the run: those from it on make no difference. */
  lemma {:induction false} RejectedEnds(
    reg: Registry, fin: FormatDesc, fout: FormatDesc, c: Coders, packets: seq<seq<byte>>, k: nat)
    requires Supported(reg, fin, fout) && k < |packets|
    requires Parse(Received(fin.frameLen, packets[k])).Rejected?
    ensures Receive(reg, fin, fout, c, packets) == Receive(reg, fin, fout, c, packets[..k])
    decreases k
  {
    if k == 0 {
    } else {
      assert packets[..k][1..] == packets[1..][..k - 1];
      match Parse(Received(fin.frameLen, packets[0]))
      case Rejected =>
      case Accepted(payload, _, _, _) =>
        RejectedEnds(reg, fin, fout, Transform(reg, fin, fout, c, payload).coders, packets[1..], k - 1);
    }
  }

  ghost predicate AllOfLength(frames: seq<seq<byte>>, n: nat) {
    forall i :: 0 <= i < |frames| ==> |frames[i]| == n
  }

  /** Each datagram is accepted with the frame of the same number as its payload. */
  ghost predicate Carries(packets: seq<seq<byte>>, frames: seq<seq<byte>>, blkLen: nat) {
    |packets| == |frames| && forall i :: 0 <= i < |packets| ==>
      var p := Parse(Received(blkLen, packets[i])); p.Accepted? && p.payload == frames[i]
  }

  /** What is sent to a source of the right block length arrives. */
  lemma StreamCarries(s: SenderState, frames: seq<seq<byte>>, blkLen: nat)
    requires s.Valid() && AllOfLength(frames, blkLen)
    ensures Carries(Stream(s, frames), frames, blkLen)
  {
    forall i | 0 <= i < |frames|
      ensures var p := Parse(Received(blkLen, Stream(s, frames)[i])); p.Accepted? && p.payload == frames[i]
    {
      StreamRoundTrip(s, frames, blkLen, i);
    }
  }

  lemma Unrolled(reg: Registry, fin: FormatDesc, fout: FormatDesc, c: Coders, frame: seq<byte>, rest: seq<byte>)
    requires Supported(reg, fin, fout) && |frame| == fin.frameLen > 0
    ensures var t := Transform(reg, fin, fout, c, frame); var all := Translate(reg, fin, fout, c, frame + rest);
      match t.ret
      case Done(out) =>
        if out == [] then all == Translated(0, [], -1)
        else var r := Translate(reg, fin, fout, t.coders, rest); all == Translated(r.count + 1, out + r.output, r.rv)
      case Error(rv) => all == Translated(0, [], rv)
      case Abort => all == Translated(0, [], 0)
  {
    assert (frame + rest)[..|frame|] == frame && (frame + rest)[|frame|..] == rest;
  }

  /** Receiving frames is translating the file that they make up. */
  lemma {:induction false} ReceiveTranslates(
    reg: Registry, fin: FormatDesc, fout: FormatDesc, c: Coders, packets: seq<seq<byte>>, frames: seq<seq<byte>>)
    requires Supported(reg, fin, fout) && fin.frameLen > 0
    requires Carries(packets, frames, fin.frameLen) && AllOfLength(frames, fin.frameLen)
    ensures Receive(reg, fin, fout, c, packets) == Translate(reg, fin, fout, c, Concat(frames))
    decreases |packets|
  {
    if packets == [] {
    } else {
      assert Parse(Received(fin.frameLen, packets[0])).payload == frames[0];
      Unrolled(reg, fin, fout, c, frames[0], Concat(frames[1..]));
      var t := Transform(reg, fin, fout, c, frames[0]);
      if t.ret.Done? {
        ReceiveTranslates(reg, fin, fout, t.coders, packets[1..], frames[1..]);
      }
    }
  }

  /** Without empty frames among them, the frames handed to an RTP sink make up the file of a run into a file. */
  lemma {:induction false} HandedIsOutput(
    reg: Registry, fin: FormatDesc, fout: FormatDesc, c: Coders, input: seq<byte>)
    requires Supported(reg, fin, fout) && fout.frameLen > 0
    requires AllOfLength(Handed(reg, fin, fout, c, input), fout.frameLen)
    ensures Concat(Handed(reg, fin, fout, c, input)) == Translate(reg, fin, fout, c, input).output
    ensures |Handed(reg, fin, fout, c, input)| == Translate(reg, fin, fout, c, input).count
    decreases |input|
  {
    var n, all := fin.frameLen, Handed(reg, fin, fout, c, input);
    if !(0 < n <= |input|) {
    } else {
      var t := Transform(reg, fin, fout, c, input[..n]);
      if t.ret.Done? {
        assert all[0] == t.ret.out && all[1..] == Handed(reg, fin, fout, t.coders, input[n..]);
        assert forall i :: 0 <= i < |all[1..]| ==> all[1..][i] == all[i + 1];
        HandedIsOutput(reg, fin, fout, t.coders, input[n..]);
      }
    }
  }

  /**
   The network is transparent: sending the frames of one run and receiving them in another gives what the
   second run makes of the file that the first would have written, for all codecs and all initial counters.
   */
  lemma LinkIsFile(
    reg: Registry, fin: FormatDesc, mid: FormatDesc, fout: FormatDesc, c: Coders, c': Coders, s: SenderState,
    input: seq<byte>)
    requires Supported(reg, fin, mid) && Supported(reg, mid, fout) && s.Valid() && mid.frameLen > 0
    requires AllOfLength(Handed(reg, fin, mid, c, input), mid.frameLen)
    ensures Receive(reg, mid, fout, c', Stream(s, Handed(reg, fin, mid, c, input)))
            == Translate(reg, mid, fout, c', Translate(reg, fin, mid, c, input).output)
  {
    var frames := Handed(reg, fin, mid, c, input);
    StreamCarries(s, frames, mid.frameLen);
    HandedIsOutput(reg, fin, mid, c, input);
    ReceiveTranslates(reg, mid, fout, c', Stream(s, frames), frames);
  }

  // --- When all frames have the declared length ---------------------------------------------------------

  lemma RecodeKinds(reg: Registry, fs: FrameKinds, a: FormatDesc, b: FormatDesc, x: seq<byte>)
    requires reg.Consistent() && SoundRegistry(reg, fs) && reg.Has(a) && reg.Has(b) && a.codecType == b.codecType
    requires fs.raw(a.ftype)(x)
    ensures Recode(a, b, x).Done? ==> fs.raw(b.ftype)(Recode(a, b, x).out)
  {
    assert SoundDesc(a, fs.raw(a.ftype), fs.canon(a.codecType));
    assert SoundDesc(b, fs.raw(b.ftype), fs.canon(b.codecType));
  }

  lemma ToPcmKinds(reg: Registry, fs: FrameKinds, f: FormatDesc, fout: FormatDesc, mem: Memory, x: seq<byte>)
    requires Request(reg, f, fout) && OwnFormats(reg, f, fout) && SoundRegistry(reg, fs) && Supported(reg, f, fout)
    requires f.codecType != fout.codecType && fs.raw(f.ftype)(x)
    ensures ToPcm(reg, f, mem, x).ret.Done? ==> fs.canon(CODEC_PCM)(ToPcm(reg, f, mem, x).ret.out)
  {
    assert SoundDesc(f, fs.raw(f.ftype), fs.canon(f.codecType));
    if f.codecType != CODEC_PCM {
      assert SoundCodec(reg, fs, reg.Codec(f));
      RecodeKinds(reg, fs, f, reg.formats[reg.Codec(f).decFormat], x);
    }
  }

  lemma FromPcmKinds(reg: Registry, fs: FrameKinds, fin: FormatDesc, f: FormatDesc, mem: Memory, pcm: seq<byte>)
    requires Request(reg, fin, f) && OwnFormats(reg, fin, f) && SoundRegistry(reg, fs) && Supported(reg, fin, f)
    requires fin.codecType != f.codecType && fs.canon(CODEC_PCM)(pcm)
    ensures FromPcm(reg, f, mem, pcm).ret.Done? ==> fs.raw(f.ftype)(FromPcm(reg, f, mem, pcm).ret.out)
  {
    assert SoundDesc(f, fs.raw(f.ftype), fs.canon(f.codecType));
    if f.codecType != CODEC_PCM {
      assert SoundCodec(reg, fs, reg.Codec(f));
      var a := reg.Codec(f).encode.value(mem, pcm);
      if a.ret.Done? {
        RecodeKinds(reg, fs, reg.formats[reg.Codec(f).encFormat], f, a.ret.out);
      }
    }
  }

  lemma TransformKinds(reg: Registry, fs: FrameKinds, fin: FormatDesc, fout: FormatDesc, c: Coders, x: seq<byte>)
    requires Request(reg, fin, fout) && OwnFormats(reg, fin, fout) && SoundRegistry(reg, fs)
    requires Supported(reg, fin, fout) && fs.raw(fin.ftype)(x)
    ensures var t := Transform(reg, fin, fout, c, x); t.ret.Done? ==> fs.raw(fout.ftype)(t.ret.out)
  {
    if fin.codecType == fout.codecType {
      RecodeKinds(reg, fs, fin, fout, x);
    } else {
      ToPcmKinds(reg, fs, fin, fout, c.dec, x);
      var d := ToPcm(reg, fin, c.dec, x);
      if d.ret.Done? {
        FromPcmKinds(reg, fs, fin, fout, c.enc, d.ret.out);
      }
    }
  }

  lemma TransformLength(reg: Registry, fs: FrameKinds, fin: FormatDesc, fout: FormatDesc, c: Coders, x: seq<byte>)
    requires Request(reg, fin, fout) && OwnFormats(reg, fin, fout) && SoundRegistry(reg, fs)
    requires Supported(reg, fin, fout) && 0 < |x| == fin.frameLen && fout.frameLen > 0
    ensures var t := Transform(reg, fin, fout, c, x); t.ret.Done? ==> |t.ret.out| == fout.frameLen
  {
    assert SoundDesc(fin, fs.raw(fin.ftype), fs.canon(fin.codecType));
    assert SoundDesc(fout, fs.raw(fout.ftype), fs.canon(fout.codecType));
    TransformKinds(reg, fs, fin, fout, c, x);
  }

  /** Whatever becomes of a block, if it becomes a frame, it is one of the declared length. */
  ghost predicate FixedOut(reg: Registry, fin: FormatDesc, fout: FormatDesc)
    requires Supported(reg, fin, fout)
  {
    forall c: Coders, x: seq<byte> :: 0 < |x| == fin.frameLen ==>
      var t := Transform(reg, fin, fout, c, x); t.ret.Done? ==> |t.ret.out| == fout.frameLen
  }

  lemma {:induction false} FixedHanded(
    reg: Registry, fin: FormatDesc, fout: FormatDesc, c: Coders, input: seq<byte>)
    requires Supported(reg, fin, fout) && FixedOut(reg, fin, fout)
    ensures AllOfLength(Handed(reg, fin, fout, c, input), fout.frameLen)
    decreases |input|
  {
    var n := fin.frameLen;
    if !(0 < n <= |input|) {
    } else {
      var t := Transform(reg, fin, fout, c, input[..n]);
      if t.ret.Done? {
        FixedHanded(reg, fin, fout, t.coders, input[n..]);
      }
    }
  }

  /** Sound converters and coders hand on frames of the declared length only. */
  lemma SoundHanded(reg: Registry, fs: FrameKinds, fin: FormatDesc, fout: FormatDesc, c: Coders, input: seq<byte>)
    requires Request(reg, fin, fout) && OwnFormats(reg, fin, fout) && SoundRegistry(reg, fs)
    requires Supported(reg, fin, fout) && fout.frameLen > 0
    ensures AllOfLength(Handed(reg, fin, fout, c, input), fout.frameLen)
  {
    forall c: Coders, x: seq<byte> | 0 < |x| == fin.frameLen
      ensures var t := Transform(reg, fin, fout, c, x); t.ret.Done? ==> |t.ret.out| == fout.frameLen
    {
      TransformLength(reg, fs, fin, fout, c, x);
    }
    FixedHanded(reg, fin, fout, c, input);
  }

  // --- Lossless formats -----------------------------------------------------------------------------------

  lemma {:induction false} ConvertedHanded(
    reg: Registry, fd: FormatDesc, gd: FormatDesc, c: Coders, h: seq<byte> -> seq<byte>, input: seq<byte>)
    requires Supported(reg, fd, gd) && fd.frameLen > 0 && Converted(reg, fd, gd, c, h, input)
    requires forall x: seq<byte> :: |x| == fd.frameLen ==> |h(x)| == gd.frameLen
    ensures AllOfLength(Handed(reg, fd, gd, c, input), gd.frameLen)
    decreases |input|
  {
    if |input| < fd.frameLen {
    } else {
      ConvertedHanded(reg, fd, gd, c, h, input[fd.frameLen..]);
    }
  }

  /**
   A recording in lossless format `f`, sent as `g` by one run and stored as `h` by another: what the second
   run writes behind its header is what one run from `f` to `h` would write.
   */
  lemma LinkIsDirect(
    reg: Registry, fd: FormatDesc, f: Format, gd: FormatDesc, g: Format, hd: FormatDesc, h: Format,
    n: nat, bits: nat, c: Coders, c': Coders, s: SenderState, input: seq<byte>)
    requires DetourGiven(reg, fd, f, gd, g, hd, h, n, bits, input) && fd.ftype != hd.ftype && s.Valid()
    ensures ConvertFile(reg, fd, hd, fd.header + input)
            == Some(hd.header + Receive(reg, gd, hd, c', Stream(s, Handed(reg, fd, gd, c, input))).output)
  {
    ReadableConverted(reg, fd, f, gd, g, n, bits, c, input);
    forall x: seq<byte> | |x| == f.frameLen ensures |FileDetours.Through(f, g)(x)| == g.frameLen {
      ThroughFrame(f, g, n, bits, x);
    }
    ConvertedHanded(reg, fd, gd, c, FileDetours.Through(f, g), input);
    LinkIsFile(reg, fd, gd, hd, c, c', s, input);
    RunMapsBlocks(reg, fd, f, gd, g, n, bits, c, input);
    WrittenReadable(f, gd, g, n, bits, input);
    RunMapsBlocks(reg, gd, g, hd, h, n, bits, c', Blocks(f.frameLen, FileDetours.Through(f, g), input));
    DetourBlocks(f, g, h, n, bits, input);
    OneRun(reg, fd, f, hd, h, n, bits, input);
  }
}
