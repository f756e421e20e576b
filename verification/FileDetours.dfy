/**
 Files converted by successive runs of the program.  Between lossless formats of one codec it does not
 matter which other formats a recording has gone through.
 */
module FileDetours {
  import opened Bits
  import opened Procqueue
  import opened Pipeline
  import opened ChainTyping
  import opened Translation
  import opened Conversions

  /** The output file of one run of the program on `file`, or `None` if the header does not match. */
  ghost function ConvertFile(reg: Registry, fin: FormatDesc, fout: FormatDesc, file: seq<byte>): Option<seq<byte>>
    requires Request(reg, fin, fout) && Supported(reg, fin, fout)
  {
    if fin.header <= file
    then Some(fout.header + Translate(reg, fin, fout, InitialCoders(reg, fin, fout), file[|fin.header|..]).output)
    else None
  }

  /** The program, once it has accepted the request and handled the headers, leaves exactly that file behind. */
  lemma ProgramWrites(reg: Registry, fin: FormatDesc, fout: FormatDesc, file: seq<byte>)
    requires Request(reg, fin, fout) && ChainAccepted(reg, fin, fout) && AllQueued(Compile(reg, fin, fout).value)
    requires fin.header <= file
    ensures var bs := Compile(reg, fin, fout).value;
      && FileChain(StagesIn(bs)) && Supported(reg, fin, fout)
      && ConvertFile(reg, fin, fout, file)
         == Some(RunAll(StagesIn(bs), MemoriesIn(bs), Io(file[|fin.header|..], fout.header)).io.output)
  {
    CompleteRun(reg, fin, fout, Io(file[|fin.header|..], fout.header));
  }

  /** The complete `n`-byte blocks of a file, each mapped by `f`, in order; a trailing partial block is dropped. */
  function Blocks(n: nat, f: seq<byte> -> seq<byte>, input: seq<byte>): seq<byte>
    requires n > 0
    decreases |input|
  {
    if |input| < n then [] else f(input[..n]) + Blocks(n, f, input[n..])
  }

  /** Frames one behind the other. */
  function Concat(frames: seq<seq<byte>>): seq<byte> {
    if frames == [] then [] else frames[0] + Concat(frames[1..])
  }

  /** A file of `n`-byte frames and an incomplete rest becomes the file of the mapped frames. */
  lemma {:induction false} BlocksAre(
    n: nat, f: seq<byte> -> seq<byte>, frames: seq<seq<byte>>, mapped: seq<seq<byte>>, rest: seq<byte>)
    requires n > 0 && |rest| < n && |mapped| == |frames|
    requires forall i :: 0 <= i < |frames| ==> |frames[i]| == n && mapped[i] == f(frames[i])
    ensures Blocks(n, f, Concat(frames) + rest) == Concat(mapped)
    decreases |frames|
  {
    if frames == [] {
      assert Concat(frames) + rest == rest;
    } else {
      var tail := Concat(frames[1..]) + rest;
      assert Concat(frames) + rest == frames[0] + tail;
      assert (frames[0] + tail)[..n] == frames[0] && (frames[0] + tail)[n..] == tail;
      BlocksAre(n, f, frames[1..], mapped[1..], rest);
    }
  }

  lemma {:induction false} BlocksSame(
    n: nat, f: seq<byte> -> seq<byte>, g: seq<byte> -> seq<byte>, input: seq<byte>)
    requires n > 0 && forall x: seq<byte> :: |x| == n ==> f(x) == g(x)
    ensures Blocks(n, f, input) == Blocks(n, g, input)
    decreases |input|
  {
    if |input| < n {
    } else {
      BlocksSame(n, f, g, input[n..]);
    }
  }

  /** Mapping the blocks of a mapped file. */
  lemma {:induction false} BlocksTwice(
    n: nat, f: seq<byte> -> seq<byte>, m: nat, g: seq<byte> -> seq<byte>, input: seq<byte>)
    requires n > 0 && m > 0 && forall x: seq<byte> :: |x| == n ==> |f(x)| == m
    ensures Blocks(m, g, Blocks(n, f, input)) == Blocks(n, x => g(f(x)), input)
    decreases |input|
  {
    if |input| < n {
    } else {
      var rest := Blocks(n, f, input[n..]);
      BlocksTwice(n, f, m, g, input[n..]);
      assert (f(input[..n]) + rest)[..m] == f(input[..n]) && (f(input[..n]) + rest)[m..] == rest;
    }
  }

  /**
   A descriptor whose converters are those of `f`, for canonical frames of `n` bytes; it need only read what
   it wrote.
   */
  ghost predicate Describes(d: FormatDesc, f: Format, n: nat) {
    && d.frameLen == f.frameLen > 0
    && forall x: seq<byte> :: |x| == n ==>
         d.fromCanon(x) == Done(f.from(x)) && d.toCanon(f.from(x)) == Done(f.to(f.from(x)))
  }

  /** Moreover, any frame of the right length can be read. */
  ghost predicate ReadsAll(d: FormatDesc, f: Format) {
    forall y: seq<byte> :: |y| == f.frameLen ==> d.toCanon(y) == Done(f.to(y))
  }

  /** Every block of the file can be read. */
  ghost predicate Readable(d: FormatDesc, f: Format, input: seq<byte>)
    requires f.frameLen > 0
    decreases |input|
  {
    |input| >= f.frameLen ==>
      d.toCanon(input[..f.frameLen]) == Done(f.to(input[..f.frameLen])) && Readable(d, f, input[f.frameLen..])
  }

  lemma {:induction false} ReadsAllReadable(d: FormatDesc, f: Format, input: seq<byte>)
    requires f.frameLen > 0 && ReadsAll(d, f)
    ensures Readable(d, f, input)
    decreases |input|
  {
    if |input| < f.frameLen {
    } else {
      ReadsAllReadable(d, f, input[f.frameLen..]);
    }
  }

  /** A frame of format `f` as a frame of format `g`. */
  function Through(f: Format, g: Format): seq<byte> -> seq<byte> {
    x => g.from(f.to(x))
  }

  lemma ThroughFrame(f: Format, g: Format, n: nat, bits: nat, x: seq<byte>)
    requires Lossless(f, n, bits) && Lossless(g, n, bits) && |x| == f.frameLen
    ensures |f.to(x)| == n && Through(f, g)(x) == g.from(f.to(x)) && |Through(f, g)(x)| == g.frameLen
  {
  }

  /** One block that is converted without the coders. */
  lemma TranslateStep(reg: Registry, fd: FormatDesc, gd: FormatDesc, c: Coders, input: seq<byte>, out: seq<byte>)
    requires Supported(reg, fd, gd) && 0 < fd.frameLen <= |input| && out != []
    requires Transform(reg, fd, gd, c, input[..fd.frameLen]) == Transformed(c, Done(out))
    ensures var r := Translate(reg, fd, gd, c, input[fd.frameLen..]);
      Translate(reg, fd, gd, c, input) == Translated(r.count + 1, out + r.output, r.rv)
  {
  }

  lemma BlockTransforms(
    reg: Registry, fd: FormatDesc, f: Format, gd: FormatDesc, g: Format, n: nat, bits: nat, c: Coders,
    x: seq<byte>)
    requires fd.codecType == gd.codecType && fd.ftype != gd.ftype && |x| == f.frameLen
    requires Lossless(f, n, bits) && Lossless(g, n, bits) && Describes(gd, g, n) && fd.toCanon(x) == Done(f.to(x))
    ensures Transform(reg, fd, gd, c, x) == Transformed(c, Done(Through(f, g)(x))) && Through(f, g)(x) != []
  {
    ThroughFrame(f, g, n, bits, x);
    assert gd.fromCanon(f.to(x)) == Done(g.from(f.to(x)));
  }

  /** Every block of the file is converted by `h`, without the coders. */
  ghost predicate Converted(
    reg: Registry, fd: FormatDesc, gd: FormatDesc, c: Coders, h: seq<byte> -> seq<byte>, input: seq<byte>)
    requires Supported(reg, fd, gd) && fd.frameLen > 0
    decreases |input|
  {
    var n := fd.frameLen;
    |input| >= n ==>
      && Transform(reg, fd, gd, c, input[..n]) == Transformed(c, Done(h(input[..n])))
      && h(input[..n]) != [] && Converted(reg, fd, gd, c, h, input[n..])
  }

  lemma {:induction false} ConvertedTranslates(
    reg: Registry, fd: FormatDesc, gd: FormatDesc, c: Coders, h: seq<byte> -> seq<byte>, input: seq<byte>)
    requires Supported(reg, fd, gd) && fd.frameLen > 0 && Converted(reg, fd, gd, c, h, input)
    ensures Translate(reg, fd, gd, c, input)
        == Translated(Whole(|input|, fd.frameLen), Blocks(fd.frameLen, h, input), -1)
    decreases |input|
  {
    var k := fd.frameLen;
    if |input| < k {
    } else {
      ConvertedTranslates(reg, fd, gd, c, h, input[k..]);
      TranslateStep(reg, fd, gd, c, input, h(input[..k]));
    }
  }

  lemma {:induction false} ReadableConverted(
    reg: Registry, fd: FormatDesc, f: Format, gd: FormatDesc, g: Format, n: nat, bits: nat, c: Coders,
    input: seq<byte>)
    requires fd.codecType == gd.codecType && fd.ftype != gd.ftype && fd.frameLen == f.frameLen > 0
    requires Lossless(f, n, bits) && Lossless(g, n, bits) && Describes(gd, g, n) && Readable(fd, f, input)
    ensures Converted(reg, fd, gd, c, Through(f, g), input)
    decreases |input|
  {
    var k := f.frameLen;
    if |input| < k {
    } else {
      BlockTransforms(reg, fd, f, gd, g, n, bits, c, input[..k]);
      ReadableConverted(reg, fd, f, gd, g, n, bits, c, input[k..]);
    }
  }

  /** A run between two formats of one codec maps the blocks. */
  lemma RunMapsBlocks(
    reg: Registry, fd: FormatDesc, f: Format, gd: FormatDesc, g: Format, n: nat, bits: nat, c: Coders,
    input: seq<byte>)
    requires fd.codecType == gd.codecType && fd.ftype != gd.ftype
    requires Lossless(f, n, bits) && Lossless(g, n, bits) && Describes(fd, f, n) && Describes(gd, g, n)
    requires Readable(fd, f, input)
    ensures Translate(reg, fd, gd, c, input)
            == Translated(Whole(|input|, f.frameLen), Blocks(f.frameLen, Through(f, g), input), -1)
  {
    ReadableConverted(reg, fd, f, gd, g, n, bits, c, input);
    ConvertedTranslates(reg, fd, gd, c, Through(f, g), input);
  }

  /** What the program writes in a lossless format it can read again. */
  lemma {:induction false} WrittenReadable(
    f: Format, gd: FormatDesc, g: Format, n: nat, bits: nat, input: seq<byte>)
    requires f.frameLen > 0 && Lossless(f, n, bits) && Lossless(g, n, bits) && Describes(gd, g, n)
    ensures Readable(gd, g, Blocks(f.frameLen, Through(f, g), input))
    decreases |input|
  {
    var k := f.frameLen;
    if |input| < k {
    } else {
      WrittenReadable(f, gd, g, n, bits, input[k..]);
      var y := g.from(f.to(input[..k]));
      var rest := Blocks(k, Through(f, g), input[k..]);
      ThroughFrame(f, g, n, bits, input[..k]);
      assert (y + rest)[..g.frameLen] == y && (y + rest)[g.frameLen..] == rest;
    }
  }

  /** Passing through `g` on the way from `f` to `h` makes no difference to a frame. */
  lemma DetourFrame(f: Format, g: Format, h: Format, n: nat, bits: nat, x: seq<byte>)
    requires Lossless(f, n, bits) && Lossless(g, n, bits) && |x| == f.frameLen
    ensures Through(g, h)(Through(f, g)(x)) == Through(f, h)(x)
  {
    StoredFaithfully(f, g, n, bits, x);
  }

  lemma DetourBlocks(f: Format, g: Format, h: Format, n: nat, bits: nat, input: seq<byte>)
    requires f.frameLen > 0 && g.frameLen > 0 && Lossless(f, n, bits) && Lossless(g, n, bits)
    ensures Blocks(g.frameLen, Through(g, h), Blocks(f.frameLen, Through(f, g), input))
        == Blocks(f.frameLen, Through(f, h), input)
  {
    forall x: seq<byte> | |x| == f.frameLen
      ensures |Through(f, g)(x)| == g.frameLen && Through(g, h)(Through(f, g)(x)) == Through(f, h)(x)
    {
      ThroughFrame(f, g, n, bits, x);
      DetourFrame(f, g, h, n, bits, x);
    }
    BlocksTwice(f.frameLen, Through(f, g), g.frameLen, Through(g, h), input);
    BlocksSame(f.frameLen, x => Through(g, h)(Through(f, g)(x)), Through(f, h), input);
  }

  /** One run between two lossless formats, headers included. */
  lemma OneRun(
    reg: Registry, fd: FormatDesc, f: Format, gd: FormatDesc, g: Format, n: nat, bits: nat, input: seq<byte>)
    requires Request(reg, fd, gd) && fd.codecType == gd.codecType && fd.ftype != gd.ftype
    requires Lossless(f, n, bits) && Lossless(g, n, bits) && Describes(fd, f, n) && Describes(gd, g, n)
    requires Readable(fd, f, input)
    ensures ConvertFile(reg, fd, gd, fd.header + input) == Some(gd.header + Blocks(f.frameLen, Through(f, g), input))
  {
    assert (fd.header + input)[|fd.header|..] == input;
    RunMapsBlocks(reg, fd, f, gd, g, n, bits, InitialCoders(reg, fd, gd), input);
  }

  /** Three lossless formats of one codec, the second unlike the others, and a file body that the first can read. */
  ghost predicate DetourGiven(
    reg: Registry, fd: FormatDesc, f: Format, gd: FormatDesc, g: Format, hd: FormatDesc, h: Format,
    n: nat, bits: nat, input: seq<byte>)
  {
    && Request(reg, fd, gd) && Request(reg, gd, hd) && fd.codecType == gd.codecType == hd.codecType
    && fd.ftype != gd.ftype && gd.ftype != hd.ftype
    && Lossless(f, n, bits) && Lossless(g, n, bits) && Lossless(h, n, bits)
    && Describes(fd, f, n) && Describes(gd, g, n) && Describes(hd, h, n) && Readable(fd, f, input)
  }

  lemma SecondRun(
    reg: Registry, fd: FormatDesc, f: Format, gd: FormatDesc, g: Format, hd: FormatDesc, h: Format,
    n: nat, bits: nat, input: seq<byte>)
    requires DetourGiven(reg, fd, f, gd, g, hd, h, n, bits, input)
    ensures ConvertFile(reg, gd, hd, gd.header + Blocks(f.frameLen, Through(f, g), input))
            == Some(hd.header + Blocks(f.frameLen, Through(f, h), input))
  {
    var middle := Blocks(f.frameLen, Through(f, g), input);
    WrittenReadable(f, gd, g, n, bits, input);
    DetourBlocks(f, g, h, n, bits, input);
    OneRun(reg, gd, g, hd, h, n, bits, middle);
  }

  /**
   Two runs of the program, from format `f` to `g` and from `g` to `h`: for `f` other than `h` they leave
   exactly the file, header and all, that one run from `f` to `h` leaves.
   */
  lemma Detour(
    reg: Registry, fd: FormatDesc, f: Format, gd: FormatDesc, g: Format, hd: FormatDesc, h: Format,
    n: nat, bits: nat, input: seq<byte>)
    requires DetourGiven(reg, fd, f, gd, g, hd, h, n, bits, input)
    ensures var once := ConvertFile(reg, fd, gd, fd.header + input);
      && once.Some?
      && ConvertFile(reg, gd, hd, once.value) == Some(hd.header + Blocks(f.frameLen, Through(f, h), input))
      && (fd.ftype != hd.ftype ==> ConvertFile(reg, gd, hd, once.value) == ConvertFile(reg, fd, hd, fd.header + input))
  {
    OneRun(reg, fd, f, gd, g, n, bits, input);
    SecondRun(reg, fd, f, gd, g, hd, h, n, bits, input);
    if fd.ftype != hd.ftype {
      OneRun(reg, fd, f, hd, h, n, bits, input);
    }
  }

  /** Frames that the format could have written itself. */
  ghost predicate SelfWritten(f: Format, input: seq<byte>)
    requires f.frameLen > 0
    decreases |input|
  {
    |input| >= f.frameLen ==>
      Through(f, f)(input[..f.frameLen]) == input[..f.frameLen] && SelfWritten(f, input[f.frameLen..])
  }

  lemma {:induction false} SelfWrittenBlocks(f: Format, input: seq<byte>)
    requires f.frameLen > 0 && |input| % f.frameLen == 0 && SelfWritten(f, input)
    ensures Blocks(f.frameLen, Through(f, f), input) == input
    decreases |input|
  {
    var k := f.frameLen;
    if |input| < k {
      DivUnique(|input|, k, 0, |input|);
      assert input == [];
    } else {
      WholeBlocks(|input|, k);
      SelfWrittenBlocks(f, input[k..]);
      assert input == input[..k] + input[k..];
    }
  }

  lemma WholeBlocks(len: nat, n: nat)
    requires 0 < n <= len && len % n == 0
    ensures (len - n) % n == 0
  {
    DivStep(len, n);
  }

  /**
   There and back again: every frame is normalised, which keeps its canonical form and happens at most
   once; a file of whole frames that the format could have written itself comes back unchanged.
   */
  lemma ThereAndBack(
    reg: Registry, fd: FormatDesc, f: Format, gd: FormatDesc, g: Format, n: nat, bits: nat, input: seq<byte>)
    requires DetourGiven(reg, fd, f, gd, g, fd, f, n, bits, input)
    ensures var once := ConvertFile(reg, fd, gd, fd.header + input);
      && once.Some?
      && ConvertFile(reg, gd, fd, once.value) == Some(fd.header + Blocks(f.frameLen, Through(f, f), input))
      && (|input| % f.frameLen == 0 && SelfWritten(f, input) ==>
            ConvertFile(reg, gd, fd, once.value) == Some(fd.header + input))
    ensures forall y: seq<byte> :: |y| == f.frameLen ==>
      f.to(Through(f, f)(y)) == f.to(y) && Through(f, f)(Through(f, f)(y)) == Through(f, f)(y)
  {
    Detour(reg, fd, f, gd, g, fd, f, n, bits, input);
    forall y: seq<byte> | |y| == f.frameLen
      ensures f.to(Through(f, f)(y)) == f.to(y) && Through(f, f)(Through(f, f)(y)) == Through(f, f)(y)
    {
      StoredFaithfully(f, f, n, bits, y);
    }
    if |input| % f.frameLen == 0 && SelfWritten(f, input) {
      SelfWrittenBlocks(f, input);
    }
  }
}
