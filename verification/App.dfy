/** src/app_osmo_gapk.c: headers and the unthrottled processing loop, with files at both ends. */
module App {
  import opened Bits
  import opened Procqueue
  import opened Pipeline
  import opened ChainTyping
  import opened Translation

  /** `handle_headers`: the input must start with the header of its format, the output gets that of its own. */
  method HandleHeaders(files: Files, fin: FormatDesc, fout: FormatDesc) returns (rv: int)
    modifies files
    ensures rv == if fin.header <= old(files.input) then 0 else EINVAL
    ensures rv == 0 ==> old(files.input) == fin.header + files.input && files.output == old(files.output) + fout.header
    ensures rv != 0 ==> files.output == old(files.output)
  {
    var len := |fin.header|;
    if len != 0 {
      if |files.input| < len {
        files.input := [];  // fread consumed what there was and returned 0
        return EINVAL;
      }
      var buf := files.input[..len];
      files.input := files.input[len..];
      if buf != fin.header {
        return EINVAL;
      }
    }
    files.output := files.output + fout.header;
    return 0;
  }

  /**
   `run` without throttling and without a signal: passes until one fails, counting those that did not, for
   any queue behind a file source on which every pass is safe.
   */
  method Run(q: Queue, files: Files) returns (rv: int, numFrames: nat)
    requires Building(q) && FileChain(q.Stages()) && SafeRun(q.Stages(), q.Memories(), files.View())
    modifies q.items, files
    ensures var r := old(RunAll(q.Stages(), q.Memories(), files.View()));
      && numFrames == r.frames && files.View() == r.io && q.Memories() == r.mems
      && rv == if r.frames > 0 then 0 else r.rv
  {
    rv := q.Prepare();
    rv, numFrames := Passes(q, files);
    if numFrames > 0 {
      rv := 0;
    }
  }

  /** The processing loop. */
  method Passes(q: Queue, files: Files) returns (rv: int, numFrames: nat)
    requires Ready(q) && SafeRun(q.Stages(), q.Memories(), files.View())
    modifies q.items`state, files, set b <- q.Buffers() | b != null
    ensures var r := old(RunAll(q.Stages(), q.Memories(), files.View()));
      numFrames == r.frames && files.View() == r.io && q.Memories() == r.mems && rv == r.rv
  {
    ghost var all := RunAll(q.Stages(), q.Memories(), files.View());
    numFrames := 0;
    while true
      invariant Ready(q) && q.Buffers() == old(q.Buffers())
      invariant Underway(all, q.Stages(), q.Memories(), files.View(), numFrames)
      decreases |files.input|
    {
      PassOfRun(all, q.Stages(), q.Memories(), files.View(), numFrames);
      rv := OnePass(q, files);
      if rv != 0 {
        break;
      }
      numFrames := numFrames + 1;
    }
  }

  /** A safe run that is going to end in `all` has come to this point after `n` passes. */
  ghost predicate Underway(all: Ended, stages: seq<Stage>, mems: seq<Memory>, io: Io, n: nat) {
    && FileChain(stages) && |stages| == |mems| && SafeRun(stages, mems, io)
    && var r := RunAll(stages, mems, io); all == r.(frames := n + r.frames)
  }

  lemma PassOfRun(all: Ended, stages: seq<Stage>, mems: seq<Memory>, io: Io, n: nat)
    requires Underway(all, stages, mems, io, n)
    ensures SafeRun(stages, mems, io)
    ensures var p := Exec(stages, mems, 0, [], io);
      if p.rv == 0 then Underway(all, stages, p.mems, p.io, n + 1)
      else all == Ended(n, p.rv, p.mems, p.io, false)
  {
    SafeRuns(stages, mems, 0, [], io);
    PassProgress(stages, mems, io);
  }

  /** A prepared queue behind a file source. */
  ghost predicate Ready(q: Queue)
    reads q, q.items
  {
    q.Valid() && q.Prepared() && FileChain(q.Stages())
  }

  method OnePass(q: Queue, files: Files) returns (rv: int)
    requires Ready(q) && SafeRun(q.Stages(), q.Memories(), files.View())
    modifies q.items`state, files, set b <- q.Buffers() | b != null
    ensures Ready(q) && q.Buffers() == old(q.Buffers()) && q.Stages() == old(q.Stages())
    ensures
      var p := old(Exec(q.Stages(), q.Memories(), 0, [], files.View()));
      rv == p.rv && q.Memories() == p.mems && files.View() == p.io && !p.crashed
    ensures rv == 0 ==> |files.input| < old(|files.input|) && SafeRun(q.Stages(), q.Memories(), files.View())
  {
    SafeRuns(q.Stages(), q.Memories(), 0, [], files.View());
    PassProgress(q.Stages(), q.Memories(), files.View());
    rv := q.Execute(files);
  }

  /** If the chain for the request is accepted, every pass of a run over the rest of the input is safe. */
  ghost predicate RunsSafely(reg: Registry, fin: FormatDesc, fout: FormatDesc, io: Io)
    requires Request(reg, fin, fout)
  {
    ChainAccepted(reg, fin, fout) ==>
      var bs := Compile(reg, fin, fout).value;
      CompiledFileChain(reg, fin, fout);
      SafeRun(StagesIn(bs), MemoriesIn(bs), io)
  }

  /** Number of frames, the output file and the exit code of a program that gets as far as building the chain. */
  ghost function ChainResult(reg: Registry, fin: FormatDesc, fout: FormatDesc, io: Io): Translated
    requires Request(reg, fin, fout)
  {
    if !ChainAccepted(reg, fin, fout) then Translated(0, io.output, EINVAL)
    else
      var bs := Compile(reg, fin, fout).value;
      CompiledFileChain(reg, fin, fout);
      var r := RunAll(StagesIn(bs), MemoriesIn(bs), io);
      Translated(r.frames, r.io.output, if r.frames > 0 then 0 else r.rv)
  }

  /** A new queue with the chain in it. */
  method Build(reg: Registry, fin: FormatDesc, fout: FormatDesc) returns (rv: int, q: Queue)
    requires Request(reg, fin, fout)
    ensures fresh(q) && fresh(q.items)
    ensures var c := Compile(reg, fin, fout);
      if c.Some? && Checked(StagesIn(c.value), true)
      then rv == 0 && Building(q) && q.Stages() == StagesIn(c.value) && q.Memories() == MemoriesIn(c.value)
      else rv == EINVAL
  {
    q := new Queue();
    rv := MakeProcessingChain(q, reg, fin, fout);
    assert forall k :: 0 <= k < |q.items| ==> q.items[k] in q.items;
    if rv == 0 {
      assert q.Stages() == StagesIn(Compile(reg, fin, fout).value);
      assert q.Memories() == MemoriesIn(Compile(reg, fin, fout).value);
    }
  }

  /** The second half of `main`: build the chain, and run it if the strict check accepts it. */
  method BuildAndRun(
    reg: Registry, fin: FormatDesc, fout: FormatDesc, files: Files) returns (rv: int, numFrames: nat)
    requires Request(reg, fin, fout) && CheckTranscoding(reg, fin, fout) == 0
    requires RunsSafely(reg, fin, fout, files.View())
    modifies files
    ensures Translated(numFrames, files.output, rv) == ChainResult(reg, fin, fout, old(files.View()))
  {
    var q: Queue;
    numFrames := 0;
    rv, q := Build(reg, fin, fout);
    if rv != 0 {
      return;
    }
    CompiledFileChain(reg, fin, fout);
    rv, numFrames := Run(q, files);
  }

  /** The files after their headers were handled. */
  function BehindHeaders(fin: FormatDesc, fout: FormatDesc, io: Io): Io
    requires fin.header <= io.input
  {
    Io(io.input[|fin.header|..], io.output + fout.header)
  }

  /** What the program asks of the converters and coders it calls. */
  ghost predicate ProgramSafe(reg: Registry, fin: FormatDesc, fout: FormatDesc, io: Io)
    requires Request(reg, fin, fout)
  {
    fin.header <= io.input ==> RunsSafely(reg, fin, fout, BehindHeaders(fin, fout, io))
  }

  /** Sound converters and coders meet that on all files, unless the encoder is lost. */
  lemma SoundProgramSafe(reg: Registry, fs: FrameKinds, fin: FormatDesc, fout: FormatDesc, io: Io)
    requires Request(reg, fin, fout) && OwnFormats(reg, fin, fout) && PcmFixed(reg) && SoundRegistry(reg, fs)
    requires !EncoderLost(reg, fin, fout)
    ensures ProgramSafe(reg, fin, fout, io)
  {
    if fin.header <= io.input && ChainAccepted(reg, fin, fout) {
      var bs := Compile(reg, fin, fout).value;
      CompiledChainSafe(reg, fs, fin, fout, MemoriesIn(bs), BehindHeaders(fin, fout, io));
    }
  }

  /** Number of frames, the output file and the exit code of the program. */
  ghost function ProgramResult(reg: Registry, fin: FormatDesc, fout: FormatDesc, io: Io): Translated
    requires Request(reg, fin, fout)
  {
    if CheckTranscoding(reg, fin, fout) != 0 then Translated(0, io.output, CheckTranscoding(reg, fin, fout))
    else if !(fin.header <= io.input) then Translated(0, io.output, EINVAL)
    else ChainResult(reg, fin, fout, BehindHeaders(fin, fout, io))
  }

  /** What the program is for: the output header and the translation of the input behind its header. */
  ghost function Wanted(reg: Registry, fin: FormatDesc, fout: FormatDesc, io: Io): Translated
    requires Request(reg, fin, fout) && Supported(reg, fin, fout) && fin.header <= io.input
  {
    var t := Translate(reg, fin, fout, InitialCoders(reg, fin, fout), io.input[|fin.header|..]);
    Translated(t.count, io.output + fout.header + t.output, if t.count > 0 then 0 else t.rv)
  }

  /** The chain is accepted, and every queue call has succeeded. */
  ghost predicate Complete(reg: Registry, fin: FormatDesc, fout: FormatDesc)
    requires Request(reg, fin, fout)
  {
    ChainAccepted(reg, fin, fout) && AllQueued(Compile(reg, fin, fout).value)
  }

  /** With a complete chain, that is what it does. */
  lemma CompleteWanted(reg: Registry, fin: FormatDesc, fout: FormatDesc, io: Io)
    requires Request(reg, fin, fout) && Complete(reg, fin, fout) && fin.header <= io.input
    ensures Supported(reg, fin, fout) && ProgramResult(reg, fin, fout, io) == Wanted(reg, fin, fout, io)
  {
    CompleteRun(reg, fin, fout, BehindHeaders(fin, fout, io));
  }

  /**
   `main` from the check of the options on, for two named formats and files at both ends.  Its exit code and
   the output file are those of the step that fails or of the run; with a complete chain, the output file
   gets the output header and the translation of the input.
   */
  method Program(reg: Registry, fin: FormatDesc, fout: FormatDesc, files: Files) returns (rv: int, numFrames: nat)
    requires Request(reg, fin, fout) && ProgramSafe(reg, fin, fout, files.View())
    modifies files
    ensures Translated(numFrames, files.output, rv) == ProgramResult(reg, fin, fout, old(files.View()))
    ensures CheckTranscoding(reg, fin, fout) != 0 ==>
      numFrames == 0 && files.output == old(files.output) && rv == CheckTranscoding(reg, fin, fout)
    ensures CheckTranscoding(reg, fin, fout) == 0 && !(fin.header <= old(files.input)) ==>
      numFrames == 0 && files.output == old(files.output) && rv == -22
    ensures CheckTranscoding(reg, fin, fout) == 0 && fin.header <= old(files.input)
            && !ChainAccepted(reg, fin, fout) ==>
      numFrames == 0 && files.output == old(files.output) + fout.header && rv == -22
    ensures Complete(reg, fin, fout) && fin.header <= old(files.input) ==>
      Supported(reg, fin, fout)
      && Translated(numFrames, files.output, rv) == Wanted(reg, fin, fout, old(files.View()))
  {
    ghost var io := files.View();
    if Complete(reg, fin, fout) && fin.header <= io.input {
      CompleteWanted(reg, fin, fout, io);
    }
    numFrames := 0;
    rv := CheckOptions(reg, Options(Some(fin), Some(fout), true, false, false, true, false, false));
    if rv != 0 {
      return;
    }
    rv := HandleHeaders(files, fin, fout);
    if rv != 0 {
      return;
    }
    assert files.View() == BehindHeaders(fin, fout, io);
    rv, numFrames := BuildAndRun(reg, fin, fout, files);
  }
}
