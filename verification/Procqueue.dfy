/**
 src/procqueue.c: the processing queue.  The first part gives the queue its meaning as a function on
 frames, the second is the queue itself, a list of items updated in place.
 */
module Procqueue {
  import opened Bits

  const VAR_BUF_SIZE: nat := 320
  const EINVAL: int := -22

  /** The memory behind an item's opaque state pointer. */
  type Memory = seq<byte>

  type Negative = x: int | x < 0 witness -1

  /** What a callback does: return the length of what it wrote, return an error, or fail an assertion. */
  datatype Ret = Done(out: seq<byte>) | Error(rv: Negative) | Abort

  datatype Answer = Answer(mem: Memory, ret: Ret)

  datatype ItemType = Source | Sink | Processing

  /** The rest of the input file and all of the output file. */
  datatype Io = Io(input: seq<byte>, output: seq<byte>)

  /** What a callback does to its memory and the files, and its answer. */
  datatype Effect = Effect(mem: Memory, io: Io, ret: Ret)

  /** `item->proc`, which may be NULL, with the constant part of what `item->state` points to bound in. */
  datatype Proc = NoProc | Callback(run: (Memory, seq<byte>, Io) -> Effect)

  /** What stays constant of an item once the queue is built. */
  datatype Stage = Stage(kind: ItemType, lenIn: nat, lenOut: nat, proc: Proc) {
    /** What `osmo_gapk_pq_prepare` allocates; a sink gets no buffer. */
    function Capacity(): nat {
      if kind == Sink then 0 else if lenOut == 0 then VAR_BUF_SIZE else lenOut
    }
  }

  /** `pq_cb_file_input`: `fread(out, blkLen, 1, fh)` returns 0 on a short read, having consumed what was left. */
  function FileInput(blkLen: nat): Proc {
    Callback((mem, frame, io: Io) =>
      if 0 < blkLen <= |io.input| then Effect(mem, io.(input := io.input[blkLen..]), Done(io.input[..blkLen]))
      else Effect(mem, io.(input := if blkLen == 0 then io.input else []), Error(-1)))
  }

  /** `pq_cb_file_output`: `fwrite(in, in_len, 1, fh)` returns 0 for an empty block. */
  function FileOutput(): Proc {
    Callback((mem, frame, io: Io) =>
      if frame == [] then Effect(mem, io, Error(-1))
      else Effect(mem, io.(output := io.output + frame), Done([])))
  }

  /** `pq_cb_fmt_convert` */
  function Convert(f: seq<byte> -> Ret): Proc {
    Callback((mem, frame, io) => Effect(mem, io, f(frame)))
  }

  /** An encoder or decoder. */
  function Code(g: (Memory, seq<byte>) -> Answer): Proc {
    Callback((mem, frame, io) => var a := g(mem, frame); Effect(a.mem, io, a.ret))
  }

  /** What the two ends do with the files. */
  lemma FileBlocks(n: nat, mem: Memory, frame: seq<byte>, io: Io)
    ensures 0 < n <= |io.input| ==>
      FileInput(n).run(mem, frame, io) == Effect(mem, Io(io.input[n..], io.output), Done(io.input[..n]))
    ensures |io.input| < n ==> FileInput(n).run(mem, frame, io) == Effect(mem, Io([], io.output), Error(-1))
    ensures n == 0 ==> FileInput(n).run(mem, frame, io) == Effect(mem, io, Error(-1))
    ensures frame != [] ==> FileOutput().run(mem, frame, io) == Effect(mem, Io(io.input, io.output + frame), Done([]))
    ensures frame == [] ==> FileOutput().run(mem, frame, io) == Effect(mem, io, Error(-1))
  {
  }

  function Apply(p: Proc, mem: Memory, frame: seq<byte>, io: Io): Effect {
    match p
    case NoProc => Effect(mem, io, Abort)
    case Callback(run) => run(mem, frame, io)
  }

  /** The outcome of one pass: return value, memories and files; `crashed` if a callback was missing or aborted. */
  datatype Pass = Pass(rv: int, mems: seq<Memory>, io: Io, crashed: bool)

  /** `osmo_gapk_pq_execute` from item `i` on, which is handed `frame`. */
  function Exec(stages: seq<Stage>, mems: seq<Memory>, i: nat, frame: seq<byte>, io: Io): Pass
    requires i <= |stages| == |mems|
    decreases |stages| - i
  {
    if i == |stages| then Pass(0, mems, io, false)
    else
      var e := Apply(stages[i].proc, mems[i], frame, io);
      match e.ret
      case Done(out) => Exec(stages, mems[i := e.mem], i + 1, out, e.io)
      case Error(rv) => Pass(rv, mems[i := e.mem], e.io, false)
      case Abort => Pass(0, mems[i := e.mem], e.io, true)
  }

  /**
   Along the whole pass from item `i` on: no callback is missing or fails an assertion, every item with a
   fixed input size is handed exactly that many bytes, and every write fits the allocated buffer.
   */
  predicate Safe(stages: seq<Stage>, mems: seq<Memory>, i: nat, frame: seq<byte>, io: Io)
    requires i <= |stages| == |mems|
    decreases |stages| - i
  {
    i < |stages| ==>
      var e := Apply(stages[i].proc, mems[i], frame, io);
      && (i > 0 && stages[i].lenIn != 0 ==> |frame| == stages[i].lenIn)
      && e.ret != Abort
      && (e.ret.Done? ==> |e.ret.out| <= stages[i].Capacity() && Safe(stages, mems[i := e.mem], i + 1, e.ret.out, e.io))
  }

  /** A pass that is going to end in `all` has safely come to item `i`. */
  ghost predicate Reached(all: Pass, stages: seq<Stage>, mems: seq<Memory>, i: nat, frame: seq<byte>, io: Io) {
    i <= |stages| == |mems| && Safe(stages, mems, i, frame, io) && Exec(stages, mems, i, frame, io) == all
  }

  lemma OneItem(all: Pass, stages: seq<Stage>, mems: seq<Memory>, i: nat, frame: seq<byte>, io: Io, e: Effect)
    requires Reached(all, stages, mems, i, frame, io) && i < |stages| && e == Apply(stages[i].proc, mems[i], frame, io)
    ensures e.ret != Abort
    ensures e.ret.Done? ==>
      |e.ret.out| <= stages[i].Capacity() && Reached(all, stages, mems[i := e.mem], i + 1, e.ret.out, e.io)
    ensures e.ret.Error? ==> all == Pass(e.ret.rv, mems[i := e.mem], e.io, false)
  {
  }

  /** What `osmo_gapk_pq_check` accepts. */
  predicate Checked(stages: seq<Stage>, strict: bool) {
    && (forall i :: 0 < i < |stages| && stages[i].lenIn != 0 ==> stages[i].lenIn == stages[i - 1].lenOut)
    && (strict ==> stages != [] && stages[0].kind == Source && stages[|stages| - 1].kind == Sink)
  }

  /**
   On input of the declared size the callback yields output of the declared size or reports an error, and
   reads no file.
   */
  ghost predicate Typed(s: Stage) {
    && s.lenIn != 0
    && (s.lenOut != 0 <==> s.kind != Sink)
    && forall mem: Memory, frame: seq<byte>, io: Io :: |frame| == s.lenIn ==>
         var e := Apply(s.proc, mem, frame, io);
         && e.ret != Abort && (e.ret.Done? ==> |e.ret.out| == s.lenOut)
         && e.io.input == io.input
  }

  /** A file source in front, typed items behind it. */
  ghost predicate TypedChain(stages: seq<Stage>) {
    && stages != [] && stages[0].kind == Source
    && stages[0].proc == FileInput(stages[0].lenOut) && stages[0].lenOut != 0
    && forall i :: 0 < i < |stages| ==> Typed(stages[i])
  }

  /** A property of frames. */
  type Kind = seq<byte> -> bool

  /**
   Frames of kind `k` suit the item, and it answers with a frame of kind `k'` that fits its buffer, or with
   an error.
   */
  ghost predicate Maps(s: Stage, k: Kind, k': Kind) {
    forall mem: Memory, frame: seq<byte>, io: Io :: k(frame) ==>
      var e := Apply(s.proc, mem, frame, io);
      && (s.lenIn != 0 ==> |frame| == s.lenIn)
      && e.ret != Abort && (e.ret.Done? ==> k'(e.ret.out) && |e.ret.out| <= s.Capacity())
  }

  /** Kind `i` of a list that starts with `start`. */
  ghost function Handed(kinds: seq<Kind>, start: Kind, i: nat): Kind
    requires i <= |kinds|
  {
    if i == 0 then start else kinds[i - 1]
  }

  /**
   Item `i` gets a frame of kind `kinds[i - 1]`, the first one of kind `start`, and hands on one of kind
   `kinds[i]`.
   */
  ghost predicate Flows(stages: seq<Stage>, kinds: seq<Kind>, start: Kind) {
    |stages| == |kinds|
    && forall i :: 0 <= i < |stages| ==> Maps(stages[i], Handed(kinds, start, i), kinds[i])
  }

  /** A file source in front, whose blocks can be anything of their length. */
  ghost predicate KindChain(stages: seq<Stage>, kinds: seq<Kind>, start: Kind) {
    && stages != [] && stages[0].kind == Source && stages[0].proc == FileInput(stages[0].lenOut)
    && (forall x: seq<byte> :: 0 < |x| == stages[0].lenOut ==> start(x))
    && Flows(stages[1..], kinds, start)
  }

  lemma {:induction false} SafeFrom(
    stages: seq<Stage>, kinds: seq<Kind>, start: Kind, mems: seq<Memory>, i: nat, frame: seq<byte>, io: Io)
    requires KindChain(stages, kinds, start) && 0 < i <= |stages| == |mems|
    requires Handed(kinds, start, i - 1)(frame)
    ensures Safe(stages, mems, i, frame, io)
    decreases |stages| - i
  {
    if i == |stages| {
    } else {
      assert Maps(stages[1..][i - 1], Handed(kinds, start, i - 1), kinds[i - 1]);
      var e := Apply(stages[i].proc, mems[i], frame, io);
      if e.ret.Done? {
        SafeFrom(stages, kinds, start, mems[i := e.mem], i + 1, e.ret.out, e.io);
      }
    }
  }

  /** A queue through which kinds of frames can be followed never goes wrong, on any file, in any state. */
  lemma KindSoundness(stages: seq<Stage>, kinds: seq<Kind>, start: Kind, mems: seq<Memory>, io: Io)
    requires KindChain(stages, kinds, start) && |stages| == |mems|
    ensures Safe(stages, mems, 0, [], io) && !Exec(stages, mems, 0, [], io).crashed
  {
    var e := Apply(stages[0].proc, mems[0], [], io);
    if e.ret.Done? {
      SafeFrom(stages, kinds, start, mems[0 := e.mem], 1, e.ret.out, e.io);
    }
    SafeRuns(stages, mems, 0, [], io);
  }

  /** Frames of length `n`. */
  function OfLength(n: nat): Kind {
    x => |x| == n
  }

  /** The strict check links the lengths, so that each length is the kind of a frame. */
  lemma LengthsAreKinds(stages: seq<Stage>, kinds: seq<Kind>)
    requires TypedChain(stages) && Checked(stages, true)
    requires |kinds| == |stages| - 1 && forall i :: 0 <= i < |kinds| ==> kinds[i] == OfLength(stages[i + 1].lenOut)
    ensures KindChain(stages, kinds, OfLength(stages[0].lenOut))
  {
    var rest, start := stages[1..], OfLength(stages[0].lenOut);
    forall i | 0 <= i < |rest|
      ensures Maps(rest[i], Handed(kinds, start, i), kinds[i])
    {
      assert Typed(stages[i + 1]) && stages[i + 1].lenIn == stages[i].lenOut;
    }
  }

  /**
   Type soundness: a queue of typed items that passes the strict check never goes wrong, on any file, in any
   state.
   */
  lemma TypeSoundness(stages: seq<Stage>, mems: seq<Memory>, io: Io)
    requires TypedChain(stages) && Checked(stages, true) && |stages| == |mems|
    ensures Safe(stages, mems, 0, [], io) && !Exec(stages, mems, 0, [], io).crashed
  {
    var kinds: seq<Kind> := seq(|stages| - 1, i requires 0 <= i < |stages| - 1 => OfLength(stages[i + 1].lenOut));
    LengthsAreKinds(stages, kinds);
    KindSoundness(stages, kinds, OfLength(stages[0].lenOut), mems, io);
  }

  lemma {:induction false} SafeRuns(stages: seq<Stage>, mems: seq<Memory>, i: nat, frame: seq<byte>, io: Io)
    requires i <= |stages| == |mems| && Safe(stages, mems, i, frame, io)
    ensures !Exec(stages, mems, i, frame, io).crashed
    decreases |stages| - i
  {
    if i == |stages| {
    } else {
      var e := Apply(stages[i].proc, mems[i], frame, io);
      if e.ret.Done? {
        SafeRuns(stages, mems[i := e.mem], i + 1, e.ret.out, e.io);
      }
    }
  }

  // --- Traces -----------------------------------------------------------------------------------------

  /**
   The record of a pass through the first `n` items: `frames[i]` is what item `i` is handed and
   `frames[i + 1]` what it answers, the files are `ios[i]` before and `ios[i + 1]` after it, and its memory
   becomes `after[i]`.
   */
  ghost predicate Trace(
    stages: seq<Stage>, mems: seq<Memory>, io: Io, n: nat,
    frames: seq<seq<byte>>, ios: seq<Io>, after: seq<Memory>)
  {
    && n <= |stages| == |mems| && |frames| == |ios| == n + 1 && |after| == n && frames[0] == [] && ios[0] == io
    && forall i :: 0 <= i < n ==>
         Answers(stages[i].proc, mems[i], frames[i], ios[i], after[i], frames[i + 1], ios[i + 1])
  }

  /** A callback that takes a frame, a memory and files to a frame, a memory and files. */
  predicate Answers(p: Proc, mem: Memory, frame: seq<byte>, io: Io, mem': Memory, out: seq<byte>, io': Io) {
    p.Callback? && p.run(mem, frame, io) == Effect(mem', io', Done(out))
  }

  /** A pass picks up where a trace ends, with the memories of the items behind it untouched. */
  lemma {:induction false} TraceLeads(
    stages: seq<Stage>, mems: seq<Memory>, io: Io, n: nat,
    frames: seq<seq<byte>>, ios: seq<Io>, after: seq<Memory>)
    requires Trace(stages, mems, io, n, frames, ios, after)
    ensures Exec(stages, mems, 0, [], io) == Exec(stages, after + mems[n..], n, frames[n], ios[n])
    ensures Safe(stages, mems, 0, [], io) ==> Safe(stages, after + mems[n..], n, frames[n], ios[n])
    decreases n
  {
    if n == 0 {
      assert after + mems[0..] == mems;
    } else {
      var k := n - 1;
      TraceLeads(stages, mems, io, k, frames[..n], ios[..n], after[..k]);
      assert Answers(stages[k].proc, mems[k], frames[k], ios[k], after[k], frames[n], ios[n]);
      var m := after[..k] + mems[k..];
      assert m[k] == mems[k] && m[k := after[k]] == after + mems[n..];
    }
  }

  /** A pass that goes through all items returns 0 and leaves what its trace ends with. */
  lemma TraceEnds(
    stages: seq<Stage>, mems: seq<Memory>, io: Io,
    frames: seq<seq<byte>>, ios: seq<Io>, after: seq<Memory>)
    requires Trace(stages, mems, io, |stages|, frames, ios, after)
    ensures Exec(stages, mems, 0, [], io) == Pass(0, after, ios[|stages|], false)
  {
    TraceLeads(stages, mems, io, |stages|, frames, ios, after);
    assert after + mems[|stages|..] == after;
  }

  /** The first item that reports an error ends the pass with that error; those behind it are not called. */
  lemma TraceFails(
    stages: seq<Stage>, mems: seq<Memory>, io: Io, n: nat,
    frames: seq<seq<byte>>, ios: seq<Io>, after: seq<Memory>, e: Effect)
    requires Trace(stages, mems, io, n, frames, ios, after) && n < |stages| && stages[n].proc.Callback?
    requires e == stages[n].proc.run(mems[n], frames[n], ios[n]) && e.ret.Error?
    ensures Exec(stages, mems, 0, [], io) == Pass(e.ret.rv, after + [e.mem] + mems[n + 1..], e.io, false)
  {
    TraceLeads(stages, mems, io, n, frames, ios, after);
    var m := after + mems[n..];
    assert m[n] == mems[n] && m[n := e.mem] == after + [e.mem] + mems[n + 1..];
  }

  /**
   What a safe pass guarantees to every item it reaches: a callback that does not abort, a frame of exactly
   the length it asks for, and room for its answer in a buffer of its length, or of 320 bytes.
   */
  lemma SafeGuarantees(
    stages: seq<Stage>, mems: seq<Memory>, io: Io, n: nat,
    frames: seq<seq<byte>>, ios: seq<Io>, after: seq<Memory>)
    requires Trace(stages, mems, io, n, frames, ios, after) && n < |stages| && Safe(stages, mems, 0, [], io)
    ensures stages[n].proc.Callback?
    ensures var e := stages[n].proc.run(mems[n], frames[n], ios[n]);
      && (n > 0 && stages[n].lenIn != 0 ==> |frames[n]| == stages[n].lenIn)
      && e.ret != Abort
      && (e.ret.Done? ==> |e.ret.out| <= if stages[n].kind == Sink then 0
                                         else if stages[n].lenOut == 0 then 320 else stages[n].lenOut)
  {
    TraceLeads(stages, mems, io, n, frames, ios, after);
    assert (after + mems[n..])[n] == mems[n];
  }

  // --- Runs -------------------------------------------------------------------------------------------

  ghost predicate LeavesInput(p: Proc) {
    forall mem: Memory, frame: seq<byte>, io: Io :: Apply(p, mem, frame, io).io.input == io.input
  }

  /** A file source in front, and no other item that reads the file. */
  ghost predicate FileChain(stages: seq<Stage>) {
    && stages != [] && stages[0].proc == FileInput(stages[0].lenOut)
    && forall i :: 0 < i < |stages| ==> LeavesInput(stages[i].proc)
  }

  lemma {:induction false} PassConsumes(stages: seq<Stage>, mems: seq<Memory>, i: nat, frame: seq<byte>, io: Io)
    requires FileChain(stages) && 0 < i <= |stages| == |mems|
    ensures Exec(stages, mems, i, frame, io).io.input == io.input
    ensures |Exec(stages, mems, i, frame, io).mems| == |mems|
    ensures Exec(stages, mems, i, frame, io).rv <= 0
    decreases |stages| - i
  {
    if i == |stages| {
    } else {
      assert LeavesInput(stages[i].proc);
      var e := Apply(stages[i].proc, mems[i], frame, io);
      if e.ret.Done? {
        PassConsumes(stages, mems[i := e.mem], i + 1, e.ret.out, e.io);
      }
    }
  }

  /** A pass that succeeds has consumed one block of the input, whatever the items are. */
  lemma PassProgress(stages: seq<Stage>, mems: seq<Memory>, io: Io)
    requires FileChain(stages) && |stages| == |mems|
    ensures var p := Exec(stages, mems, 0, [], io);
      |p.mems| == |mems| && p.rv <= 0 && (p.rv == 0 && !p.crashed ==> |p.io.input| < |io.input|)
  {
    var e := Apply(stages[0].proc, mems[0], [], io);
    if e.ret.Done? {
      PassConsumes(stages, mems[0 := e.mem], 1, e.ret.out, e.io);
    }
  }

  /**
   How a run ends: number of frames, last return value, memories, files, and whether a callback was missing
   or aborted.
   */
  datatype Ended = Ended(frames: nat, rv: int, mems: seq<Memory>, io: Io, crashed: bool)

  /** Passes until one does not return 0. */
  ghost function RunAll(stages: seq<Stage>, mems: seq<Memory>, io: Io): (r: Ended)
    requires FileChain(stages) && |stages| == |mems|
    decreases |io.input|
  {
    var p := Exec(stages, mems, 0, [], io);
    PassProgress(stages, mems, io);
    if p.rv != 0 || p.crashed then Ended(0, p.rv, p.mems, p.io, p.crashed)
    else var r := RunAll(stages, p.mems, p.io); r.(frames := r.frames + 1)
  }

  /** Every pass of the run is safe. */
  ghost predicate SafeRun(stages: seq<Stage>, mems: seq<Memory>, io: Io)
    requires FileChain(stages) && |stages| == |mems|
    decreases |io.input|
  {
    && Safe(stages, mems, 0, [], io)
    && var p := Exec(stages, mems, 0, [], io);
    PassProgress(stages, mems, io);
    (p.rv == 0 && !p.crashed ==> SafeRun(stages, p.mems, p.io))
  }

  lemma {:induction false} KindRunSafe(stages: seq<Stage>, kinds: seq<Kind>, start: Kind, mems: seq<Memory>, io: Io)
    requires KindChain(stages, kinds, start) && FileChain(stages) && |stages| == |mems|
    ensures SafeRun(stages, mems, io)
    decreases |io.input|
  {
    KindSoundness(stages, kinds, start, mems, io);
    PassProgress(stages, mems, io);
    var p := Exec(stages, mems, 0, [], io);
    if p.rv == 0 {
      KindRunSafe(stages, kinds, start, p.mems, p.io);
    }
  }

  // --- The queue --------------------------------------------------------------------------------------

  /** The two open files. */
  class Files {
    var input: seq<byte>
    var output: seq<byte>

    constructor (input: seq<byte>, output: seq<byte>)
      ensures View() == Io(input, output)
    {
      this.input, this.output := input, output;
    }

    ghost function View(): Io
      reads this
    {
      Io(input, output)
    }
  }

  /** `struct osmo_gapk_pq_item` */
  class Item {
    /** Type, lengths and callback. */
    var sig: Stage
    var state: Memory
    var buf: array?<byte>

    /** Zeroed memory: the type of a new item is the first of the enumeration. */
    constructor ()
      ensures sig == Stage(Source, 0, 0, NoProc) && state == [] && buf == null
    {
      sig, state, buf := Stage(Source, 0, 0, NoProc), [], null;
    }

    /** `item->proc(item->state, item->buf, buf_prev, len_prev)`: the answer is written to the item's own buffer. */
    method Process(bufPrev: array?<byte>, lenPrev: nat, files: Files) returns (rv: int)
      requires lenPrev == 0 || (bufPrev != null && lenPrev <= bufPrev.Length)
      requires bufPrev == null || bufPrev != buf
      requires
        var e := Apply(sig.proc, state, if lenPrev == 0 then [] else bufPrev[..lenPrev], files.View());
        e.ret != Abort && (e.ret.Done? && e.ret.out != [] ==> buf != null && |e.ret.out| <= buf.Length)
      modifies this`state, files
      modifies if buf == null then {} else {buf}
      ensures
        var e := old(Apply(sig.proc, state, if lenPrev == 0 then [] else bufPrev[..lenPrev], files.View()));
        && state == e.mem && files.View() == e.io
        && (e.ret.Done? ==> rv == |e.ret.out| && (rv > 0 ==> buf[..rv] == e.ret.out))
        && (e.ret.Error? ==> rv == e.ret.rv)
    {
      var frame := if lenPrev == 0 then [] else bufPrev[..lenPrev];
      var e := Apply(sig.proc, state, frame, Io(files.input, files.output));
      state := e.mem;
      files.input, files.output := e.io.input, e.io.output;
      if e.ret.Error? {
        return e.ret.rv;
      }
      if e.ret.out != [] {
        Memcpy(buf, e.ret.out);
      }
      return |e.ret.out|;
    }
  }

  ghost function StagesOf(items: seq<Item>): (s: seq<Stage>)
    reads items`sig
    ensures |s| == |items| && forall i :: 0 <= i < |items| ==> s[i] == items[i].sig
  {
    if items == [] then [] else StagesOf(items[..|items| - 1]) + [items[|items| - 1].sig]
  }

  ghost function MemoriesOf(items: seq<Item>): (m: seq<Memory>)
    reads items`state
    ensures |m| == |items| && forall i :: 0 <= i < |items| ==> m[i] == items[i].state
  {
    if items == [] then [] else MemoriesOf(items[..|items| - 1]) + [items[|items| - 1].state]
  }

  ghost function BuffersOf(items: seq<Item>): (b: seq<array?<byte>>)
    reads items`buf
    ensures |b| == |items| && forall i :: 0 <= i < |items| ==> b[i] == items[i].buf
  {
    if items == [] then [] else BuffersOf(items[..|items| - 1]) + [items[|items| - 1].buf]
  }

  /** Every item but the sinks has a buffer of its own of the size it declares. */
  ghost predicate Allotted(stages: seq<Stage>, bufs: seq<array?<byte>>) {
    && |stages| == |bufs|
    && (forall i :: 0 <= i < |bufs| ==>
          if stages[i].kind == Sink then bufs[i] == null
          else bufs[i] != null && bufs[i].Length == stages[i].Capacity())
    && (forall i, j :: 0 <= i < j < |bufs| && bufs[i] != null ==> bufs[i] != bufs[j])
  }

  /** `struct osmo_gapk_pq` */
  class Queue {
    var items: seq<Item>
    var nItems: nat

    constructor ()
      ensures Valid() && items == []
    {
      items, nItems := [], 0;
    }

    ghost predicate Valid()
      reads this
    {
      nItems == |items| && forall i, j :: 0 <= i < j < |items| ==> items[i] != items[j]
    }

    ghost function Stages(): (s: seq<Stage>)
      reads this, items`sig
      ensures |s| == |items| && forall i :: 0 <= i < |items| ==> s[i] == items[i].sig
    {
      StagesOf(items)
    }

    ghost function Memories(): (m: seq<Memory>)
      reads this, items`state
      ensures |m| == |items| && forall i :: 0 <= i < |items| ==> m[i] == items[i].state
    {
      MemoriesOf(items)
    }

    ghost function Buffers(): (b: seq<array?<byte>>)
      reads this, items`buf
      ensures |b| == |items| && forall i :: 0 <= i < |items| ==> b[i] == items[i].buf
    {
      BuffersOf(items)
    }

    /** `osmo_gapk_pq_add_item` */
    method AddItem() returns (item: Item)
      requires Valid()
      modifies this
      ensures Valid() && fresh(item) && items == old(items) + [item]
      ensures item.sig == Stage(Source, 0, 0, NoProc) && item.state == [] && item.buf == null
    {
      item := new Item();
      items := items + [item];
      nItems := nItems + 1;
    }

    /** `osmo_gapk_pq_check`; in strict mode the queue must not be empty. */
    method Check(strict: bool) returns (rv: int)
      requires Valid() && (strict ==> items != [])
      ensures rv == if Checked(Stages(), strict) then 0 else EINVAL
      ensures rv == 0 || rv == -22
      ensures rv == 0 <==>
        && (forall i :: 0 < i < |items| && items[i].sig.lenIn != 0 ==> items[i].sig.lenIn == items[i - 1].sig.lenOut)
        && (strict ==> items[0].sig.kind == Source && items[|items| - 1].sig.kind == Sink)
    {
      var prev: Item? := null;
      var i := 0;
      while i < |items|
        invariant 0 <= i <= |items|
        invariant prev == if i == 0 then null else items[i - 1]
        invariant forall j :: 0 < j < i && Stages()[j].lenIn != 0 ==> Stages()[j].lenIn == Stages()[j - 1].lenOut
      {
        var item := items[i];
        if prev != null && item.sig.lenIn != 0 {
          if item.sig.lenIn != prev.sig.lenOut {
            assert Stages()[i].lenIn != Stages()[i - 1].lenOut;
            return EINVAL;
          }
        }
        prev := item;
        i := i + 1;
      }
      if strict {
        if items[0].sig.kind != Source {
          return EINVAL;
        }
        if items[|items| - 1].sig.kind != Sink {
          return EINVAL;
        }
      }
      return 0;
    }

    ghost predicate Prepared()
      reads this, items`sig, items`buf
    {
      Allotted(Stages(), Buffers())
    }

    /** `osmo_gapk_pq_prepare` on a queue that holds no buffers yet. */
    method Prepare() returns (rv: int)
      requires Valid() && forall i :: 0 <= i < |items| ==> items[i].buf == null
      modifies items`buf
      ensures rv == 0 && Prepared() && Stages() == old(Stages()) && Memories() == old(Memories())
      ensures forall i :: 0 <= i < |items| ==>
        if items[i].sig.kind == Sink then items[i].buf == null
        else && items[i].buf != null
             && items[i].buf.Length == if items[i].sig.lenOut == 0 then 320 else items[i].sig.lenOut
      ensures forall i :: 0 <= i < |items| && items[i].buf != null ==> fresh(items[i].buf)
    {
      var i := 0;
      while i < |items|
        invariant 0 <= i <= |items|
        invariant forall j :: 0 <= j < i ==>
          if items[j].sig.kind == Sink then items[j].buf == null
          else items[j].buf != null && items[j].buf.Length == items[j].sig.Capacity() && fresh(items[j].buf)
        invariant forall j, k :: 0 <= j < k < i && items[j].buf != null ==> items[j].buf != items[k].buf
        invariant forall j :: i <= j < |items| ==> items[j].buf == null
      {
        var item := items[i];
        if item.sig.kind != Sink {
          var bufSize := item.sig.lenOut;
          if bufSize == 0 {
            bufSize := VAR_BUF_SIZE;
          }
          item.buf := new byte[bufSize];
        }
        i := i + 1;
      }
      return 0;
    }
  
    /** `osmo_gapk_pq_execute`: one pass over the items, each reading the buffer of the one before. */
    method Execute(files: Files) returns (rv: int)
      requires Valid() && Prepared() && Safe(Stages(), Memories(), 0, [], files.View())
      modifies items`state, files, set b <- Buffers() | b != null
      ensures
        var p := old(Exec(Stages(), Memories(), 0, [], files.View()));
        rv == p.rv && Memories() == p.mems && files.View() == p.io
      ensures Stages() == old(Stages()) && Buffers() == old(Buffers())
    {
      ghost var stages, bufs, mems, io := Stages(), Buffers(), Memories(), files.View();
      ghost var all := Exec(stages, mems, 0, [], io);
      ghost var frame: seq<byte> := [];
      var lenPrev := 0;
      var bufPrev: array?<byte> := null;
      var i := 0;
      while i < |items|
        invariant 0 <= i <= |items| && bufPrev == Before(Buffers(), i) && Holds(bufPrev, lenPrev, frame)
        invariant Stages() == stages && Buffers() == bufs && Memories() == mems && files.View() == io
        invariant Reached(all, stages, mems, i, frame, io)
      {
        ghost var e := Apply(stages[i].proc, mems[i], frame, io);
        OneItem(all, stages, mems, i, frame, io, e);
        rv := ProcessItem(i, bufPrev, lenPrev, files, frame, e);
        mems, io := mems[i := e.mem], e.io;
        if rv < 0 {
          return;
        }
        frame := e.ret.out;
        bufPrev := items[i].buf;
        lenPrev := rv;
        i := i + 1;
      }
      return 0;
    }

    /** One turn of the loop: only the memory and the buffer of item `i` and the files change. */
    method ProcessItem(
      i: nat, bufPrev: array?<byte>, lenPrev: nat, files: Files, ghost frame: seq<byte>, ghost e: Effect)
      returns (rv: int)
      requires Valid() && Prepared() && i < |items| && bufPrev == Before(Buffers(), i) && Holds(bufPrev, lenPrev, frame)
      requires e == Apply(items[i].sig.proc, items[i].state, frame, files.View()) && e.ret != Abort
      requires e.ret.Done? ==> |e.ret.out| <= items[i].sig.Capacity()
      modifies {items[i]}`state, files
      modifies if items[i].buf == null then {} else {items[i].buf}
      ensures Memories() == old(Memories())[i := e.mem] && files.View() == e.io
      ensures Stages() == old(Stages()) && Buffers() == old(Buffers())
      ensures if e.ret.Done? then rv >= 0 && Holds(items[i].buf, rv, e.ret.out) else rv == e.ret.rv
    {
      rv := items[i].Process(bufPrev, lenPrev, files);
      ShapeKept();
    }

    /** The shape of a queue depends on nothing a pass changes. */
    twostate lemma ShapeKept()
      requires items == old(items)
      requires forall k :: 0 <= k < |items| ==> items[k].sig == old(items[k].sig) && items[k].buf == old(items[k].buf)
      ensures Stages() == old(Stages()) && Buffers() == old(Buffers())
    {
    }
  }

  /** The buffer that item `i` reads. */
  ghost function Before(bufs: seq<array?<byte>>, i: nat): array?<byte>
    requires i <= |bufs|
  {
    if i == 0 then null else bufs[i - 1]
  }

  /** The first `len` bytes of a buffer are `frame`; a buffer is only needed for a frame that is not empty. */
  ghost predicate Holds(buf: array?<byte>, len: nat, frame: seq<byte>)
    reads if buf == null then {} else {buf}
  {
    len == |frame| && (len > 0 ==> buf != null && len <= buf.Length && buf[..len] == frame)
  }
}
