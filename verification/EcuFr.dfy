/**
 src/ecu_fr.c: error concealment for full rate, as a step machine over the concealment routines of
 libosmocodec, and what it does over whole frame sequences.
 */
module EcuFr {
  import opened Bits
  import opened Frames

  /** The memory of a `struct osmo_ecu_fr_state`. */
  type Image = seq<byte>

  /** What `osmo_ecu_fr_conceal` leaves behind: return code, state, output frame. */
  datatype Concealed = Concealed(rc: int, state: Image, frame: seq<byte>)

  /** The library: `osmo_ecu_fr_reset`, `osmo_ecu_fr_conceal` and the field `frame_backup`. */
  datatype Library = Library(
    reset: (Image, seq<byte>) -> Image,
    conceal: Image -> Concealed,
    backup: Image -> seq<byte>)

  predicate NonZero(s: seq<byte>) {
    exists i :: 0 <= i < |s| && s[i] != 0
  }

  /** Not a bad frame: some byte other than the first is set. */
  predicate Good(frame: seq<byte>) {
    exists i :: 1 <= i < |frame| && frame[i] != 0
  }

  /** The backup and the concealed frame are full-rate frames. */
  ghost predicate Shaped(lib: Library) {
    && (forall s :: |lib.backup(s)| == FR_CANON_LEN)
    && (forall s :: |lib.conceal(s).frame| == FR_CANON_LEN)
  }

  /** What the machine relies on over a run. */
  ghost predicate Sound(lib: Library) {
    && Shaped(lib)
    // a reset stores the frame and forgets everything else
    && (forall s, f {:trigger lib.reset(s, f)} :: |f| == FR_CANON_LEN ==> lib.backup(lib.reset(s, f)) == f)
    && (forall s, t, f :: lib.reset(s, f) == lib.reset(t, f))
    // concealing succeeds and leaves something to conceal with
    && (forall s {:trigger lib.conceal(s)} :: NonZero(lib.backup(s)) ==>
          lib.conceal(s).rc == 0 && NonZero(lib.backup(lib.conceal(s).state)))
  }

  datatype Outcome = Outcome(state: Image, rv: int, frame: seq<byte>)

  /** One call of `ecu_proc_fr`. */
  function Step(lib: Library, s: Image, frame: seq<byte>): (r: Outcome) {
    if Good(frame) then Outcome(lib.reset(s, frame), |frame|, frame)
    else if !NonZero(lib.backup(s)) then Outcome(s, |frame|, frame)
    else
      var c := lib.conceal(s);
      Outcome(c.state, if c.rc != 0 then c.rc else |frame|, c.frame)
  }

  lemma GoodIs(frame: seq<byte>)
    requires |frame| == 33
    ensures Good(frame) <==> frame[1..] != Zeros(32)
  {
    if !Good(frame) {
      assert frame[1..] == Zeros(32);
    }
    forall i | 1 <= i < |frame| && frame[i] != 0 ensures frame[1..] != Zeros(32) {
      assert frame[i] == frame[1..][i - 1] != Zeros(32)[i - 1];
    }
  }

  lemma NonZeroIs(s: seq<byte>)
    ensures NonZero(s) <==> s != Zeros(|s|)
  {
    if !NonZero(s) {
      assert s == Zeros(|s|);
    }
    forall i | 0 <= i < |s| && s[i] != 0 ensures s != Zeros(|s|) {
      assert s[i] != Zeros(|s|)[i];
    }
  }

  /** The step on any frame of 33 bytes: only the first byte of a bad frame may be set. */
  lemma StepIs(lib: Library, s: Image, frame: seq<byte>)
    requires |frame| == 33 && |lib.backup(s)| == 33
    ensures frame[1..] != Zeros(32) ==> Step(lib, s, frame) == Outcome(lib.reset(s, frame), 33, frame)
    ensures frame[1..] == Zeros(32) && lib.backup(s) == Zeros(33) ==> Step(lib, s, frame) == Outcome(s, 33, frame)
    ensures frame[1..] == Zeros(32) && lib.backup(s) != Zeros(33) ==>
      var c := lib.conceal(s);
      Step(lib, s, frame) == Outcome(c.state, if c.rc != 0 then c.rc else 33, c.frame)
  {
    GoodIs(frame);
    NonZeroIs(lib.backup(s));
  }

  class Unit {
    const lib: Library
    var state: Image

    constructor (lib: Library, zeroed: Image)
      ensures this.lib == lib && state == zeroed
    {
      this.lib, state := lib, zeroed;
    }

    method Proc(out: array<byte>, frame: seq<byte>) returns (rv: int)
      requires |frame| == FR_CANON_LEN && out.Length >= FR_CANON_LEN && Shaped(lib)
      modifies this`state, out
      ensures var r := Step(lib, old(state), frame);
        state == r.state && rv == r.rv && out[..] == r.frame + old(out[..][FR_CANON_LEN..])
      ensures frame[1..] != Zeros(32) ==>
        state == lib.reset(old(state), frame) && rv == 33 && out[..] == frame + old(out[..][33..])
      ensures frame[1..] == Zeros(32) && lib.backup(old(state)) == Zeros(33) ==>
        state == old(state) && rv == 33 && out[..] == frame + old(out[..][33..])
      ensures frame[1..] == Zeros(32) && lib.backup(old(state)) != Zeros(33) ==>
        var c := lib.conceal(old(state));
        && state == c.state && rv == (if c.rc != 0 then c.rc else 33)
        && out[..] == c.frame + old(out[..][33..])
    {
      StepIs(lib, state, frame);
      var bfi := true;
      var i := 1;
      while i < |frame|
        invariant 1 <= i <= |frame| && bfi
        invariant forall j :: 1 <= j < i ==> frame[j] == 0
      {
        if frame[i] != 0x00 {
          bfi := false;
          break;
        }
        i := i + 1;
      }
      if !bfi {
        state := lib.reset(state, frame);
        Memcpy(out, frame);
        return |frame|;
      }
      var kept := lib.backup(state);
      var backup := false;
      i := 0;
      while i < |frame|
        invariant 0 <= i <= |frame| && !backup
        invariant forall j :: 0 <= j < i ==> kept[j] == 0
      {
        if kept[i] != 0x00 {
          backup := true;
          break;
        }
        i := i + 1;
      }
      if !backup {
        Memcpy(out, frame);
        return |frame|;
      }
      var c := lib.conceal(state);
      state := c.state;
      Memcpy(out, c.frame);
      if c.rc != 0 {
        return c.rc;
      }
      return |frame|;
    }
  }

  /** The state after a sequence of frames. */
  function After(lib: Library, s: Image, frames: seq<seq<byte>>): Image {
    if frames == [] then s
    else var k := |frames| - 1; Step(lib, After(lib, s, frames[..k]), frames[k]).state
  }

  /** The outcome of the last frame of a sequence. */
  function Last(lib: Library, s: Image, frames: seq<seq<byte>>): Outcome
    requires frames != []
  {
    var k := |frames| - 1;
    Step(lib, After(lib, s, frames[..k]), frames[k])
  }

  /** `k` concealments in a row. */
  function Iterate(lib: Library, s: Image, k: nat): Image {
    if k == 0 then s else lib.conceal(Iterate(lib, s, k - 1)).state
  }

  /** How many frames ago the last good one was, or -1 if there was none. */
  function SinceGood(frames: seq<seq<byte>>): (n: int)
    ensures -1 <= n < |frames|
    ensures n >= 0 ==> Good(frames[|frames| - 1 - n])
    ensures forall j :: (if n < 0 then 0 else |frames| - n) <= j < |frames| ==> !Good(frames[j])
  {
    if frames == [] then -1
    else
      var k := |frames| - 1;
      if Good(frames[k]) then 0
      else var n := SinceGood(frames[..k]); if n < 0 then -1 else n + 1
  }

  ghost predicate AllFrames(frames: seq<seq<byte>>) {
    forall i :: 0 <= i < |frames| ==> |frames[i]| == FR_CANON_LEN
  }

  /** The state knows the last good frame and how often it has been concealed since, and nothing else. */
  lemma {:induction false} StateIs(lib: Library, s: Image, frames: seq<seq<byte>>)
    requires Sound(lib) && AllFrames(frames) && !NonZero(lib.backup(s))
    ensures var n := SinceGood(frames);
      if n < 0 then After(lib, s, frames) == s
      else After(lib, s, frames) == Iterate(lib, lib.reset(s, frames[|frames| - 1 - n]), n)
           && NonZero(lib.backup(After(lib, s, frames)))
  {
    if frames == [] {
    } else {
      var k := |frames| - 1;
      var s' := After(lib, s, frames[..k]);
      StateIs(lib, s, frames[..k]);
      if Good(frames[k]) {
        assert lib.reset(s', frames[k]) == lib.reset(s, frames[k]);
        var i :| 1 <= i < |frames[k]| && frames[k][i] != 0;
        assert NonZero(frames[k]);
      } else if SinceGood(frames[..k]) >= 0 {
        assert NonZero(lib.backup(lib.conceal(s').state));
      }
    }
  }

  /** The state that the last frame meets: untouched, or so many concealments after the last good frame. */
  ghost predicate Met(lib: Library, s: Image, frames: seq<seq<byte>>) {
    frames != [] &&
    var k, n := |frames| - 1, SinceGood(frames);
    var met := After(lib, s, frames[..k]);
    n != 0 ==>
      if n < 0 then !NonZero(lib.backup(met))
      else
        && met == Iterate(lib, lib.reset(s, frames[k - n]), n - 1)
        && NonZero(lib.backup(met)) && lib.conceal(met).rc == 0
  }

  lemma LastMeets(lib: Library, s: Image, frames: seq<seq<byte>>)
    requires Sound(lib) && AllFrames(frames) && !NonZero(lib.backup(s)) && frames != []
    ensures Met(lib, s, frames)
  {
    var k := |frames| - 1;
    var before := frames[..k];
    StateIs(lib, s, before);
    var n := SinceGood(before);
    if !Good(frames[k]) && n >= 0 {
      assert SinceGood(frames) == n + 1 && before[k - 1 - n] == frames[k - (n + 1)];
      assert NonZero(lib.backup(After(lib, s, before)));
    }
  }

  lemma MetGives(lib: Library, s: Image, frames: seq<seq<byte>>)
    requires AllFrames(frames) && Met(lib, s, frames)
    ensures var k := |frames| - 1; var n := SinceGood(frames); var r := Last(lib, s, frames);
      && r.rv == FR_CANON_LEN
      && r.frame == if n <= 0 then frames[k]
                    else lib.conceal(Iterate(lib, lib.reset(s, frames[k - n]), n - 1)).frame
  {
    var n := SinceGood(frames);
    assert Good(frames[|frames| - 1]) <==> n == 0;
  }

  /**
   What comes out for the last of any sequence of frames, started from a cleared state: a good frame
   passes, a bad frame before any good one passes, and the k-th bad frame in a row after a good one is
   the k-th concealment of that frame, whatever came before.
   */
  lemma OutputIs(lib: Library, s: Image, frames: seq<seq<byte>>)
    requires Sound(lib) && AllFrames(frames) && !NonZero(lib.backup(s)) && frames != []
    ensures var k := |frames| - 1; var n := SinceGood(frames); var r := Last(lib, s, frames);
      && r.rv == FR_CANON_LEN
      && r.frame == if n <= 0 then frames[k]
                    else lib.conceal(Iterate(lib, lib.reset(s, frames[k - n]), n - 1)).frame
  {
    LastMeets(lib, s, frames);
    MetGives(lib, s, frames);
  }

  lemma {:induction false} SinceGoodIs(past: seq<seq<byte>>, good: seq<byte>, bads: seq<seq<byte>>)
    requires Good(good) && forall i :: 0 <= i < |bads| ==> !Good(bads[i])
    ensures SinceGood(past + [good] + bads) == |bads|
    decreases |bads|
  {
    var frames := past + [good] + bads;
    if bads == [] {
      assert frames[|frames| - 1] == good;
    } else {
      var k := |bads| - 1;
      SinceGoodIs(past, good, bads[..k]);
      assert frames[..|frames| - 1] == past + [good] + bads[..k];
      assert frames[|frames| - 1] == bads[k];
    }
  }

  lemma {:induction false} NeverGoodIs(bads: seq<seq<byte>>)
    requires forall i :: 0 <= i < |bads| ==> !Good(bads[i])
    ensures SinceGood(bads) == -1
  {
    if bads == [] {
    } else {
      NeverGoodIs(bads[..|bads| - 1]);
    }
  }

  /**
   In terms of bytes.  Whatever came before, a frame with anything set behind its first byte passes and
   becomes the backup; after that, the k-th frame in a row with nothing set behind its first byte is
   answered with the k-th concealment; and without such a frame before them, those pass.
   */
  lemma Concealment(
    lib: Library, s: Image, past: seq<seq<byte>>, good: seq<byte>, bads: seq<seq<byte>>)
    requires Sound(lib) && AllFrames(past) && lib.backup(s) == Zeros(33)
    requires |good| == 33 && good[1..] != Zeros(32)
    requires forall i :: 0 <= i < |bads| ==> |bads[i]| == 33 && bads[i][1..] == Zeros(32)
    ensures var r := Last(lib, s, past + [good]); r.rv == 33 && r.frame == good && lib.backup(r.state) == good
    ensures bads != [] ==>
      var r := Last(lib, s, past + [good] + bads);
      r.rv == 33 && r.frame == lib.conceal(Iterate(lib, lib.reset(s, good), |bads| - 1)).frame
    ensures bads != [] ==> var r := Last(lib, s, bads); r.rv == 33 && r.frame == bads[|bads| - 1]
  {
    GoodIs(good);
    forall i | 0 <= i < |bads| ensures !Good(bads[i]) {
      GoodIs(bads[i]);
    }
    NonZeroIs(lib.backup(s));
    GoodPasses(lib, s, past, good);
    if bads != [] {
      BadConcealed(lib, s, past, good, bads);
      NeverGoodIs(bads);
      OutputIs(lib, s, bads);
    }
  }

  lemma GoodPasses(lib: Library, s: Image, past: seq<seq<byte>>, good: seq<byte>)
    requires Sound(lib) && |good| == 33 && Good(good)
    ensures var r := Last(lib, s, past + [good]); r.rv == 33 && r.frame == good && lib.backup(r.state) == good
  {
    assert (past + [good])[..|past|] == past;
  }

  lemma BadConcealed(lib: Library, s: Image, past: seq<seq<byte>>, good: seq<byte>, bads: seq<seq<byte>>)
    requires Sound(lib) && AllFrames(past + [good] + bads) && !NonZero(lib.backup(s)) && bads != []
    requires Good(good) && forall i :: 0 <= i < |bads| ==> !Good(bads[i])
    ensures var r := Last(lib, s, past + [good] + bads);
      r.rv == 33 && r.frame == lib.conceal(Iterate(lib, lib.reset(s, good), |bads| - 1)).frame
  {
    var frames := past + [good] + bads;
    SinceGoodIs(past, good, bads);
    OutputIs(lib, s, frames);
    assert frames[|frames| - 1 - |bads|] == good;
  }

  /** Two receivers with different pasts agree from the first common good frame on. */
  lemma HistoryForgotten(lib: Library, s: Image, past: seq<seq<byte>>, past': seq<seq<byte>>, tail: seq<seq<byte>>)
    requires Sound(lib) && tail != [] && Good(tail[0])
    ensures After(lib, s, past + tail) == After(lib, s, past' + tail)
    ensures Last(lib, s, past + tail).frame == Last(lib, s, past' + tail).frame
    decreases |tail|
  {
    var k := |tail| - 1;
    assert (past + tail)[..|past| + k] == past + tail[..k];
    assert (past' + tail)[..|past'| + k] == past' + tail[..k];
    if k > 0 {
      HistoryForgotten(lib, s, past, past', tail[..k]);
    }
  }

  /** The contract can be met: keep the frame, repeat it for ever. */
  lemma SoundLibraryExists()
    ensures exists lib: Library :: Sound(lib)
  {
    var keep := (s: Image) => if |s| == FR_CANON_LEN then s else Zeros(FR_CANON_LEN);
    var lib := Library((s, f) => f, (s: Image) => Concealed(0, s, keep(s)), keep);
    assert Sound(lib);
  }
}
