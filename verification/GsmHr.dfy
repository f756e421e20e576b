/**
 libgsmhr/libgsmhr.c: many half-rate codec instances on top of reference code that keeps all of its state
 in global variables.  Every call copies the instance's image of that memory in, runs, and copies it out.
 */
module GsmHr {
  import opened Bits

  /** The memory between `__bss_start` and `_end`. */
  type Image = seq<byte>
  /** 160 PCM samples, or the words of a parameter frame. */
  type Samples = seq<int>

  const F_LEN: nat := 160
  const WHOLE_FRAME: nat := 18
  const TO_FIRST_SUBFRAME: nat := 9

  datatype Encoded = Encoded(image: Image, params: Samples)
  /** `speechDecoder` works on a copy of the parameters and may change it. */
  datatype Decoded = Decoded(image: Image, pcm: Samples, params: Samples)

  /** The reference code, each routine as a function of the global memory it runs on. */
  datatype Codec = Codec(
    resetDec: Image -> Image,
    resetEnc: Image -> Image,
    speechEncoder: (Image, Samples) -> Encoded,
    speechDecoder: (Image, Samples) -> Decoded,
    encoderHoming: Samples -> bool,
    decoderHoming: (Samples, nat) -> bool,
    ehfMask: int)

  /** `struct gsmhr` */
  datatype Inst = Inst(decReset: bool, save: Image)

  datatype Op = Encode(pcm: Samples) | Decode(params: Samples)

  /** The global memory after a call, the instance after it, and what the call returned. */
  datatype Effect = Effect(bss: Image, inst: Inst, out: Samples)

  /** One call on an instance: restore, run, save.  What the global memory held before is overwritten at once. */
  function Call(c: Codec, inst: Inst, op: Op): Effect {
    var start := inst.save;
    match op
    case Encode(pcm) =>
      var e := c.speechEncoder(start, pcm);
      var end := if c.encoderHoming(pcm) then c.resetEnc(e.image) else e.image;
      Effect(end, inst.(save := end), e.params)
    case Decode(params) =>
      var homed := inst.decReset && c.decoderHoming(params, TO_FIRST_SUBFRAME);
      var d := if homed then Decoded(start, Ehf(c), params) else c.speechDecoder(start, params);
      var reset := if inst.decReset then homed else c.decoderHoming(d.params, WHOLE_FRAME);
      var end := if reset then c.resetDec(d.image) else d.image;
      Effect(end, Inst(reset, end), d.pcm)
  }

  /** A frame of encoder homing samples. */
  function Ehf(c: Codec): Samples {
    seq(F_LEN, _ => c.ehfMask)
  }

  function Fresh(c: Codec, bss: Image): Inst {
    Inst(true, c.resetEnc(c.resetDec(bss)))
  }

  // --- The library ----------------------------------------------------------------------------------

  class Instance {
    var decReset: bool
    var bssSave: Image

    ghost function View(): Inst
      reads this
    {
      Inst(decReset, bssSave)
    }
  }

  class Library {
    const codec: Codec
    var bss: Image

    constructor (codec: Codec, bss: Image)
      ensures this.codec == codec && this.bss == bss
    {
      this.codec, this.bss := codec, bss;
    }

    /** `gsmhr_init` */
    method Init() returns (state: Instance)
      modifies this`bss
      ensures fresh(state) && state.View() == Fresh(codec, old(bss)) && bss == state.bssSave
      ensures state.decReset && state.bssSave == codec.resetEnc(codec.resetDec(old(bss)))
    {
      state := new Instance;
      state.decReset := true;
      bss := codec.resetDec(bss);
      bss := codec.resetEnc(bss);
      state.bssSave := bss;
    }

    /** `gsmhr_encode` */
    method Encode(state: Instance, pcm: Samples) returns (hrParams: Samples)
      modifies this`bss, state
      ensures Effect(bss, state.View(), hrParams) == Call(codec, old(state.View()), Op.Encode(pcm))
      ensures var e := codec.speechEncoder(old(state.bssSave), pcm);
        && hrParams == e.params && state.decReset == old(state.decReset)
        && bss == state.bssSave == if codec.encoderHoming(pcm) then codec.resetEnc(e.image) else e.image
    {
      bss := state.bssSave;
      var encResetFlag := codec.encoderHoming(pcm);
      var e := codec.speechEncoder(bss, pcm);
      bss := e.image;
      hrParams := e.params;
      if encResetFlag {
        bss := codec.resetEnc(bss);
      }
      state.bssSave := bss;
    }

    /** `gsmhr_decode` */
    method Decode(state: Instance, hrParams: Samples) returns (pcm: Samples)
      modifies this`bss, state
      ensures Effect(bss, state.View(), pcm) == Call(codec, old(state.View()), Op.Decode(hrParams))
      ensures bss == state.bssSave
      ensures old(state.decReset) && codec.decoderHoming(hrParams, 9) ==>
        && pcm == seq(160, _ => codec.ehfMask) && state.decReset
        && state.bssSave == codec.resetDec(old(state.bssSave))
      ensures old(state.decReset) && !codec.decoderHoming(hrParams, 9) ==>
        var d := codec.speechDecoder(old(state.bssSave), hrParams);
        pcm == d.pcm && !state.decReset && state.bssSave == d.image
      ensures !old(state.decReset) ==>
        var d := codec.speechDecoder(old(state.bssSave), hrParams);
        && pcm == d.pcm && state.decReset == codec.decoderHoming(d.params, 18)
        && state.bssSave == if state.decReset then codec.resetDec(d.image) else d.image
    {
      bss := state.bssSave;
      var params := hrParams;
      var decResetFlag := false;
      if state.decReset {
        decResetFlag := codec.decoderHoming(params, TO_FIRST_SUBFRAME);
      }
      if decResetFlag && state.decReset {
        pcm := Ehf(codec);
      } else {
        var d := codec.speechDecoder(bss, params);
        bss := d.image;
        pcm := d.pcm;
        params := d.params;
      }
      if !state.decReset {
        decResetFlag := codec.decoderHoming(params, WHOLE_FRAME);
      }
      if decResetFlag {
        bss := codec.resetDec(bss);
      }
      state.decReset := decResetFlag;
      state.bssSave := bss;
    }
  }

  // --- Any number of instances, any interleaving ----------------------------------------------------

  datatype System = System(bss: Image, insts: map<nat, Inst>)

  /** A call of the library: `gsmhr_init` giving instance `id`, or an operation on it. */
  datatype Event = Init(id: nat) | Use(id: nat, op: Op)

  function Step(c: Codec, sys: System, e: Event): System {
    match e
    case Init(id) =>
      var inst := Fresh(c, sys.bss);
      System(inst.save, sys.insts[id := inst])
    case Use(id, op) =>
      if id !in sys.insts then sys
      else
        var r := Call(c, sys.insts[id], op);
        System(r.bss, sys.insts[id := r.inst])
  }

  function Run(c: Codec, sys: System, es: seq<Event>): System {
    if es == [] then sys else Step(c, Run(c, sys, es[..|es| - 1]), es[|es| - 1])
  }

  /** What the calls on instance `id` returned, in order. */
  function Outputs(c: Codec, sys: System, es: seq<Event>, id: nat): seq<Samples> {
    if es == [] then []
    else
      var k := |es| - 1;
      var before := Run(c, sys, es[..k]);
      Outputs(c, sys, es[..k], id) +
      if es[k].Use? && es[k].id == id && id in before.insts
      then [Call(c, before.insts[id], es[k].op).out] else []
  }

  /** The operations on instance `id`. */
  function Own(es: seq<Event>, id: nat): seq<Op> {
    if es == [] then []
    else
      var k := |es| - 1;
      Own(es[..k], id) + if es[k].Use? && es[k].id == id then [es[k].op] else []
  }

  /** One instance with the library all to itself. */
  function Solo(c: Codec, inst: Inst, ops: seq<Op>): Inst {
    if ops == [] then inst
    else
      var k := |ops| - 1;
      Call(c, Solo(c, inst, ops[..k]), ops[k]).inst
  }

  function SoloOutputs(c: Codec, inst: Inst, ops: seq<Op>): seq<Samples> {
    if ops == [] then []
    else
      var k := |ops| - 1;
      SoloOutputs(c, inst, ops[..k]) + [Call(c, Solo(c, inst, ops[..k]), ops[k]).out]
  }

  ghost predicate NeverInit(es: seq<Event>, id: nat) {
    forall i :: 0 <= i < |es| ==> es[i] != Init(id)
  }

  /**
   Non-interference: whatever other instances are created and used in between, an instance ends in the
   state, and its calls return the results, of the same operations made on it alone.
   */
  lemma {:induction false} NonInterference(c: Codec, sys: System, es: seq<Event>, id: nat)
    requires id in sys.insts && NeverInit(es, id)
    ensures id in Run(c, sys, es).insts
    ensures Run(c, sys, es).insts[id] == Solo(c, sys.insts[id], Own(es, id))
    ensures Outputs(c, sys, es, id) == SoloOutputs(c, sys.insts[id], Own(es, id))
  {
    if es == [] {
    } else {
      var k := |es| - 1;
      NonInterference(c, sys, es[..k], id);
      var own := Own(es[..k], id);
      if es[k].Use? && es[k].id == id {
        assert Own(es, id)[..|own|] == own;
      } else {
        assert es[k] != Init(id);
        assert Own(es, id) == own;
      }
    }
  }

  /** If resetting leaves nothing of the old memory, it does not matter either when an instance was created. */
  lemma CreationTimeIrrelevant(c: Codec, sys: System, sys': System, es: seq<Event>, es': seq<Event>, id: nat)
    requires forall a, b :: c.resetEnc(c.resetDec(a)) == c.resetEnc(c.resetDec(b))
    requires NeverInit(es, id) && NeverInit(es', id) && Own(es, id) == Own(es', id)
    ensures var s, s' := Step(c, sys, Init(id)), Step(c, sys', Init(id));
      Outputs(c, s, es, id) == Outputs(c, s', es', id)
  {
    NonInterference(c, Step(c, sys, Init(id)), es, id);
    NonInterference(c, Step(c, sys', Init(id)), es', id);
  }

  // --- Encoding -------------------------------------------------------------------------------------

  /** The image that the encoder leaves after a number of blocks, one on top of the other. */
  function Running(c: Codec, image: Image, blocks: seq<Samples>): Image {
    if blocks == [] then image
    else var k := |blocks| - 1; c.speechEncoder(Running(c, image, blocks[..k]), blocks[k]).image
  }

  function Encoding(blocks: seq<Samples>): (ops: seq<Op>)
    ensures |ops| == |blocks| && forall i :: 0 <= i < |ops| ==> ops[i] == Op.Encode(blocks[i])
  {
    seq(|blocks|, i requires 0 <= i < |blocks| => Op.Encode(blocks[i]))
  }

  lemma {:induction false} EncodingRuns(c: Codec, inst: Inst, ops: seq<Op>, blocks: seq<Samples>)
    requires forall i :: 0 <= i < |blocks| ==> !c.encoderHoming(blocks[i])
    ensures Solo(c, inst, ops + Encoding(blocks)).save == Running(c, Solo(c, inst, ops).save, blocks)
    ensures Solo(c, inst, ops + Encoding(blocks)).decReset == Solo(c, inst, ops).decReset
    decreases |blocks|
  {
    var all := ops + Encoding(blocks);
    if blocks == [] {
      assert all == ops;
    } else {
      var k := |blocks| - 1;
      assert all[..|all| - 1] == ops + Encoding(blocks[..k]) && all[|all| - 1] == Op.Encode(blocks[k]);
      EncodingRuns(c, inst, ops, blocks[..k]);
    }
  }

  /**
   What encoding returns, after any history: the parameters that the encoder computes on the image left by
   the blocks since the last homing block, and that image was reset behind the homing block, there and
   nowhere else.
   */
  lemma EncoderRuns(c: Codec, inst: Inst, past: seq<Op>, home: Samples, blocks: seq<Samples>, pcm: Samples)
    requires c.encoderHoming(home) && forall i :: 0 <= i < |blocks| ==> !c.encoderHoming(blocks[i])
    ensures var start := c.resetEnc(c.speechEncoder(Solo(c, inst, past).save, home).image);
      var before := Solo(c, inst, past + [Op.Encode(home)] + Encoding(blocks));
      var r, e := Call(c, before, Op.Encode(pcm)), c.speechEncoder(Running(c, start, blocks), pcm);
      && r.out == e.params && r.bss == r.inst.save
      && r.inst == Inst(Solo(c, inst, past).decReset, if c.encoderHoming(pcm) then c.resetEnc(e.image) else e.image)
  {
    var ops := past + [Op.Encode(home)];
    assert ops[..|past|] == past;
    EncodingRuns(c, inst, ops, blocks);
  }

  /** The same from the creation of the instance on, before any homing block. */
  lemma EncoderStarts(c: Codec, bss: Image, blocks: seq<Samples>, pcm: Samples)
    requires forall i :: 0 <= i < |blocks| ==> !c.encoderHoming(blocks[i])
    ensures var start := c.resetEnc(c.resetDec(bss));
      var r := Call(c, Solo(c, Fresh(c, bss), Encoding(blocks)), Op.Encode(pcm));
      var e := c.speechEncoder(Running(c, start, blocks), pcm);
      && r.out == e.params && r.bss == r.inst.save
      && r.inst == Inst(true, if c.encoderHoming(pcm) then c.resetEnc(e.image) else e.image)
  {
    assert [] + Encoding(blocks) == Encoding(blocks);
    EncodingRuns(c, Fresh(c, bss), [], blocks);
  }

  // --- Decoder homing -------------------------------------------------------------------------------

  function Decoding(ops: seq<Op>): seq<Samples> {
    if ops == [] then []
    else
      var k := |ops| - 1;
      Decoding(ops[..k]) + if ops[k].Decode? then [ops[k].params] else []
  }

  /** A homing frame also matches as far as its first subframe, and decoding leaves the parameters alone. */
  ghost predicate HomingSound(c: Codec) {
    && (forall p :: c.decoderHoming(p, WHOLE_FRAME) ==> c.decoderHoming(p, TO_FIRST_SUBFRAME))
    && (forall s, p :: c.speechDecoder(s, p).params == p)
  }

  /** From round `j` on, counting the start as round 0, the decoder has been fed homing frames only. */
  ghost predicate HomeSince(c: Codec, ps: seq<Samples>, j: nat) {
    && j <= |ps| && (j == 0 || c.decoderHoming(ps[j - 1], WHOLE_FRAME))
    && forall k :: j <= k < |ps| ==> c.decoderHoming(ps[k], TO_FIRST_SUBFRAME)
  }

  ghost predicate Home(c: Codec, ps: seq<Samples>) {
    exists j: nat :: HomeSince(c, ps, j)
  }

  /** One more frame. */
  lemma HomeStep(c: Codec, ps: seq<Samples>, p: Samples)
    requires HomingSound(c)
    ensures Home(c, ps + [p]) <==>
      c.decoderHoming(p, WHOLE_FRAME) || (Home(c, ps) && c.decoderHoming(p, TO_FIRST_SUBFRAME))
  {
    var qs := ps + [p];
    if c.decoderHoming(p, WHOLE_FRAME) {
      assert HomeSince(c, qs, |qs|);
    } else if Home(c, ps) && c.decoderHoming(p, TO_FIRST_SUBFRAME) {
      var j: nat :| HomeSince(c, ps, j);
      assert HomeSince(c, qs, j);
    }
    if Home(c, qs) {
      var j: nat :| HomeSince(c, qs, j);
      if j < |qs| {
        assert forall k :: 0 <= k < |ps| ==> qs[k] == ps[k];
        assert HomeSince(c, ps, j);
        assert qs[|ps|] == p;
      }
    }
  }

  /**
   The reset flag over any history of a new instance: it is set exactly when the instance is new, or was
   last homed by a whole homing frame, and has seen nothing but homing frames since.
   */
  lemma {:induction false} HomingFlag(c: Codec, image: Image, ops: seq<Op>)
    requires HomingSound(c)
    ensures Solo(c, Inst(true, image), ops).decReset <==> Home(c, Decoding(ops))
  {
    if ops == [] {
      assert HomeSince(c, [], 0);
    } else {
      var k := |ops| - 1;
      HomingFlag(c, image, ops[..k]);
      if ops[k].Decode? {
        HomeStep(c, Decoding(ops[..k]), ops[k].params);
      } else {
        assert Decoding(ops) == Decoding(ops[..k]);
      }
    }
  }

  /** As long as the flag stays set, the decoder's answer is a frame of homing samples and nothing is decoded. */
  lemma HomedOutput(c: Codec, image: Image, ops: seq<Op>, params: Samples)
    requires HomingSound(c)
    ensures var ps := Decoding(ops); var inst := Solo(c, Inst(true, image), ops);
      var r := Call(c, inst, Decode(params));
      if Home(c, ps) && Home(c, ps + [params])
      then r.out == Ehf(c) && r.bss == c.resetDec(inst.save)
      else r.out == c.speechDecoder(inst.save, params).pcm
  {
    HomingFlag(c, image, ops);
    HomeStep(c, Decoding(ops), params);
  }

  /** From the start, or from a whole homing frame on, all parameter frames match as far as the first subframe. */
  ghost predicate AtHome(c: Codec, ps: seq<Samples>) {
    exists j: nat :: j <= |ps| && (j == 0 || c.decoderHoming(ps[j - 1], 18)) && HomingTail(c, ps, j)
  }

  ghost predicate HomingTail(c: Codec, ps: seq<Samples>, j: nat) {
    forall k :: j <= k < |ps| ==> c.decoderHoming(ps[k], 9)
  }

  lemma AtHomeIs(c: Codec, ps: seq<Samples>)
    ensures AtHome(c, ps) <==> Home(c, ps)
  {
    if AtHome(c, ps) {
      var j: nat :| j <= |ps| && (j == 0 || c.decoderHoming(ps[j - 1], 18)) && HomingTail(c, ps, j);
      assert HomeSince(c, ps, j);
    }
    if Home(c, ps) {
      var j: nat :| HomeSince(c, ps, j);
      assert HomingTail(c, ps, j);
    }
  }

  /**
   A decoding call in full, on an instance with any history since its creation.  At home, a frame that matches
   up to its first subframe is answered with 160 homing samples and resets the decoder; any other frame is
   decoded, and a whole homing frame away from home resets the decoder behind it.
   */
  lemma DecoderRuns(c: Codec, bss: Image, ops: seq<Op>, params: Samples)
    requires HomingSound(c)
    ensures var inst := Solo(c, Fresh(c, bss), ops); var home := AtHome(c, Decoding(ops));
      var r, d := Call(c, inst, Decode(params)), c.speechDecoder(inst.save, params);
      && inst.decReset == home
      && r.bss == r.inst.save
      && (home && c.decoderHoming(params, 9) ==>
            r.out == seq(160, _ => c.ehfMask) && r.inst == Inst(true, c.resetDec(inst.save)))
      && (home && !c.decoderHoming(params, 9) ==> r.out == d.pcm && r.inst == Inst(false, d.image))
      && (!home && c.decoderHoming(params, 18) ==> r.out == d.pcm && r.inst == Inst(true, c.resetDec(d.image)))
      && (!home && !c.decoderHoming(params, 18) ==> r.out == d.pcm && r.inst == Inst(false, d.image))
  {
    HomingFlag(c, c.resetEnc(c.resetDec(bss)), ops);
    AtHomeIs(c, Decoding(ops));
  }
}
