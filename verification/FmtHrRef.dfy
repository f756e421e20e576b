/**
 src/fmt_hr_ref.c: the parameter words of the 3GPP half-rate reference codec.  Two width tables, chosen
 by the voicing decision, cut the same 112 canonical bits into 18 parameters.
 */
module FmtHrRef {
  import opened Bits
  import opened Frames
  import opened BitFields
  import HrTables

  const PARAMS: nat := 18

  /** Two width tables that cover the frame exactly and keep the voicing decision at bits 34 and 35. */
  datatype WidthTables = WidthTables(voiced: seq<nat>, unvoiced: seq<nat>) {
    predicate Valid() {
      Covers(voiced) && Covers(unvoiced)
    }

    static predicate Covers(ws: seq<nat>) {
      && |ws| == PARAMS && Offset(ws, |ws|) == HR_BITS
      && Offset(ws, 5) == 34 && ws[5] == 2
      && forall i :: 0 <= i < |ws| ==> ws[i] <= 11
    }

    function Widths(v: bool): (ws: seq<nat>) {
      if v then voiced else unvoiced
    }
  }

  /** `params_voiced` and `params_unvoiced` */
  const REFERENCE: WidthTables := WidthTables(
    [5, 11, 9, 8, 1, 2, 8, 9, 5, 4, 9, 5, 4, 9, 5, 4, 9, 5],
    [5, 11, 9, 8, 1, 2, 7, 7, 5, 7, 7, 5, 7, 7, 5, 7, 7, 5])

  lemma VoicedCovers()
    ensures WidthTables.Covers(REFERENCE.voiced)
  {
    var v := REFERENCE.voiced;
    assert Offset(v, 2) == 16 && Offset(v, 4) == 33 && Offset(v, 6) == 36 && Offset(v, 8) == 53;
    assert Offset(v, 10) == 62 && Offset(v, 12) == 76 && Offset(v, 14) == 89 && Offset(v, 16) == 98;
  }

  lemma UnvoicedCovers()
    ensures WidthTables.Covers(REFERENCE.unvoiced)
  {
    var u := REFERENCE.unvoiced;
    assert Offset(u, 2) == 16 && Offset(u, 4) == 33 && Offset(u, 6) == 36 && Offset(u, 8) == 50;
    assert Offset(u, 10) == 62 && Offset(u, 12) == 74 && Offset(u, 14) == 88 && Offset(u, 16) == 100;
  }

  /** The tables of the source are as required, and share their first six widths. */
  lemma ReferenceValid()
    ensures REFERENCE.Valid() && REFERENCE.voiced[..6] == REFERENCE.unvoiced[..6]
    ensures REFERENCE.voiced[6] == REFERENCE.unvoiced[6] + 1
  {
    VoicedCovers();
    UnvoicedCovers();
  }

  function BitsOf(x: seq<byte>): (bits: seq<bool>)
    ensures |bits| == 8 * |x| && forall p :: 0 <= p < |bits| ==> bits[p] == Get(Msb, x, p)
  {
    seq(8 * |x|, p requires 0 <= p => Get(Msb, x, p))
  }

  function FrameOf(bits: seq<bool>): (x: seq<byte>)
    requires |bits| % 8 == 0
    ensures |x| == |bits| / 8 && BitsOf(x) == bits
  {
    Pack(Msb, |bits| / 8, (p: nat) => p < |bits| && bits[p])
  }

  /** The 18 parameters of a canonical frame. */
  function FromCanon(t: WidthTables, x: seq<byte>): (ps: seq<nat>)
    requires t.Valid() && |x| == HR_CANON_LEN
    ensures |ps| == PARAMS
  {
    var ws := t.Widths(HrTables.CanonVoiced(x));
    Fields(ws, BitsOf(x), |ws|)
  }

  /** The bits of 18 parameters. */
  function BitsFrom(t: WidthTables, ps: seq<nat>): (bits: seq<bool>)
    requires t.Valid() && |ps| == PARAMS
    ensures |bits| == HR_BITS
  {
    var ws := t.Widths(ps[5] != 0);
    Unfields(ws, ps, |ws|)
  }

  function ToCanon(t: WidthTables, ps: seq<nat>): (x: seq<byte>)
    requires t.Valid() && |ps| == PARAMS
    ensures |x| == HR_CANON_LEN
  {
    FrameOf(BitsFrom(t, ps))
  }

  /** Widths that fit a 16-bit word with room to spare, and a frame of `n` bits. */
  predicate Fits(ws: seq<nat>, n: nat) {
    Offset(ws, |ws|) <= n && forall i :: 0 <= i < |ws| ==> ws[i] <= 11
  }

  /** `hr_ref_from_canon`: words beyond the 18th are left alone. */
  method FromCanonWords(t: WidthTables, hrRef: array<word>, canon: seq<byte>)
    requires t.Valid() && |canon| == HR_CANON_LEN && hrRef.Length >= PARAMS
    modifies hrRef
    ensures hrRef[..PARAMS] == FromCanon(t, canon)
    ensures hrRef[PARAMS..] == old(hrRef[PARAMS..])
  {
    var hi := GetBit(Msb, canon, 34);
    var lo := GetBit(Msb, canon, 35);
    Unpack(t.Widths(hi || lo), hrRef, canon);
  }

  /** The number in the `l` bits from bit `j` on. */
  ghost function WordAt(canon: seq<byte>, j: nat, l: nat): nat
    requires j + l <= 8 * |canon|
  {
    Value(BitsOf(canon)[j..j + l])
  }

  lemma NextField(ws: seq<nat>, canon: seq<byte>, i: nat, j: nat)
    requires i < |ws| && j == Offset(ws, i) && Offset(ws, |ws|) <= 8 * |canon|
    ensures Offset(ws, i + 1) == j + ws[i] <= 8 * |canon|
    ensures Fields(ws, BitsOf(canon), |ws|)[i] == WordAt(canon, j, ws[i])
  {
    FieldIs(ws, BitsOf(canon), i, |ws|);
  }

  /** The outer loop, with bit cursor `j`. */
  method Unpack(ws: seq<nat>, hrRef: array<word>, canon: seq<byte>)
    requires Fits(ws, 8 * |canon|) && hrRef.Length >= |ws|
    modifies hrRef
    ensures hrRef[..|ws|] == Fields(ws, BitsOf(canon), |ws|)
    ensures hrRef[|ws|..] == old(hrRef[|ws|..])
  {
    ghost var all := Fields(ws, BitsOf(canon), |ws|);
    var i, j := 0, 0;
    while i < |ws|
      invariant 0 <= i <= |ws| && j == Offset(ws, i)
      invariant forall n :: 0 <= n < i ==> hrRef[n] == all[n]
      invariant forall n :: |ws| <= n < hrRef.Length ==> hrRef[n] == old(hrRef[n])
    {
      NextField(ws, canon, i, j);
      var w := ReadWord(canon, j, ws[i]);
      assert w == all[i];
      hrRef[i] := w;
      j := j + ws[i];
      i := i + 1;
    }
  }

  /** `(uint16_t)((w << 1) | b)` */
  function ShiftIn(w: nat, b: bool): word {
    (2 * w + if b then 1 else 0) % 0x1_0000
  }

  lemma WordStep(canon: seq<byte>, j: nat, k: nat)
    requires j + k < 8 * |canon|
    ensures WordAt(canon, j, k + 1) == 2 * WordAt(canon, j, k) + if Get(Msb, canon, j + k) then 1 else 0
  {
    ValueStep(BitsOf(canon), j, k);
  }

  lemma WordBound(canon: seq<byte>, j: nat, l: nat)
    requires j + l <= 8 * |canon| && l <= 11
    ensures WordAt(canon, j, l) <= 2048
  {
    ValueBound(BitsOf(canon)[j..j + l]);
    Pow2Bound(l);
  }

  /** One more bit, and no truncation. */
  lemma NextBit(canon: seq<byte>, j: nat, k: nat)
    requires j + k < 8 * |canon| && k < 11
    ensures ShiftIn(WordAt(canon, j, k), Get(Msb, canon, j + k)) == WordAt(canon, j, k + 1)
  {
    WordStep(canon, j, k);
    WordBound(canon, j, k + 1);
  }

  lemma NoBits(canon: seq<byte>, j: nat)
    requires j <= 8 * |canon|
    ensures WordAt(canon, j, 0) == 0
  {
  }

  /** The inner loop: `l` bits from bit `j` on, accumulated in a 16-bit word. */
  method ReadWord(canon: seq<byte>, j: nat, l: nat) returns (w: word)
    requires j + l <= 8 * |canon| && l <= 11
    ensures w == WordAt(canon, j, l)
  {
    w := 0;
    NoBits(canon, j);
    var k := 0;
    while k < l
      invariant 0 <= k <= l
      invariant w == WordAt(canon, j, k)
    {
      var b := GetBit(Msb, canon, j + k);
      NextBit(canon, j, k);
      w := ShiftIn(w, b);
      k := k + 1;
    }
  }

  lemma Pow2Bound(k: nat)
    requires k <= 11
    ensures Pow2(k) <= 2048
  {
    assert Pow2(11) == 2048;
    if k < 11 {
      Pow2Monotone(k, 11);
    }
  }

  lemma Pow2Monotone(j: nat, k: nat)
    requires j <= k
    ensures Pow2(j) <= Pow2(k)
  {
  }

  /** `hr_ref_to_canon` */
  method ToCanonWords(t: WidthTables, canon: array<byte>, hrRef: seq<word>)
    requires t.Valid() && |hrRef| >= PARAMS && canon.Length >= HR_CANON_LEN
    modifies canon
    ensures canon[..] == ToCanon(t, hrRef[..PARAMS]) + old(canon[..][HR_CANON_LEN..])
  {
    ghost var ps, init := hrRef[..PARAMS], canon[..];
    var voiced := hrRef[5] != 0;
    PackWords(t.Widths(voiced), canon, hrRef[..PARAMS]);
    WrittenAll(canon[..], init, BitsFrom(t, ps));
  }

  /** The outer loop, with bit cursor `j`. */
  method PackWords(ws: seq<nat>, canon: array<byte>, ps: seq<word>)
    requires Fits(ws, 8 * canon.Length) && |ps| == |ws|
    modifies canon
    ensures Written(canon[..], old(canon[..]), Unfields(ws, ps, |ws|))
  {
    ghost var init := canon[..];
    var i, j := 0, 0;
    while i < |ws|
      invariant 0 <= i <= |ws| && j == Offset(ws, i)
      invariant Written(canon[..], init, Unfields(ws, ps, i))
    {
      OffsetMonotone(ws, i + 1, |ws|);
      WriteWord(canon, j, ps[i], ws[i], init, Unfields(ws, ps, i));
      j := j + ws[i];
      i := i + 1;
    }
  }

  /** The bits of the buffer are `bits` followed by what was there before. */
  ghost predicate Written(buf: seq<byte>, init: seq<byte>, bits: seq<bool>) {
    |buf| == |init| && forall p: nat :: Get(Msb, buf, p) == if p < |bits| then bits[p] else Get(Msb, init, p)
  }

  lemma WrittenAll(buf: seq<byte>, init: seq<byte>, bits: seq<bool>)
    requires Written(buf, init, bits) && |bits| == HR_BITS && HR_CANON_LEN <= |init|
    ensures buf == FrameOf(bits) + init[HR_CANON_LEN..]
  {
    var want := FrameOf(bits) + init[HR_CANON_LEN..];
    forall p: nat | p < 8 * |want|
      ensures Get(Msb, buf, p) == Get(Msb, want, p)
    {
      if p < HR_BITS {
        assert Get(Msb, FrameOf(bits), p) == BitsOf(FrameOf(bits))[p];
      }
    }
    SameBits(Msb, buf, want);
  }

  /** The inner loop: the low `l` bits of `w`, from the top, behind `done`. */
  method WriteWord(canon: array<byte>, j: nat, w: word, l: nat, ghost init: seq<byte>, ghost done: seq<bool>)
    requires Written(canon[..], init, done) && j == |done| && j + l <= 8 * canon.Length
    modifies canon
    ensures Written(canon[..], init, done + Digits(w, l))
  {
    var k := 0;
    while k < l
      invariant 0 <= k <= l
      invariant Written(canon[..], init, done + Digits(w, l)[..k])
    {
      PutBitAt(Msb, canon, j + k, Bit(w, l - k - 1));
      assert Digits(w, l)[..k + 1] == Digits(w, l)[..k] + [Bit(w, l - k - 1)];
      k := k + 1;
    }
    assert Digits(w, l)[..l] == Digits(w, l);
  }

  const HR_REF_DEC_LEN: nat := 44
  const HR_REF_ENC_LEN: nat := 40

  /** The decoder's file format: the parameters and the flags BFI, UFI, SID and TAF. */
  method DecFromCanon(t: WidthTables, dst: array<word>, src: seq<byte>) returns (rv: nat)
    requires t.Valid() && |src| == HR_CANON_LEN && 2 * dst.Length >= HR_REF_DEC_LEN
    modifies dst
    ensures rv == HR_REF_DEC_LEN && dst[..22] == FromCanon(t, src) + [0, 0, 0, 0] && dst[22..] == old(dst[22..])
  {
    FromCanonWords(t, dst, src);
    dst[18], dst[19], dst[20], dst[21] := 0, 0, 0, 0;
    assert dst[..22] == dst[..PARAMS] + [0, 0, 0, 0];
    return HR_REF_DEC_LEN;
  }

  /** The encoder's file format: the parameters and the flags SP and VAD. */
  method EncFromCanon(t: WidthTables, dst: array<word>, src: seq<byte>) returns (rv: nat)
    requires t.Valid() && |src| == HR_CANON_LEN && 2 * dst.Length >= HR_REF_ENC_LEN
    modifies dst
    ensures rv == HR_REF_ENC_LEN && dst[..20] == FromCanon(t, src) + [0, 0] && dst[20..] == old(dst[20..])
  {
    FromCanonWords(t, dst, src);
    dst[18], dst[19] := 0, 0;
    assert dst[..20] == dst[..PARAMS] + [0, 0];
    return HR_REF_ENC_LEN;
  }

  /** A two-bit field is zero exactly when both bits are. */
  lemma TwoBits(bits: seq<bool>)
    requires |bits| == 2
    ensures Value(bits) != 0 <==> bits[0] || bits[1]
  {
    assert bits[..1] == [bits[0]] && [bits[0]][..0] == [];
    assert Value(bits[..1]) == if bits[0] then 1 else 0;
  }

  /** Whichever table is used to read it, the voicing parameter of a frame is the value of bits 34 and 35. */
  lemma VoicingField(t: WidthTables, x: seq<byte>, voiced: bool)
    requires t.Valid() && |x| == HR_CANON_LEN
    ensures Fields(t.Widths(voiced), BitsOf(x), |t.Widths(voiced)|)[5] != 0 <==> HrTables.CanonVoiced(x)
  {
    FieldIs(t.Widths(voiced), BitsOf(x), 5, |t.Widths(voiced)|);
    TwoBits(BitsOf(x)[34..36]);
  }

  lemma ParameterFits(t: WidthTables, x: seq<byte>, i: nat)
    requires t.Valid() && |x| == HR_CANON_LEN && i < PARAMS
    ensures FromCanon(t, x)[i] < 0x1_0000
  {
    var ws := t.Widths(HrTables.CanonVoiced(x));
    FieldIs(ws, BitsOf(x), i, |ws|);
    ValueBound(BitsOf(x)[Offset(ws, i)..Offset(ws, i + 1)]);
    Pow2Bound(ws[i]);
  }

  /** Every canonical frame is rebuilt from its parameters. */
  lemma RoundTrip(t: WidthTables, x: seq<byte>)
    requires t.Valid() && |x| == HR_CANON_LEN
    ensures ToCanon(t, FromCanon(t, x)) == x
  {
    var v, ps := HrTables.CanonVoiced(x), FromCanon(t, x);
    VoicingField(t, x, v);
    assert ps[..|ps|] == ps;
    UnfieldsFields(t.Widths(v), BitsOf(x), ps, |t.Widths(v)|);
    assert BitsFrom(t, ps) == BitsOf(x)[..HR_BITS] == BitsOf(x);
    SameFrame(FrameOf(BitsOf(x)), x);
  }

  lemma SameFrame(x: seq<byte>, y: seq<byte>)
    requires BitsOf(x) == BitsOf(y)
    ensures x == y
  {
    assert |x| == |y| by {
      assert 8 * |x| == |BitsOf(x)| == |BitsOf(y)| == 8 * |y|;
    }
    forall p: nat | p < 8 * |x|
      ensures Get(Msb, x, p) == Get(Msb, y, p)
    {
      assert BitsOf(x)[p] == BitsOf(y)[p];
    }
    SameBits(Msb, x, y);
  }

  /** Each parameter cut down to the width that the voicing parameter prescribes. */
  function Reduced(t: WidthTables, ps: seq<nat>): (r: seq<nat>)
    requires t.Valid() && |ps| == PARAMS
    ensures |r| == PARAMS && forall i :: 0 <= i < PARAMS ==> r[i] == ps[i] % Pow2(t.Widths(ps[5] != 0)[i])
  {
    seq(PARAMS, i requires 0 <= i < PARAMS => ps[i] % Pow2(t.Widths(ps[5] != 0)[i]))
  }

  /** Read back with the table it was written with, a frame yields the reduced parameters. */
  lemma FieldsOfFrame(t: WidthTables, ps: seq<nat>)
    requires t.Valid() && |ps| == PARAMS
    ensures Fields(t.Widths(ps[5] != 0), BitsOf(ToCanon(t, ps)), |t.Widths(ps[5] != 0)|) == Reduced(t, ps)
  {
    var ws, bits := t.Widths(ps[5] != 0), BitsFrom(t, ps);
    assert bits[..HR_BITS] == bits == BitsOf(ToCanon(t, ps));
    forall i | 0 <= i < PARAMS
      ensures Fields(ws, bits, |ws|)[i] == Reduced(t, ps)[i]
    {
      FieldsUnfields(ws, ps, bits, |ws|, i);
    }
  }

  /** The writer tests the whole voicing word, the reader its two stored bits. */
  predicate VoicingStored(v: nat) {
    v == 0 || v % 4 != 0
  }

  /** The reader uses the writer's width table if and only if storing two bits of the voicing word does not clear it. */
  lemma SameWidthsIff(t: WidthTables, ps: seq<nat>)
    requires t.Valid() && |ps| == PARAMS
    ensures HrTables.CanonVoiced(ToCanon(t, ps)) == (ps[5] != 0) <==> VoicingStored(ps[5])
  {
    VoicingField(t, ToCanon(t, ps), ps[5] != 0);
    FieldsOfFrame(t, ps);
    assert t.Widths(ps[5] != 0)[5] == 2 && Pow2(2) == 4;
  }

  /**
   Parameters survive, reduced to their widths, whenever the voicing word is stored faithfully (any value
   below 4 is).
   */
  lemma ParametersRoundTrip(t: WidthTables, ps: seq<nat>)
    requires t.Valid() && |ps| == PARAMS && VoicingStored(ps[5])
    ensures FromCanon(t, ToCanon(t, ps)) == Reduced(t, ps)
  {
    SameWidthsIff(t, ps);
    FieldsOfFrame(t, ps);
  }

  /** The widths of the source, voiced and unvoiced, and the bit at which each parameter starts. */
  lemma ReferenceIs(i: nat)
    requires i < 18
    ensures REFERENCE.voiced[i] == [5, 11, 9, 8, 1, 2, 8, 9, 5, 4, 9, 5, 4, 9, 5, 4, 9, 5][i]
    ensures REFERENCE.unvoiced[i] == [5, 11, 9, 8, 1, 2, 7, 7, 5, 7, 7, 5, 7, 7, 5, 7, 7, 5][i]
  {
  }

  lemma {:induction false} Starts(ws: seq<nat>, starts: seq<nat>, i: nat)
    requires i < |starts| <= |ws| && starts[0] == 0
    requires forall k :: 0 < k < |starts| ==> starts[k] == starts[k - 1] + ws[k - 1]
    ensures Offset(ws, i) == starts[i]
  {
    if i == 0 {
    } else {
      Starts(ws, starts, i - 1);
    }
  }

  lemma VoicedStep(starts: seq<nat>, k: nat)
    requires starts == [0, 5, 16, 25, 33, 34, 36, 44, 53, 58, 62, 71, 76, 80, 89, 94, 98, 107]
    requires 0 < k < 18
    ensures starts[k] == starts[k - 1] + REFERENCE.voiced[k - 1]
  {
    ReferenceIs(k - 1);
  }

  lemma VoicedStarts(starts: seq<nat>, i: nat)
    requires starts == [0, 5, 16, 25, 33, 34, 36, 44, 53, 58, 62, 71, 76, 80, 89, 94, 98, 107]
    requires i < 18
    ensures Offset(REFERENCE.voiced, i) == starts[i]
  {
    forall k | 0 < k < |starts| ensures starts[k] == starts[k - 1] + REFERENCE.voiced[k - 1] {
      VoicedStep(starts, k);
    }
    Starts(REFERENCE.voiced, starts, i);
  }

  lemma UnvoicedStep(starts: seq<nat>, k: nat)
    requires starts == [0, 5, 16, 25, 33, 34, 36, 43, 50, 55, 62, 69, 74, 81, 88, 93, 100, 107]
    requires 0 < k < 18
    ensures starts[k] == starts[k - 1] + REFERENCE.unvoiced[k - 1]
  {
    ReferenceIs(k - 1);
  }

  lemma UnvoicedStarts(starts: seq<nat>, i: nat)
    requires starts == [0, 5, 16, 25, 33, 34, 36, 43, 50, 55, 62, 69, 74, 81, 88, 93, 100, 107]
    requires i < 18
    ensures Offset(REFERENCE.unvoiced, i) == starts[i]
  {
    forall k | 0 < k < |starts| ensures starts[k] == starts[k - 1] + REFERENCE.unvoiced[k - 1] {
      UnvoicedStep(starts, k);
    }
    Starts(REFERENCE.unvoiced, starts, i);
  }

  /** A parameter starts with the most significant of its bits. */
  lemma {:induction false} ValueBit(bits: seq<bool>, k: nat)
    requires k < |bits|
    ensures Bit(Value(bits), |bits| - 1 - k) == bits[k] && Value(bits) < Pow2(|bits|)
  {
    ValueBound(bits);
    DigitsValue(bits);
    assert Digits(Value(bits), |bits|)[k] == bits[k];
  }

  lemma WordBit(canon: seq<byte>, j: nat, l: nat, k: nat)
    requires j + l <= 8 * |canon| && k < l
    ensures Bit(WordAt(canon, j, l), l - 1 - k) == Get(Msb, canon, j + k) && WordAt(canon, j, l) < Pow2(l)
  {
    var field := BitsOf(canon)[j..j + l];
    ValueBit(field, k);
    assert field[k] == BitsOf(canon)[j + k];
  }

  /** Bit `k` from the top of a parameter that starts at bit `at` and is `w` bits wide. */
  lemma FieldBit(ws: seq<nat>, x: seq<byte>, i: nat, k: nat, at: nat, w: nat)
    requires Offset(ws, |ws|) <= 8 * |x| && i < |ws| && at == Offset(ws, i) && w == ws[i] && k < w
    ensures at + w <= 8 * |x|
    ensures var p := Fields(ws, BitsOf(x), |ws|)[i]; p < Pow2(w) && Bit(p, w - 1 - k) == Get(Msb, x, at + k)
  {
    NextField(ws, x, i, at);
    WordBit(x, at, w, k);
  }

  lemma VoicedAt(i: nat, at: nat, w: nat)
    requires i < 18
    requires at == [0, 5, 16, 25, 33, 34, 36, 44, 53, 58, 62, 71, 76, 80, 89, 94, 98, 107][i]
    requires w == [5, 11, 9, 8, 1, 2, 8, 9, 5, 4, 9, 5, 4, 9, 5, 4, 9, 5][i]
    ensures at == Offset(REFERENCE.voiced, i) && w == REFERENCE.voiced[i]
  {
    ReferenceIs(i);
    VoicedStarts([0, 5, 16, 25, 33, 34, 36, 44, 53, 58, 62, 71, 76, 80, 89, 94, 98, 107], i);
  }

  lemma UnvoicedAt(i: nat, at: nat, w: nat)
    requires i < 18
    requires at == [0, 5, 16, 25, 33, 34, 36, 43, 50, 55, 62, 69, 74, 81, 88, 93, 100, 107][i]
    requires w == [5, 11, 9, 8, 1, 2, 7, 7, 5, 7, 7, 5, 7, 7, 5, 7, 7, 5][i]
    ensures at == Offset(REFERENCE.unvoiced, i) && w == REFERENCE.unvoiced[i]
  {
    ReferenceIs(i);
    UnvoicedStarts([0, 5, 16, 25, 33, 34, 36, 43, 50, 55, 62, 69, 74, 81, 88, 93, 100, 107], i);
  }

  lemma TableChosen(t: WidthTables, x: seq<byte>)
    requires t.Valid() && |x| == 14
    ensures Get(Msb, x, 34) || Get(Msb, x, 35) ==> FromCanon(t, x) == Fields(t.voiced, BitsOf(x), |t.voiced|)
    ensures !Get(Msb, x, 34) && !Get(Msb, x, 35) ==> FromCanon(t, x) == Fields(t.unvoiced, BitsOf(x), |t.unvoiced|)
  {
  }

  /**
   The parameters of a voiced frame, one with bit 34 or 35 set, bit by bit: where each starts and how wide it
   is in the source's table.
   */
  lemma VoicedParameter(x: seq<byte>, i: nat, k: nat, at: nat, w: nat)
    requires |x| == 14 && (Get(Msb, x, 34) || Get(Msb, x, 35)) && i < 18 && k < w
    requires at == [0, 5, 16, 25, 33, 34, 36, 44, 53, 58, 62, 71, 76, 80, 89, 94, 98, 107][i]
    requires w == [5, 11, 9, 8, 1, 2, 8, 9, 5, 4, 9, 5, 4, 9, 5, 4, 9, 5][i]
    ensures REFERENCE.Valid() && FromCanon(REFERENCE, x)[i] < Pow2(w)
    ensures Bit(FromCanon(REFERENCE, x)[i], w - 1 - k) == Get(Msb, x, at + k)
  {
    ReferenceValid();
    VoicedAt(i, at, w);
    TableChosen(REFERENCE, x);
    FieldBit(REFERENCE.voiced, x, i, k, at, w);
  }

  /** The same for a frame with neither bit set. */
  lemma UnvoicedParameter(x: seq<byte>, i: nat, k: nat, at: nat, w: nat)
    requires |x| == 14 && !Get(Msb, x, 34) && !Get(Msb, x, 35) && i < 18 && k < w
    requires at == [0, 5, 16, 25, 33, 34, 36, 43, 50, 55, 62, 69, 74, 81, 88, 93, 100, 107][i]
    requires w == [5, 11, 9, 8, 1, 2, 7, 7, 5, 7, 7, 5, 7, 7, 5, 7, 7, 5][i]
    ensures REFERENCE.Valid() && FromCanon(REFERENCE, x)[i] < Pow2(w)
    ensures Bit(FromCanon(REFERENCE, x)[i], w - 1 - k) == Get(Msb, x, at + k)
  {
    ReferenceValid();
    UnvoicedAt(i, at, w);
    TableChosen(REFERENCE, x);
    FieldBit(REFERENCE.unvoiced, x, i, k, at, w);
  }

  /** Writing, bit by bit: the table is chosen by the whole voicing word, and each word gives its low bits. */
  lemma WrittenBit(t: WidthTables, ps: seq<nat>, i: nat, k: nat)
    requires t.Valid() && |ps| == 18 && i < 18
    ensures var ws := if ps[5] != 0 then t.voiced else t.unvoiced;
      k < ws[i] ==> Get(Msb, ToCanon(t, ps), Offset(ws, i) + k) == Bit(ps[i], ws[i] - 1 - k)
  {
    var ws := if ps[5] != 0 then t.voiced else t.unvoiced;
    if k < ws[i] {
      UnfieldBit(ws, ps, |ws|, i, k);
      var bits := BitsFrom(t, ps);
      assert BitsOf(FrameOf(bits))[Offset(ws, i) + k] == bits[Offset(ws, i) + k];
    }
  }

  lemma {:induction false} UnfieldBit(ws: seq<nat>, ps: seq<nat>, n: nat, i: nat, k: nat)
    requires i < n <= |ws| == |ps| && k < ws[i]
    ensures Offset(ws, i) + k < Offset(ws, n)
    ensures Unfields(ws, ps, n)[Offset(ws, i) + k] == Bit(ps[i], ws[i] - 1 - k)
    decreases n
  {
    if i == n - 1 {
      assert Digits(ps[i], ws[i])[k] == Bit(ps[i], ws[i] - 1 - k);
    } else {
      UnfieldBit(ws, ps, n - 1, i, k);
    }
  }

  function Witness(v: nat): (ps: seq<nat>)
    ensures |ps| == PARAMS && ps[5] == v && ps[6] == 1
  {
    seq(PARAMS, i => if i == 5 then v else if i == 6 then 1 else 0)
  }

  /** Otherwise the frame is cut with the wrong widths: the lag 1 written in eight bits is read from seven. */
  lemma MisreadLag(t: WidthTables, v: nat)
    requires t.Valid() && !VoicingStored(v) && t.voiced[6] == t.unvoiced[6] + 1
    ensures FromCanon(t, ToCanon(t, Witness(v)))[6] == 0 && Reduced(t, Witness(v))[6] == 1
  {
    var ps := Witness(v);
    var bits := BitsOf(ToCanon(t, ps));
    SameWidthsIff(t, ps);
    FieldsOfFrame(t, ps);
    FieldIs(t.voiced, bits, 6, PARAMS);
    FieldIs(t.unvoiced, bits, 6, PARAMS);
    NextOffset(t.voiced);
    NextOffset(t.unvoiced);
    var k := t.unvoiced[6];
    ValueStep(bits, 36, k);
    OneInWidth(k + 1);
  }

  lemma NextOffset(ws: seq<nat>)
    requires |ws| == PARAMS && Offset(ws, 5) == 34 && ws[5] == 2
    ensures Offset(ws, 6) == 36 && Offset(ws, 7) == 36 + ws[6]
  {
  }

  lemma OneInWidth(k: nat)
    requires k >= 1
    ensures 1 % Pow2(k) == 1
  {
    Pow2Monotone(1, k);
    assert Pow2(1) == 2;
  }

  /** The exact condition on the voicing word under which every set of parameters survives. */
  lemma ParametersRoundTripIff(t: WidthTables, v: nat)
    requires t.Valid() && t.voiced[6] == t.unvoiced[6] + 1
    ensures (forall ps: seq<nat> :: |ps| == PARAMS && ps[5] == v ==> FromCanon(t, ToCanon(t, ps)) == Reduced(t, ps))
            <==> VoicingStored(v)
  {
    if VoicingStored(v) {
      forall ps: seq<nat> | |ps| == PARAMS && ps[5] == v
        ensures FromCanon(t, ToCanon(t, ps)) == Reduced(t, ps)
      {
        ParametersRoundTrip(t, ps);
      }
    } else {
      MisreadLag(t, v);
      assert FromCanon(t, ToCanon(t, Witness(v))) != Reduced(t, Witness(v));
    }
  }
}
