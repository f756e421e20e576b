/**
 Half-rate frames in channel order.  The order in which the 112 bits of a frame are stored depends on
 two of those bits, the voicing decision; a decoder has to find the decision before it knows the order.
 */
module HrTables {
  import opened Bits
  import opened Frames
  import opened Placement

  /** `gsm620_voiced_bitorder` and `gsm620_unvoiced_bitorder`, tables of libosmocodec. */
  datatype HrOrder = HrOrder(voiced: seq<nat>, unvoiced: seq<nat>) {
    predicate Permutations() {
      Permutation(voiced, HR_BITS) && Permutation(unvoiced, HR_BITS)
    }

    predicate Valid() {
      Permutations() && KeepsVoicing(voiced) && KeepsVoicing(unvoiced)
    }

    function Table(v: bool): seq<nat> {
      if v then voiced else unvoiced
    }

    function Canon(v: bool): Side {
      Side(Msb, HR_CANON_LEN, Table(v))
    }
  }

  /** Entries 93 and 94 are canonical bits 34 and 35, in either order. */
  predicate KeepsVoicing(t: seq<nat>)
    requires |t| == HR_BITS
  {
    (t[93] == 34 && t[94] == 35) || (t[93] == 35 && t[94] == 34)
  }

  /** A frame layout holding all 112 bits. */
  predicate HrSide(side: Side) {
    side.Valid() && |side.pos| == HR_BITS
  }

  /** `voiced` as read from a canonical frame. */
  predicate CanonVoiced(x: seq<byte>) {
    Get(Msb, x, 34) || Get(Msb, x, 35)
  }

  /** `voiced` as read from a frame in channel order. */
  predicate SideVoiced(side: Side, y: seq<byte>)
    requires HrSide(side)
  {
    Get(side.o, y, side.pos[94]) || Get(side.o, y, side.pos[93])
  }

  function FromCanon(h: HrOrder, side: Side, x: seq<byte>): (y: seq<byte>)
    requires h.Permutations() && HrSide(side)
  {
    Move(h.Canon(CanonVoiced(x)), side, Zeros(side.len), x)
  }

  function ToCanon(h: HrOrder, side: Side, y: seq<byte>): (x: seq<byte>)
    requires h.Permutations() && HrSide(side)
  {
    Move(side, h.Canon(SideVoiced(side, y)), Zeros(HR_CANON_LEN), y)
  }

  /** Which bit goes where, by the voicing bits of the source. */
  lemma HrLands(h: HrOrder, side: Side, z: seq<byte>, i: nat, p: nat)
    requires h.Permutations() && HrSide(side) && i < HR_BITS
    ensures Get(side.o, FromCanon(h, side, z), side.pos[i])
            == Get(Msb, z, (if Get(Msb, z, 34) || Get(Msb, z, 35) then h.voiced else h.unvoiced)[i])
    ensures Get(Msb, ToCanon(h, side, z),
                (if Get(side.o, z, side.pos[93]) || Get(side.o, z, side.pos[94]) then h.voiced else h.unvoiced)[i])
            == Get(side.o, z, side.pos[i])
    ensures p < 8 * side.len && p !in side.pos ==> !Get(side.o, FromCanon(h, side, z), p)
  {
    MoveBits(h.Canon(CanonVoiced(z)), side, Zeros(side.len), z);
    MoveBits(side, h.Canon(SideVoiced(side, z)), Zeros(HR_CANON_LEN), z);
    ZerosAreClear(side.o, side.len);
  }

  /** The decoder selects the table that the encoder selected, and the other way round. */
  lemma SameTable(h: HrOrder, side: Side, x: seq<byte>, y: seq<byte>)
    requires h.Valid() && HrSide(side)
    ensures SideVoiced(side, FromCanon(h, side, x)) == CanonVoiced(x)
    ensures CanonVoiced(ToCanon(h, side, y)) == SideVoiced(side, y)
  {
    PairMoved(h.Canon(CanonVoiced(x)), side, Zeros(side.len), x, 94, 93, 34, 35);
    var t := h.Canon(SideVoiced(side, y));
    var i, j := if t.pos[93] == 34 then 93 else 94, if t.pos[93] == 34 then 94 else 93;
    PairMoved(side, t, Zeros(HR_CANON_LEN), y, i, j, side.pos[i], side.pos[j]);
  }

  /** Either table alone loses nothing. */
  lemma TableReturns(h: HrOrder, v: bool, side: Side, x: seq<byte>)
    requires h.Permutations() && HrSide(side) && |x| == HR_CANON_LEN
    ensures Move(side, h.Canon(v), Zeros(HR_CANON_LEN), Move(h.Canon(v), side, Zeros(side.len), x)) == x
  {
    var t := h.Canon(v);
    MoveMove(t, side, t, Zeros(side.len), Zeros(HR_CANON_LEN), x);
    PermutationCovers(t.pos, HR_BITS);
    MoveAll(t, Zeros(HR_CANON_LEN), x);
  }

  /** Every canonical frame survives the round trip bit for bit. */
  lemma RoundTrip(h: HrOrder, side: Side, x: seq<byte>)
    requires h.Valid() && HrSide(side) && |x| == HR_CANON_LEN
    ensures ToCanon(h, side, FromCanon(h, side, x)) == x
  {
    SameTable(h, side, x, x);
    TableReturns(h, CanonVoiced(x), side, x);
  }

  /** A frame in channel order keeps its 112 payload bits and has every other bit cleared. */
  lemma ChannelRoundTrip(h: HrOrder, side: Side, y: seq<byte>)
    requires h.Valid() && HrSide(side)
    ensures FromCanon(h, side, ToCanon(h, side, y)) == Move(side, side, Zeros(side.len), y)
  {
    SameTable(h, side, y, y);
    MoveMove(side, h.Canon(SideVoiced(side, y)), side, Zeros(HR_CANON_LEN), Zeros(side.len), y);
  }

  /** The canonical frame with bit `b` set and no other. */
  function Single(b: nat): (x: seq<byte>)
    requires b < HR_BITS
    ensures |x| == HR_CANON_LEN && forall p: nat :: Get(Msb, x, p) <==> p == b
  {
    Pack(Msb, HR_CANON_LEN, (p: nat) => p == b)
  }

  /**
   What the two converters jointly rely on, exactly: the table is found again on every frame if and only
   if both tables store canonical bits 34 and 35 at entries 93 and 94.
   */
  lemma SameTableIff(h: HrOrder, side: Side)
    requires h.Permutations() && HrSide(side)
    ensures (forall x: seq<byte> :: |x| == HR_CANON_LEN ==> SideVoiced(side, FromCanon(h, side, x)) == CanonVoiced(x))
            <==> KeepsVoicing(h.voiced) && KeepsVoicing(h.unvoiced)
  {
    if KeepsVoicing(h.voiced) && KeepsVoicing(h.unvoiced) {
      forall x: seq<byte> | |x| == HR_CANON_LEN
        ensures SideVoiced(side, FromCanon(h, side, x)) == CanonVoiced(x)
      {
        SameTable(h, side, x, x);
      }
    } else if !KeepsVoicing(h.voiced) {
      // One of the two bits is stored elsewhere: a voiced frame with that bit alone reads as unvoiced.
      var b := if 34 in {h.voiced[93], h.voiced[94]} then 35 else 34;
      Misread(h, side, b);
    } else {
      // Some other bit is stored there: an unvoiced frame with that bit alone reads as voiced.
      var b := if h.unvoiced[93] in {34, 35} then h.unvoiced[94] else h.unvoiced[93];
      Misread(h, side, b);
    }
  }

  lemma Misread(h: HrOrder, side: Side, b: nat)
    requires h.Permutations() && HrSide(side) && b < HR_BITS
    requires b in {34, 35} <==> b !in {h.Table(b in {34, 35})[93], h.Table(b in {34, 35})[94]}
    ensures SideVoiced(side, FromCanon(h, side, Single(b))) != CanonVoiced(Single(b))
  {
    var x := Single(b);
    MoveBits(h.Canon(CanonVoiced(x)), side, Zeros(side.len), x);
  }
}
