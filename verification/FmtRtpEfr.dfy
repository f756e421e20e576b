/** src/fmt_rtp_efr.c: the EFR payload of section 4.5.9 of RFC 3551, with substitution of damaged packets. */
module FmtRtpEfr {
  import opened Bits
  import opened Frames
  import opened Placement
  import opened Nibbles

  const EFR_LEN: nat := 31
  const EFR_MAGIC: byte := 0xc

  /** A signature with no bit set behind it. */
  function DamagedPacket(): (s: seq<byte>)
    ensures |s| == EFR_LEN
  {
    Base(EFR_LEN, EFR_MAGIC)
  }

  /** The SID frame of section 5.3.2 of TS 101 318. */
  function Silence(): (s: seq<byte>)
    ensures |s| == EFR_LEN
  {
    [0xcf] + seq(11, _ => 0xff) + [0xe0] + Zeros(18)
  }

  function EfrLayout(): (l: Layout)
    ensures l.Valid() && l.canon.len == EFR_CANON_LEN && l.side.len == EFR_LEN
  {
    NibbleLayout(EFR_LEN, EFR_MAGIC)
  }

  function From(x: seq<byte>): seq<byte> {
    EfrLayout().FromCanon(x)
  }

  /** A payload of the wrong length yields the empty frame, a damaged one the SID frame. */
  function To(y: seq<byte>): seq<byte> {
    if |y| != EFR_LEN then Zeros(EFR_CANON_LEN)
    else EfrLayout().ToCanon(if y == DamagedPacket() then Silence() else y)
  }

  method FromCanon(dst: array<byte>, src: seq<byte>) returns (rv: nat)
    requires |src| == EFR_CANON_LEN && dst.Length >= EFR_LEN
    modifies dst
    ensures rv == EFR_LEN && dst[..] == From(src) + old(dst[..][EFR_LEN..])
  {
    ShiftDown(dst, EFR_MAGIC, src);
    return EFR_LEN;
  }

  method ToCanon(dst: array<byte>, src: seq<byte>) returns (rv: nat)
    requires dst.Length >= EFR_CANON_LEN
    modifies dst
    ensures rv == EFR_CANON_LEN && dst[..] == To(src) + old(dst[..][EFR_CANON_LEN..])
  {
    if |src| != EFR_LEN {
      Memset(dst, EFR_CANON_LEN);
      return EFR_CANON_LEN;
    }
    ShiftUp(dst, EFR_MAGIC, if src == DamagedPacket() then Silence() else src);
    return EFR_CANON_LEN;
  }

  ghost predicate NoPayload(x: seq<byte>) {
    forall p: nat :: p < EFR_BITS ==> !Get(Msb, x, p)
  }

  /** Canonical bit `j` is payload bit `j + 4`. */
  lemma PayloadBit(x: seq<byte>, j: nat)
    requires j < EFR_BITS
    ensures Get(Msb, From(x), j + 4) == Get(Msb, x, j)
  {
    ShiftedBit(EFR_LEN, EFR_MAGIC, x, j);
  }

  /** Exactly the frames without payload are sent as a packet that the receiver takes for damaged. */
  lemma DamagedIff(x: seq<byte>)
    ensures From(x) == DamagedPacket() <==> NoPayload(x)
  {
    BareIff(EFR_LEN, EFR_MAGIC, x);
  }

  /** The SID frame in canonical form: 95 ones and nothing else. */
  function Sid(): (s: seq<byte>)
    ensures |s| == EFR_CANON_LEN
  {
    Pack(Msb, EFR_CANON_LEN, (p: nat) => p < 95)
  }

  lemma SilenceBytes(i: nat)
    requires i < EFR_LEN
    ensures Silence()[i] == if i == 0 then 0xcf else if i < 12 then 0xff else if i == 12 then 0xe0 else 0
  {
  }

  lemma SilenceBit(q: nat)
    requires 4 <= q < 8 * EFR_LEN
    ensures Get(Msb, Silence(), q) == (q < 99)
  {
    SilenceBytes(q / 8);
    if q < 8 {
      assert Bit(0xcf, 0) && Bit(0xcf, 1) && Bit(0xcf, 2) && Bit(0xcf, 3);
    } else if q < 96 {
      AllOnes(Msb.Lane(q));
    } else if q < 104 {
      assert Bit(0xe0, 7) && Bit(0xe0, 6) && Bit(0xe0, 5);
      assert !Bit(0xe0, 4) && !Bit(0xe0, 3) && !Bit(0xe0, 2) && !Bit(0xe0, 1) && !Bit(0xe0, 0);
    } else {
      ZeroByte(Msb, Silence(), q);
    }
  }

  lemma SilenceIsSid()
    ensures EfrLayout().ToCanon(Silence()) == Sid()
  {
    var u := EfrLayout().ToCanon(Silence());
    NibbleCovers(EFR_LEN, EFR_MAGIC);
    EfrLayout().ClearsTail(EFR_BITS, Silence());
    forall p: nat | p < 8 * EFR_CANON_LEN
      ensures Get(Msb, u, p) == Get(Msb, Sid(), p)
    {
      if p < EFR_BITS {
        ShiftedBit(EFR_LEN, EFR_MAGIC, Silence(), p);
        SilenceBit(p + 4);
      }
    }
    SameBits(Msb, u, Sid());
  }

  lemma AllOnes(k: nat)
    requires k < 8
    ensures Bit(0xff, k)
  {
    if k > 0 {
      assert Bit(0xff, k) == Bit(0x7f, k - 1);
      assert forall j :: 0 <= j < 7 ==> Bit(0x7f, j) by {
        assert Bit(0x7f, 0) && Bit(0x7f, 1) && Bit(0x7f, 2) && Bit(0x7f, 3) && Bit(0x7f, 4);
        assert Bit(0x7f, 5) && Bit(0x7f, 6);
      }
    }
  }

  /**
   Through RTP and back: the payload is kept bit for bit, except that a frame without payload becomes the SID
   frame.
   */
  lemma RoundTrip(x: seq<byte>)
    requires |x| == EFR_CANON_LEN
    ensures To(From(x)) == if NoPayload(x) then Sid() else ClearFrom(EFR_BITS, x)
  {
    DamagedIff(x);
    SilenceIsSid();
    NibbleCovers(EFR_LEN, EFR_MAGIC);
    EfrLayout().RoundTrip(EFR_BITS, x);
  }

  lemma SidStable()
    ensures !NoPayload(Sid()) && ClearFrom(EFR_BITS, Sid()) == Sid()
  {
    assert Get(Msb, Sid(), 0);
    SameBits(Msb, ClearFrom(EFR_BITS, Sid()), Sid());
  }

  lemma PayloadKept(x: seq<byte>)
    ensures NoPayload(ClearFrom(EFR_BITS, x)) <==> NoPayload(x)
    ensures ClearFrom(EFR_BITS, ClearFrom(EFR_BITS, x)) == ClearFrom(EFR_BITS, x)
  {
    var c := ClearFrom(EFR_BITS, x);
    assert forall p: nat :: p < EFR_BITS ==> Get(Msb, c, p) == Get(Msb, x, p);
    SameBits(Msb, ClearFrom(EFR_BITS, c), c);
  }

  /** A second trip changes nothing. */
  lemma Idempotent(x: seq<byte>)
    requires |x| == EFR_CANON_LEN
    ensures To(From(To(From(x)))) == To(From(x))
  {
    RoundTrip(x);
    RoundTrip(To(From(x)));
    SidStable();
    PayloadKept(x);
  }

  /** Byte by byte: every byte of the payload straddles two canonical ones, the first the signature 0xc. */
  lemma PayloadBytes(x: seq<byte>, i: nat)
    requires |x| == 31 && i < 31
    ensures |From(x)| == 31 && From(x)[i] == (if i == 0 then 0xc else x[i - 1] % 16) * 16 + x[i] / 16
  {
    FromByte(0xc, x, i);
  }

  lemma DamagedIs()
    ensures DamagedPacket() == [0xc0] + Zeros(30)
  {
  }

  /** A payload of 31 bytes that is not just a signature, byte by byte. */
  lemma FrameBytes(y: seq<byte>, i: nat)
    requires |y| == 31 && y != [0xc0] + Zeros(30) && i < 31
    ensures |To(y)| == 31 && To(y)[i] == y[i] % 16 * 16 + if i < 30 then y[i + 1] / 16 else 0
  {
    DamagedIs();
    ToByte(0xc, y, i);
  }

  lemma DamagedGivesSid()
    ensures To(DamagedPacket()) == Sid()
  {
    SilenceIsSid();
  }

  lemma SidBits(i: nat)
    requires i < 248
    ensures Get(Msb, Sid(), i) == (i < 95)
  {
  }

  /** A signature with nothing behind it gives a frame of 95 ones, a payload of the wrong length one of zeros. */
  lemma Substitutes(y: seq<byte>, i: nat)
    requires i < 248
    ensures y == [0xc0] + Zeros(30) ==> |To(y)| == 31 && Get(Msb, To(y), i) == (i < 95)
    ensures |y| != 31 ==> To(y) == Zeros(31)
  {
    if y == [0xc0] + Zeros(30) {
      DamagedIs();
      DamagedGivesSid();
      SidBits(i);
    }
  }
}
