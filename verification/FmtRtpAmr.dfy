/** src/fmt_rtp_amr.c: the AMR payload of RFC 4867, one frame per packet, with substitution of damaged frames. */
module FmtRtpAmr {
  import opened Bits
  import Rtp

  /** The payload header of section 4.4.1: no mode request. */
  const NO_REQUEST: byte := 0xf0
  /** Header and SID frame of section 4.2.3 of TS 126 101. */
  const SILENCE: seq<byte> := [0x80, 0x44, 0x00, 0x00, 0x00, 0x00, 0x00]

  function From(x: seq<byte>): seq<byte> {
    [NO_REQUEST] + x
  }

  /** `(b & 0x04) != 0`: the frame is not severely damaged. */
  predicate Quality(b: byte) {
    Bit(b, 2)
  }

  /** What `rtp_amr_to_canon` delivers, or `Overrun` if its `memcpy` leaves the source buffer. */
  datatype Copied = Delivered(frame: seq<byte>) | Overrun

  /** `src_len - 1` on unsigned 32-bit integers. */
  function CopyLength(len: nat): (n: nat) {
    (len + 0xffff_ffff) % 0x1_0000_0000
  }

  /** `memcpy(dst, src + 1, n)` */
  function CopyBehindHeader(src: seq<byte>, n: nat): Copied {
    if 1 + n <= |src| then Delivered(src[1..1 + n]) else Overrun
  }

  /** The result on a buffer whose first `len` bytes are the packet; byte 1 is looked at whatever `len` is. */
  function To(buf: seq<byte>, len: nat): Copied
    requires len <= |buf| < 0x1_0000_0000 && 2 <= |buf|
  {
    if Quality(buf[1]) then CopyBehindHeader(buf, CopyLength(len)) else Delivered(SILENCE[1..])
  }

  method FromCanon(dst: array<byte>, src: seq<byte>) returns (rv: nat)
    requires dst.Length >= |src| + 1
    modifies dst
    ensures rv == |src| + 1 && dst[..] == From(src) + old(dst[..][|src| + 1..])
  {
    dst[0] := 0xf0;
    forall i | 0 <= i < |src| {
      dst[i + 1] := src[i];
    }
    return |src| + 1;
  }

  /** The model stops in front of a copy that overruns the source, and says so. */
  method ToCanon(dst: array<byte>, buf: seq<byte>, len: nat) returns (r: Copied)
    requires len <= |buf| < 0x1_0000_0000 && 2 <= |buf| && dst.Length + 1 >= len && dst.Length >= 6
    modifies dst
    ensures r == To(buf, len)
    ensures r.Delivered? ==> |r.frame| <= dst.Length && dst[..] == r.frame + old(dst[..][|r.frame|..])
    ensures r.Overrun? ==> dst[..] == old(dst[..])
  {
    var src, srcLen := buf, len;
    if !Quality(src[1]) {
      src, srcLen := SILENCE, |SILENCE|;
    }
    var n := CopyLength(srcLen);
    if 1 + n > |src| {
      return Overrun;
    }
    Memcpy(dst, src[1..1 + n]);
    return Delivered(src[1..1 + n]);
  }

  /** From one byte on, the unsigned length is the obvious one. */
  lemma CopyLengthIs(len: nat)
    requires 0 < len < 0x1_0000_0000
    ensures CopyLength(len) == len - 1
  {
  }

  /** The exact condition under which the copy stays inside the buffer: there is a packet, or it is replaced. */
  lemma DeliveredIff(buf: seq<byte>, len: nat)
    requires len <= |buf| < 0x1_0000_0000 && 2 <= |buf|
    ensures To(buf, len).Delivered? <==> len > 0 || !Quality(buf[1])
    ensures len > 0 && Quality(buf[1]) ==> To(buf, len) == Delivered(buf[1..len])
  {
    if len > 0 {
      CopyLengthIs(len);
    }
  }

  /** An empty packet: what is behind it in the buffer decides between 2^32 - 1 bytes and the SID frame. */
  lemma EmptyPacket()
    ensures To([NO_REQUEST, 0x04], 0) == Overrun && CopyLength(0) == 0xffff_ffff
    ensures To([NO_REQUEST, 0x00], 0) == Delivered(SILENCE[1..])
  {
    assert Quality(0x04) && !Quality(0x00);
  }

  /**
   Such a packet gets there: a datagram with a header and nothing behind it is accepted with an empty
   payload, the source's buffer keeps what it held, and variable-length items are handed any length.
   */
  lemma EmptyPayloadArrives(s: Rtp.SenderState, blkLen: nat, stale: seq<byte>)
    requires s.Valid() && 2 <= |stale| < 0x1_0000_0000
    ensures var p := Rtp.Parse(Rtp.Received(blkLen, s.Packet([])));
      p.Accepted? && p.payload == [] && (To(p.payload + stale, |p.payload|) == Overrun <==> Quality(stale[1]))
  {
    s.PacketParses([], blkLen);
    assert [] + stale == stale;
    DeliveredIff(stale, 0);
  }

  /** One trip through RTP of a non-empty canonical frame. */
  function Hop(x: seq<byte>): (y: seq<byte>)
    requires x != [] && |x| < 0xffff_ffff
    ensures y != [] && |y| < 0xffff_ffff
  {
    DeliveredIff(From(x), |x| + 1);
    To(From(x), |x| + 1).frame
  }

  function Hops(x: seq<byte>, n: nat): (y: seq<byte>)
    requires x != [] && |x| < 0xffff_ffff
    ensures y != [] && |y| < 0xffff_ffff
  {
    if n == 0 then x else Hop(Hops(x, n - 1))
  }

  /**
   Over any number of trips, a good frame is unchanged and a damaged one becomes the 6-byte SID frame at the
   first.
   */
  lemma {:induction false} HopsIs(x: seq<byte>, n: nat)
    requires x != [] && |x| < 0xffff_ffff
    ensures Hops(x, n) == if n == 0 || Quality(x[0]) then x else [0x44, 0x00, 0x00, 0x00, 0x00, 0x00]
  {
    assert Quality(0x44);
    if n == 0 {
    } else {
      HopsIs(x, n - 1);
      var y := Hops(x, n - 1);
      assert From(y)[1] == y[0] && From(y)[1..|y| + 1] == y;
      DeliveredIff(From(y), |y| + 1);
      assert SILENCE[1..] == [0x44, 0x00, 0x00, 0x00, 0x00, 0x00];
    }
  }

  /** For a payload of two bytes or more the rest of the buffer is irrelevant. */
  lemma OnlyThePacketMatters(a: seq<byte>, b: seq<byte>, len: nat)
    requires 2 <= len <= |a| < 0x1_0000_0000 && len <= |b| < 0x1_0000_0000 && a[..len] == b[..len]
    ensures To(a, len) == To(b, len)
  {
    DeliveredIff(a, len);
    DeliveredIff(b, len);
    assert a[1] == a[..len][1] && b[1] == b[..len][1];
    assert a[1..len] == a[..len][1..] && b[1..len] == b[..len][1..];
  }

  /** A one-byte payload, what an empty frame is sent as, is judged by the stale byte behind it. */
  lemma StaleByteDecides()
    ensures To([NO_REQUEST, 0x04], 1) == Delivered([]) && To([NO_REQUEST, 0x00], 1) == Delivered(SILENCE[1..])
  {
    assert Quality(0x04) && !Quality(0x00);
    assert [NO_REQUEST, 0x04][1..1] == [];
  }

  /** A buffer of the size of an `unsigned int`, with a packet of `len` bytes in front. */
  predicate Holds(buf: seq<byte>, len: nat) {
    2 <= |buf| < 0x1_0000_0000 && len <= |buf|
  }

  /** What is made of a packet of `len` bytes depends on these bytes alone. */
  ghost predicate PacketSuffices(len: nat) {
    forall a: seq<byte>, b: seq<byte> :: Holds(a, len) && Holds(b, len) && a[..len] == b[..len] ==>
        To(a, len) == To(b, len)
  }

  /** Exactly from two bytes on. */
  lemma PacketSufficesIff(len: nat)
    ensures PacketSuffices(len) <==> len >= 2
  {
    if len >= 2 {
      forall a: seq<byte>, b: seq<byte> | Holds(a, len) && Holds(b, len) && a[..len] == b[..len]
        ensures To(a, len) == To(b, len)
      {
        OnlyThePacketMatters(a, b, len);
      }
    } else {
      var a: seq<byte>, b: seq<byte> := [NO_REQUEST, 0x04], [NO_REQUEST, 0x00];
      StaleByteDecides();
      EmptyPacket();
      assert Holds(a, len) && Holds(b, len) && a[..len] == b[..len];
    }
  }

  /**
   In terms of bytes: one header byte 0xf0 in front; and back, the frame without it if the bit of weight 4
   of its first byte is set, and otherwise the six bytes of the SID frame.
   */
  lemma PayloadBytes(x: seq<byte>, buf: seq<byte>, len: nat)
    requires 2 <= |buf| < 0x1_0000_0000 && 0 < len <= |buf|
    ensures From(x) == [0xf0] + x
    ensures buf[1] / 4 % 2 == 1 ==> To(buf, len) == Delivered(buf[1..len])
    ensures buf[1] / 4 % 2 == 0 ==> To(buf, len) == Delivered([0x44, 0x00, 0x00, 0x00, 0x00, 0x00])
  {
    assert Quality(buf[1]) <==> buf[1] / 4 % 2 == 1 by {
      assert Bit(buf[1], 2) == Bit(buf[1] / 2, 1) == Bit(buf[1] / 2 / 2, 0);
    }
    DeliveredIff(buf, len);
    assert SILENCE[1..] == [0x44, 0x00, 0x00, 0x00, 0x00, 0x00];
  }
}
