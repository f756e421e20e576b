/**
 src/pq_rtp.c: the RTP source and sink.  `Parse` is the receiver's decision on one datagram; `Serialize`
 is an independent reading of sections 5.1 and 5.3.1 of RFC 3550 against which it is judged.
 */
module Rtp {
  import opened Bits
  import Procqueue

  const RTP_HDR_LEN: nat := 12
  const RTP_X_HDR_LEN: nat := 4
  const RTP_VERSION: nat := 2
  const TWO16: nat := 0x1_0000
  const TWO32: nat := 0x1_0000_0000

  // --- Fields of the fixed header, in network byte order -------------------------------------------

  function U16(s: seq<byte>, at: nat): (v: nat)
    requires at + 2 <= |s|
    ensures v < TWO16
  {
    Join(s[at], s[at + 1])
  }

  function Join(hi: nat, lo: nat): nat {
    256 * hi + lo
  }

  function U32(s: seq<byte>, at: nat): (v: nat)
    requires at + 4 <= |s|
    ensures v < TWO32
  {
    TWO16 * U16(s, at) + U16(s, at + 2)
  }

  function Bytes16(v: nat): (s: seq<byte>)
    requires v < TWO16
    ensures |s| == 2 && U16(s, 0) == v
  {
    [v / 256, v % 256]
  }

  function Bytes32(v: nat): (s: seq<byte>)
    requires v < TWO32
    ensures |s| == 4
  {
    Bytes16(v / TWO16) + Bytes16(v % TWO16)
  }

  function Version(d: seq<byte>): nat requires |d| > 0 { d[0] / 64 }

  predicate Padding(d: seq<byte>) requires |d| > 0 { d[0] / 32 % 2 == 1 }

  predicate Extension(d: seq<byte>) requires |d| > 0 { d[0] / 16 % 2 == 1 }

  function CsrcLen(d: seq<byte>): nat requires |d| > 0 { d[0] % 16 * 4 }

  // --- The receiver ---------------------------------------------------------------------------------

  datatype Parsed = Rejected | Accepted(payload: seq<byte>, sequence: nat, timestamp: nat, ssrc: nat)

  /** The header extension with its own header, 0 when there is none. */
  function ExtLen(d: seq<byte>): (n: nat)
    requires |d| > 0 && (Extension(d) ==> RTP_HDR_LEN + CsrcLen(d) + RTP_X_HDR_LEN <= |d|)
  {
    if Extension(d) then U16(d, RTP_HDR_LEN + CsrcLen(d) + 2) * 4 + RTP_X_HDR_LEN else 0
  }

  /** The padding count is the last byte of the datagram. */
  function PadLen(d: seq<byte>): nat
    requires |d| > 0
  {
    if Padding(d) then d[|d| - 1] else 0
  }

  /** Every length that the header announces fits the datagram. */
  predicate Fits(d: seq<byte>) {
    && |d| >= RTP_HDR_LEN && Version(d) == RTP_VERSION
    && |d| >= RTP_HDR_LEN + CsrcLen(d)
    && (Extension(d) ==> |d| >= RTP_HDR_LEN + CsrcLen(d) + RTP_X_HDR_LEN)
    && |d| >= RTP_HDR_LEN + CsrcLen(d) + ExtLen(d) + PadLen(d)
  }

  function Parse(d: seq<byte>): (r: Parsed)
    ensures r.Accepted? ==> r.sequence < TWO16 && r.timestamp < TWO32 && r.ssrc < TWO32
  {
    if Fits(d) then
      Accepted(d[RTP_HDR_LEN + CsrcLen(d) + ExtLen(d)..|d| - PadLen(d)], U16(d, 2), U32(d, 4), U32(d, 8))
    else
      Rejected
  }

  /** What a `read` into a buffer of `blkLen + 256` bytes returns of a datagram. */
  function Received(blkLen: nat, dgram: seq<byte>): seq<byte> {
    if |dgram| <= blkLen + 256 then dgram else dgram[..blkLen + 256]
  }

  /** The checks of `pq_cb_rtp_input`: payload pointer and length are adjusted part by part. */
  method Locate(buf: seq<byte>) returns (ok: bool, payload: nat, payloadLen: int)
    ensures ok <==> Parse(buf).Accepted?
    ensures ok ==> 0 <= payloadLen && payload + payloadLen <= |buf| && |buf| >= RTP_HDR_LEN
    ensures ok ==> Parse(buf).payload == buf[payload..payload + payloadLen]
  {
    payload, payloadLen := 0, 0;
    var n := |buf|;
    if n <= 0 || n < RTP_HDR_LEN || Version(buf) != RTP_VERSION {
      return false, payload, payloadLen;
    }
    payload := RTP_HDR_LEN + CsrcLen(buf);
    payloadLen := n - RTP_HDR_LEN - CsrcLen(buf);
    if payloadLen < 0 {
      return false, payload, payloadLen;
    }
    if Extension(buf) {
      if payloadLen < RTP_X_HDR_LEN {
        return false, payload, payloadLen;
      }
      var xLen := U16(buf, payload + 2) * 4 + RTP_X_HDR_LEN;
      payload := payload + xLen;
      payloadLen := payloadLen - xLen;
      if payloadLen < 0 {
        return false, payload, payloadLen;
      }
    }
    if Padding(buf) {
      payloadLen := payloadLen - buf[payload + payloadLen - 1];
      if payloadLen < 0 {
        return false, payload, payloadLen;
      }
    }
    return true, payload, payloadLen;
  }

  /** `struct pq_state_rtp` */
  class State {
    var blkLen: nat
    var duration: nat
    var payloadType: byte
    var sequence: nat
    var timestamp: nat
    var ssrc: nat

    ghost predicate Valid()
      reads this
    {
      sequence < TWO16 && timestamp < TWO32 && ssrc < TWO32 && duration < TWO32
    }

    /** `pq_queue_rtp_op`: a source starts from zeros, a sink from three random numbers cut to field size. */
    constructor (blkLen: nat, input: bool, pt: byte, rand: nat, random1: nat, random2: nat)
      ensures Valid() && this.blkLen == blkLen && duration == 160 && payloadType == pt
      ensures input ==> ssrc == 0 && sequence == 0 && timestamp == 0
      ensures !input ==> ssrc == rand % TWO32 && sequence == random1 % TWO16 && timestamp == random2 % TWO32
    {
      this.blkLen, duration, payloadType := blkLen, 160, pt;
      if input {
        ssrc, sequence, timestamp := 0, 0, 0;
      } else {
        ssrc, sequence, timestamp := rand % TWO32, random1 % TWO16, random2 % TWO32;
      }
    }

    /**
     `pq_cb_rtp_input` on the next datagram.  The model stops in front of a copy that overruns the output
     buffer, and says so; `BufferSufficesIff` tells for which buffers that cannot happen.
     */
    method Input(out: array<byte>, dgram: seq<byte>) returns (rv: int, overrun: bool)
      requires Valid()
      modifies this`sequence, this`timestamp, this`ssrc, out
      ensures Valid()
      ensures match Parse(Received(blkLen, dgram))
        case Rejected =>
          && rv == -1 && !overrun && out[..] == old(out[..])
          && sequence == old(sequence) && timestamp == old(timestamp) && ssrc == old(ssrc)
        case Accepted(payload, s, t, x) =>
          && rv == |payload| && sequence == s && timestamp == t && ssrc == x
          && (overrun <==> |payload| > out.Length)
          && out[..] == if overrun then old(out[..]) else payload + old(out[..][|payload|..])
    {
      var buf := Received(blkLen, dgram);
      var ok, payload, payloadLen := Locate(buf);
      if !ok {
        return -1, false;
      }
      ssrc := U32(buf, 8);
      timestamp := U32(buf, 4);
      sequence := U16(buf, 2);
      if payloadLen > out.Length {
        return payloadLen, true;
      }
      Memcpy(out, buf[payload..payload + payloadLen]);
      return payloadLen, false;
    }

    ghost function Sender(): SenderState
      reads this
      requires Valid()
    {
      SenderState(duration, payloadType, sequence, timestamp, ssrc)
    }

    /** `pq_cb_rtp_output`: `written` is what the socket reports; the counters advance whatever it says. */
    method Output(payload: seq<byte>, written: int) returns (rv: int, packet: seq<byte>)
      requires Valid()
      modifies this`sequence, this`timestamp
      ensures Valid() && Sender() == old(Sender()).Next()
      ensures packet == old(Sender()).Packet(payload) && |packet| == 12 + |payload|
      ensures packet[..2] == [0x80, payloadType % 128] && packet[12..] == payload
      ensures 0x100 * (packet[2] as int) + packet[3] as int == old(sequence)
      ensures sequence == (old(sequence) + 1) % 0x1_0000
      ensures timestamp == (old(timestamp) + duration) % 0x1_0000_0000
      ensures rv == if written == |payload| + RTP_HDR_LEN then 0 else -1
    {
      packet := [RTP_VERSION * 64, payloadType % 128];
      packet := packet + Bytes16(sequence);
      sequence := (sequence + 1) % TWO16;
      packet := packet + Bytes32(timestamp);
      timestamp := (timestamp + duration) % TWO32;
      packet := packet + Bytes32(ssrc);
      packet := packet + payload;
      SentBytes(old(Sender()), payload);
      rv := if written == |packet| then 0 else -1;
    }
  }

  // --- The sender -----------------------------------------------------------------------------------

  datatype SenderState = SenderState(duration: nat, payloadType: byte, sequence: nat, timestamp: nat, ssrc: nat) {
    predicate Valid() {
      sequence < TWO16 && timestamp < TWO32 && ssrc < TWO32
    }

    function Next(): (s: SenderState)
      requires Valid()
      ensures s.Valid()
    {
      this.(sequence := (sequence + 1) % TWO16, timestamp := (timestamp + duration) % TWO32)
    }

    function Header(): (h: seq<byte>)
      requires Valid()
      ensures |h| == RTP_HDR_LEN
    {
      [RTP_VERSION * 64, payloadType % 128] + Bytes16(sequence) + Bytes32(timestamp) + Bytes32(ssrc)
    }

    function Packet(payload: seq<byte>): seq<byte>
      requires Valid()
    {
      Header() + payload
    }

    /** The state after `n` packets. */
    function After(n: nat): (s: SenderState)
      requires Valid()
      ensures s.Valid()
    {
      if n == 0 then this else After(n - 1).Next()
    }

    /** The counters after `n` packets, with wrap-around. */
    lemma {:induction false} Counters(n: nat)
      requires Valid()
      ensures After(n) == this.(sequence := (sequence + n) % TWO16, timestamp := (timestamp + duration * n) % TWO32)
    {
      if n == 0 {
      } else {
        Counters(n - 1);
        Distribute(duration, n);
        CountersStep(n, duration * (n - 1));
        assert timestamp + duration * (n - 1) + duration == timestamp + duration * n;
      }
    }

    lemma CountersStep(n: nat, ticks: nat)
      requires Valid() && n > 0
      requires After(n - 1) == this.(sequence := (sequence + (n - 1)) % TWO16, timestamp := (timestamp + ticks) % TWO32)
      ensures After(n) == this.(sequence := (sequence + n) % TWO16, timestamp := (timestamp + ticks + duration) % TWO32)
    {
      NextCounters(sequence + (n - 1), timestamp + ticks);
    }

    lemma NextCounters(a: nat, b: nat)
      requires Valid()
      ensures this.(sequence := a % TWO16, timestamp := b % TWO32).Next()
           == this.(sequence := (a + 1) % TWO16, timestamp := (b + duration) % TWO32)
    {
      Wrap16(a, 1);
      Wrap32(b, duration);
    }

    /** The receiver finds the header fields and the payload, cut to what its buffer holds. */
    lemma PacketParses(payload: seq<byte>, blkLen: nat)
      requires Valid()
      ensures Parse(Received(blkLen, Packet(payload))) ==
        Accepted(if |payload| <= blkLen + 244 then payload else payload[..blkLen + 244], sequence, timestamp, ssrc)
    {
      var cut := if |payload| <= blkLen + 244 then payload else payload[..blkLen + 244];
      var p := RtpPacket(payloadType % 128, sequence, timestamp, ssrc, [], NoExt, cut, []);
      assert p.Fixed() == Header();
      assert Received(blkLen, Packet(payload)) == Header() + cut;
      p.PlainBytes();
      p.Understood();
    }
  }

  lemma BytesOf32(v: nat)
    requires v < TWO32
    ensures Bytes32(v) == [v / 0x100_0000, v / 0x1_0000 % 0x100, v / 0x100 % 0x100, v % 0x100]
  {
    var hi, lo := v / TWO16, v % TWO16;
    assert v == TWO16 * hi + lo;
    Quarter(v, hi, lo);
  }

  lemma Quarter(v: nat, hi: nat, lo: nat)
    requires v == 0x1_0000 * hi + lo && lo < 0x1_0000 && hi < 0x1_0000
    ensures hi / 0x100 == v / 0x100_0000 && hi % 0x100 == v / 0x1_0000 % 0x100
    ensures lo / 0x100 == v / 0x100 % 0x100 && lo % 0x100 == v % 0x100
  {
    var a, b, c, d := hi / 0x100, hi % 0x100, lo / 0x100, lo % 0x100;
    assert v == 0x100_0000 * a + 0x1_0000 * b + 0x100 * c + d;
    assert v / 0x100 == 0x1_0000 * a + 0x100 * b + c;
    assert v / 0x1_0000 == 0x100 * a + b;
  }

  /**
   What is sent, byte by byte: version 2 without padding, extension or sources; no marker and the payload
   type in seven bits; both counters and the source number in network byte order; and the payload.
   */
  lemma SentBytes(s: SenderState, payload: seq<byte>)
    requires s.Valid()
    ensures s.Packet(payload) == [
      0x80, s.payloadType % 128, s.sequence / 0x100, s.sequence % 0x100,
      s.timestamp / 0x100_0000, s.timestamp / 0x1_0000 % 0x100, s.timestamp / 0x100 % 0x100, s.timestamp % 0x100,
      s.ssrc / 0x100_0000, s.ssrc / 0x1_0000 % 0x100, s.ssrc / 0x100 % 0x100, s.ssrc % 0x100] + payload
  {
    BytesOf32(s.timestamp);
    BytesOf32(s.ssrc);
  }

  /** Every packet sent is the well-formed packet of RFC 3550 with these fields, and no other. */
  lemma SentSerializes(s: SenderState, payload: seq<byte>)
    requires s.Valid()
    ensures var p := RtpPacket(s.payloadType % 128, s.sequence, s.timestamp, s.ssrc, [], NoExt, payload, []);
      p.WellFormed() && s.Packet(payload) == p.Serialize()
  {
    var p := RtpPacket(s.payloadType % 128, s.sequence, s.timestamp, s.ssrc, [], NoExt, payload, []);
    assert p.First() == RTP_VERSION * 64;
    assert p.Fixed() == s.Header();
    p.PlainBytes();
  }

  /** Packet `i` of any stream: type and source number are constant, the counters are `i` steps on. */
  lemma StreamSerializes(s: SenderState, payloads: seq<seq<byte>>, i: nat)
    requires s.Valid() && i < |payloads|
    ensures var p := RtpPacket(s.payloadType % 128, (s.sequence + i) % 0x1_0000,
                               (s.timestamp + s.duration * i) % 0x1_0000_0000, s.ssrc, [], NoExt, payloads[i], []);
      p.WellFormed() && Stream(s, payloads)[i] == p.Serialize()
  {
    s.Counters(i);
    SentSerializes(s.After(i), payloads[i]);
  }

  lemma Distribute(d: nat, n: nat)
    requires n > 0
    ensures d * n == d * (n - 1) + d
  {
  }

  lemma Wrap16(a: nat, d: nat)
    ensures (a % TWO16 + d) % TWO16 == (a + d) % TWO16
  {
  }

  lemma Wrap32(a: nat, d: nat)
    ensures (a % TWO32 + d) % TWO32 == (a + d) % TWO32
  {
  }

  lemma Slice16(d: seq<byte>, at: nat)
    requires at + 2 <= |d|
    ensures U16(d, at) == U16(d[at..at + 2], 0)
  {
  }

  lemma Slice32(d: seq<byte>, at: nat, v: nat)
    requires at + 4 <= |d| && v < TWO32 && d[at..at + 4] == Bytes32(v)
    ensures U32(d, at) == v
  {
    var b := Bytes32(v);
    assert d[at] == b[0] && d[at + 1] == b[1] && d[at + 2] == b[2] && d[at + 3] == b[3];
  }

  /** The packets a sink in state `s` sends for a sequence of payloads. */
  function Stream(s: SenderState, payloads: seq<seq<byte>>): (packets: seq<seq<byte>>)
    requires s.Valid()
    ensures |packets| == |payloads|
  {
    seq(|payloads|, i requires 0 <= i < |payloads| => s.After(i).Packet(payloads[i]))
  }

  /** Packet `i` of any stream is received as payload `i`, with both counters `i` steps on, and a fixed source. */
  lemma StreamRoundTrip(s: SenderState, payloads: seq<seq<byte>>, blkLen: nat, i: nat)
    requires s.Valid() && i < |payloads| && |payloads[i]| <= blkLen + 244
    ensures Parse(Received(blkLen, Stream(s, payloads)[i])) ==
      Accepted(payloads[i], (s.sequence + i) % TWO16, (s.timestamp + s.duration * i) % TWO32, s.ssrc)
  {
    s.Counters(i);
    s.After(i).PacketParses(payloads[i], blkLen);
  }

  lemma PayloadBound(blkLen: nat, d: seq<byte>)
    requires Parse(Received(blkLen, d)).Accepted?
    ensures |Parse(Received(blkLen, d)).payload| <= blkLen + 244
  {
  }

  lemma LongestPayload(blkLen: nat) returns (d: seq<byte>)
    ensures var p := Parse(Received(blkLen, d)); p.Accepted? && |p.payload| == blkLen + 244
  {
    var s, longest := SenderState(160, 0, 0, 0, 0), Zeros(blkLen + 244);
    s.PacketParses(longest, blkLen);
    d := s.Packet(longest);
  }

  /** The payload of every datagram a source may see fits `size` bytes. */
  ghost predicate Suffices(blkLen: nat, size: nat) {
    forall d: seq<byte> :: Parse(Received(blkLen, d)).Accepted? ==> |Parse(Received(blkLen, d)).payload| <= size
  }

  /** An output buffer takes the payload of every datagram if and only if it has `blkLen + 244` bytes. */
  lemma BufferSufficesIff(blkLen: nat, size: nat)
    ensures Suffices(blkLen, size) <==> size >= blkLen + 244
  {
    if size >= blkLen + 244 {
      forall d: seq<byte> | Parse(Received(blkLen, d)).Accepted?
        ensures |Parse(Received(blkLen, d)).payload| <= size
      {
        PayloadBound(blkLen, d);
      }
    } else {
      var d := LongestPayload(blkLen);
      assert Parse(Received(blkLen, d)).Accepted?;
    }
  }

  /**
   What the queue allocates for an RTP source.  The buffer of a fixed-length format is too small for some
   datagram, that of a variable-length format is large enough for all.
   */
  lemma AllocationSufficesIff(blkLen: nat)
    ensures Suffices(blkLen, Procqueue.Stage(Procqueue.Source, 0, blkLen, Procqueue.NoProc).Capacity()) <==> blkLen == 0
  {
    BufferSufficesIff(blkLen, Procqueue.Stage(Procqueue.Source, 0, blkLen, Procqueue.NoProc).Capacity());
  }

  // --- RFC 3550 -------------------------------------------------------------------------------------

  /** A header extension: two bytes of the profile's choice and a number of 32-bit words. */
  datatype Ext = NoExt | Ext(profile: seq<byte>, data: seq<byte>)

  datatype RtpPacket = RtpPacket(
    second: byte, sequence: nat, timestamp: nat, ssrc: nat,
    csrc: seq<byte>, ext: Ext, payload: seq<byte>, padding: seq<byte>)
  {
    predicate WellFormed() {
      && sequence < TWO16 && timestamp < TWO32 && ssrc < TWO32
      && |csrc| % 4 == 0 && |csrc| <= 60
      && (ext.Ext? ==> |ext.profile| == 2 && |ext.data| % 4 == 0 && |ext.data| / 4 < TWO16)
      && (padding != [] ==> padding[|padding| - 1] == |padding|)
    }

    function First(): (b: byte)
      requires WellFormed()
    {
      128 + (if padding != [] then 32 else 0) + (if ext.Ext? then 16 else 0) + |csrc| / 4
    }

    function Fixed(): (s: seq<byte>)
      requires WellFormed()
      ensures |s| == RTP_HDR_LEN
    {
      [First(), second] + Bytes16(sequence) + Bytes32(timestamp) + Bytes32(ssrc)
    }

    function ExtBytes(): (s: seq<byte>)
      requires WellFormed()
    {
      match ext
      case NoExt => []
      case Ext(profile, data) => profile + Bytes16(|data| / 4) + data
    }

    function Serialize(): (s: seq<byte>)
      requires WellFormed()
    {
      Fixed() + csrc + ExtBytes() + payload + padding
    }

    lemma PlainBytes()
      requires WellFormed() && csrc == [] && ext == NoExt && padding == []
      ensures Serialize() == Fixed() + payload
    {
    }

    lemma FirstFields()
      requires WellFormed()
      ensures First() / 64 == 2 && (First() / 32 % 2 == 1 <==> padding != []) && (First() / 16 % 2 == 1 <==> ext.Ext?)
      ensures First() % 16 * 4 == |csrc|
    {
    }

    lemma FixedFields(d: seq<byte>)
      requires WellFormed() && Fixed() <= d
      ensures U16(d, 2) == sequence && U32(d, 4) == timestamp && U32(d, 8) == ssrc && d[0] == First()
    {
      assert d[2..4] == Bytes16(sequence) && d[4..8] == Bytes32(timestamp) && d[8..12] == Bytes32(ssrc);
      Slice16(d, 2);
      Slice32(d, 4, timestamp);
      Slice32(d, 8, ssrc);
    }

    /**
     Every well-formed packet, with contributing sources, extension and padding, is accepted and its payload
     found.
     */
    lemma Understood()
      requires WellFormed()
      ensures Parse(Serialize()) == Accepted(payload, sequence, timestamp, ssrc)
    {
      var d := Serialize();
      FirstFields();
      FixedFields(d);
      var at := RTP_HDR_LEN + |csrc|;
      if ext.Ext? {
        assert d[at + 2..at + 4] == Bytes16(|ext.data| / 4);
        Slice16(d, at + 2);
        assert ExtLen(d) == |ExtBytes()|;
      }
      assert padding != [] ==> d[|d| - 1] == padding[|padding| - 1];
      assert d[at + |ExtBytes()|..|d| - |padding|] == payload;
    }
  }

  /** The packet that an accepted datagram stands for. */
  function Dissect(d: seq<byte>): (p: RtpPacket)
    requires Fits(d)
  {
    var at := RTP_HDR_LEN + CsrcLen(d);
    RtpPacket(
      d[1], U16(d, 2), U32(d, 4), U32(d, 8), d[RTP_HDR_LEN..at],
      if Extension(d) then Ext(d[at..at + 2], d[at + 4..at + ExtLen(d)]) else NoExt,
      d[at + ExtLen(d)..|d| - PadLen(d)],
      d[|d| - PadLen(d)..])
  }

  lemma Bytes16Of(d: seq<byte>, at: nat)
    requires at + 2 <= |d|
    ensures Bytes16(U16(d, at)) == d[at..at + 2]
  {
  }

  lemma Bytes32Of(d: seq<byte>, at: nat)
    requires at + 4 <= |d|
    ensures Bytes32(U32(d, at)) == d[at..at + 4]
  {
    Bytes16Of(d, at);
    Bytes16Of(d, at + 2);
    assert U32(d, at) / TWO16 == U16(d, at) && U32(d, at) % TWO16 == U16(d, at + 2);
    assert d[at..at + 4] == d[at..at + 2] + d[at + 2..at + 4];
  }

  /** The padding flag comes with a count that is not zero, as RFC 3550 demands: the count includes itself. */
  predicate PaddingCounted(d: seq<byte>)
    requires |d| > 0
  {
    Padding(d) ==> d[|d| - 1] != 0
  }

  lemma Quadruple(n: nat)
    ensures n * 4 % 4 == 0 && n * 4 / 4 == n
  {
  }

  lemma DissectWellFormed(d: seq<byte>)
    requires Fits(d) && PaddingCounted(d)
    ensures Dissect(d).WellFormed()
  {
    var p := Dissect(d);
    assert |p.csrc| == d[0] % 16 * 4;
    Quadruple(d[0] % 16);
    if Extension(d) {
      var words := U16(d, RTP_HDR_LEN + CsrcLen(d) + 2);
      assert |p.ext.data| == words * 4;
      Quadruple(words);
    }
    assert |p.padding| == PadLen(d);
  }

  /** The first byte is made of its four fields. */
  lemma FirstByte(b: byte)
    ensures b == b / 64 * 64 + b / 32 % 2 * 32 + b / 16 % 2 * 16 + b % 16
  {
    assert b / 32 == b / 64 * 2 + b / 32 % 2;
    assert b / 16 == b / 32 * 2 + b / 16 % 2;
  }

  lemma DissectFirst(d: seq<byte>)
    requires Fits(d) && PaddingCounted(d) && Dissect(d).WellFormed()
    ensures Dissect(d).First() == d[0]
  {
    var p := Dissect(d);
    FirstByte(d[0]);
    Quadruple(d[0] % 16);
    assert |p.csrc| == d[0] % 16 * 4 && (p.padding != [] <==> Padding(d));
  }

  lemma DissectFixed(d: seq<byte>)
    requires Fits(d) && PaddingCounted(d) && Dissect(d).WellFormed()
    ensures Dissect(d).Fixed() == d[..RTP_HDR_LEN]
  {
    DissectFirst(d);
    Bytes16Of(d, 2);
    Bytes32Of(d, 4);
    Bytes32Of(d, 8);
    assert d[..RTP_HDR_LEN] == [d[0], d[1]] + d[2..4] + d[4..8] + d[8..12];
  }

  lemma DissectExt(d: seq<byte>, at: nat)
    requires Fits(d) && PaddingCounted(d) && Dissect(d).WellFormed() && at == RTP_HDR_LEN + CsrcLen(d)
    ensures Dissect(d).ExtBytes() == d[at..at + ExtLen(d)]
  {
    if Extension(d) {
      var end := at + ExtLen(d);
      Bytes16Of(d, at + 2);
      Quadruple(U16(d, at + 2));
      assert d[at..end] == d[at..at + 2] + d[at + 2..at + 4] + d[at + 4..end];
    }
  }

  lemma Pieces(d: seq<byte>, i: nat, j: nat, k: nat, l: nat)
    requires i <= j <= k <= l <= |d|
    ensures d == d[..i] + d[i..j] + d[j..k] + d[k..l] + d[l..]
  {
  }

  lemma DissectSerializes(d: seq<byte>)
    requires Fits(d) && PaddingCounted(d)
    ensures Dissect(d).WellFormed() && Dissect(d).Serialize() == d
  {
    DissectWellFormed(d);
    DissectFixed(d);
    var at := RTP_HDR_LEN + CsrcLen(d);
    DissectExt(d, at);
    Pieces(d, RTP_HDR_LEN, at, at + ExtLen(d), |d| - PadLen(d));
  }

  /**
   The language of the receiver: apart from datagrams that announce padding of length zero, it accepts
   exactly the well-formed packets of RFC 3550.
   */
  lemma AcceptsExactly(d: seq<byte>)
    ensures (exists p: RtpPacket :: p.WellFormed() && p.Serialize() == d)
            <==> |d| > 0 && Parse(d).Accepted? && PaddingCounted(d)
  {
    if |d| > 0 && Parse(d).Accepted? && PaddingCounted(d) {
      DissectSerializes(d);
    }
    if p: RtpPacket :| p.WellFormed() && p.Serialize() == d {
      p.Understood();
      p.FirstFields();
      p.FixedFields(d);
    }
  }

  /** The length of the header extension that starts at byte `at`, as its own header announces it. */
  lemma ExtLenIs(d: seq<byte>)
    requires |d| > 0 && 12 + d[0] as int % 16 * 4 + 4 <= |d|
    ensures var at := 12 + d[0] as int % 16 * 4;
      ExtLen(d) == if d[0] / 16 % 2 == 1 then (0x100 * (d[at + 2] as int) + d[at + 3] as int) * 4 + 4 else 0
  {
  }

  /** What the receiver accepts and finds, in terms of the bytes of the datagram. */
  lemma AcceptedBytes(d: seq<byte>)
    ensures Parse(d).Accepted? <==>
      && |d| >= 12 && d[0] / 64 == 2
      && var at, pad := 12 + d[0] as int % 16 * 4, if d[0] / 32 % 2 == 1 then d[|d| - 1] else 0;
      if d[0] / 16 % 2 == 1
      then at + 4 <= |d| && at + (0x100 * (d[at + 2] as int) + d[at + 3] as int) * 4 + 4 + pad <= |d|
      else at + pad <= |d|
    ensures Parse(d).Accepted? ==>
      var at, pad := 12 + d[0] as int % 16 * 4, if d[0] / 32 % 2 == 1 then d[|d| - 1] else 0;
      var ext := if d[0] / 16 % 2 == 1 then (0x100 * (d[at + 2] as int) + d[at + 3] as int) * 4 + 4 else 0;
      && Parse(d).payload == d[at + ext..|d| - pad]
      && Parse(d).sequence == 0x100 * (d[2] as int) + d[3] as int
      && Parse(d).timestamp ==
         0x100_0000 * (d[4] as int) + 0x1_0000 * (d[5] as int) + 0x100 * (d[6] as int) + d[7] as int
      && Parse(d).ssrc ==
         0x100_0000 * (d[8] as int) + 0x1_0000 * (d[9] as int) + 0x100 * (d[10] as int) + d[11] as int
  {
    if |d| > 0 && 12 + d[0] as int % 16 * 4 + 4 <= |d| {
      ExtLenIs(d);
    }
  }

  /** A zero count is taken for no padding: the whole rest is payload. */
  lemma ZeroPadding(d: seq<byte>)
    requires Fits(d) && !PaddingCounted(d)
    ensures Parse(d).payload == d[RTP_HDR_LEN + CsrcLen(d) + ExtLen(d)..]
  {
  }

  /** The shortest such datagram, a header with the padding flag and a last byte of zero, is accepted. */
  lemma ZeroPaddingAccepted()
    ensures var d: seq<byte> := [0xa0] + Zeros(11); Fits(d) && !PaddingCounted(d) && Parse(d).payload == []
  {
  }

  /** In an accepted datagram every byte is accounted for, and the payload is one contiguous piece of it. */
  lemma Conservation(d: seq<byte>)
    requires Parse(d).Accepted?
    ensures var at := RTP_HDR_LEN + CsrcLen(d) + ExtLen(d); var n := |Parse(d).payload|;
      at + n + PadLen(d) == |d| && Parse(d).payload == d[at..at + n]
  {
  }
}
