/**
 src/fmt_rtp_hr_etsi.c and src/fmt_rtp_hr_ietf.c: the canonical frame as it is, and behind the table of
 contents byte of section 5.2 of RFC 5993.
 */
module FmtRtpHr {
  import opened Bits
  import opened Frames
  import Procqueue
  import Rtp

  const IETF_LEN: nat := 15
  const FT_GOOD_SPEECH: byte := 0
  const FT_NO_DATA: byte := 7

  /** `(ft & 0x7) << 4` */
  function TableOfContents(ft: byte): byte {
    ft % 8 * 16
  }

  /** A payload of the wrong length yields the empty frame. */
  function EtsiTo(y: seq<byte>): (x: seq<byte>)
    ensures |x| == HR_CANON_LEN
  {
    if |y| != HR_CANON_LEN then Zeros(HR_CANON_LEN) else y
  }

  function IetfFrom(x: seq<byte>): seq<byte> {
    [TableOfContents(FT_GOOD_SPEECH)] + x
  }

  function IetfTo(y: seq<byte>): (x: seq<byte>)
    ensures |x| == HR_CANON_LEN
  {
    if |y| != IETF_LEN then Zeros(HR_CANON_LEN) else y[1..]
  }

  method EtsiFromCanon(dst: array<byte>, src: seq<byte>) returns (rv: nat)
    requires |src| == HR_CANON_LEN <= dst.Length
    modifies dst
    ensures rv == HR_CANON_LEN && dst[..] == src + old(dst[..][HR_CANON_LEN..])
  {
    Memcpy(dst, src);
    return |src|;
  }

  method EtsiToCanon(dst: array<byte>, src: seq<byte>) returns (rv: nat)
    requires dst.Length >= HR_CANON_LEN
    modifies dst
    ensures rv == HR_CANON_LEN && dst[..] == EtsiTo(src) + old(dst[..][HR_CANON_LEN..])
  {
    if |src| != HR_CANON_LEN {
      Memset(dst, HR_CANON_LEN);
      return HR_CANON_LEN;
    }
    Memcpy(dst, src);
    return HR_CANON_LEN;
  }

  method IetfFromCanon(dst: array<byte>, src: seq<byte>) returns (rv: nat)
    requires |src| == HR_CANON_LEN && dst.Length >= IETF_LEN
    modifies dst
    ensures rv == IETF_LEN && dst[..] == IetfFrom(src) + old(dst[..][IETF_LEN..])
  {
    dst[0] := TableOfContents(FT_GOOD_SPEECH);
    forall i | 0 <= i < |src| {
      dst[i + 1] := src[i];
    }
    return IETF_LEN;
  }

  /** How many bytes `rtp_hr_ietf_to_canon` writes for a payload of `len` bytes. */
  function IetfWrites(len: nat): nat {
    if len != IETF_LEN then IETF_LEN else HR_CANON_LEN
  }

  /** For a payload of the wrong length it clears one byte more than a canonical frame has. */
  method IetfToCanon(dst: array<byte>, src: seq<byte>) returns (rv: nat)
    requires dst.Length >= IetfWrites(|src|)
    modifies dst
    ensures rv == HR_CANON_LEN && dst[..HR_CANON_LEN] == IetfTo(src)
    ensures dst[HR_CANON_LEN..] == Zeros(IetfWrites(|src|) - HR_CANON_LEN) + old(dst[IetfWrites(|src|)..])
  {
    if |src| != IETF_LEN {
      Memset(dst, IETF_LEN);
      return HR_CANON_LEN;
    }
    Memcpy(dst, src[1..]);
    return HR_CANON_LEN;
  }

  /** What the queue allocates for the converter takes all it writes only for payloads of the right length. */
  lemma IetfAllocationSufficesIff(len: nat)
    ensures IetfWrites(len)
            <= Procqueue.Stage(Procqueue.Processing, IETF_LEN, HR_CANON_LEN, Procqueue.NoProc).Capacity()
            <==> len == IETF_LEN
  {
  }

  /** A packet without data: the table of contents byte with frame type 7 and nothing else. */
  const NO_DATA: seq<byte> := [TableOfContents(FT_NO_DATA)]

  /** Packets of another length get there: the RTP source accepts one without data, and nobody checks its length. */
  lemma NoDataArrives(s: Rtp.SenderState)
    requires s.Valid()
    ensures Rtp.Parse(Rtp.Received(IETF_LEN, s.Packet(NO_DATA)))
            == Rtp.Accepted([0x70], s.sequence, s.timestamp, s.ssrc)
    ensures IetfWrites(|NO_DATA|) > HR_CANON_LEN && IetfTo(NO_DATA) == Zeros(HR_CANON_LEN)
  {
    s.PacketParses(NO_DATA, IETF_LEN);
  }

  /** In terms of bytes: a zero byte in front, and its removal; nothing for rtp-hr-etsi; zeros for any other length. */
  lemma PayloadBytes(x: seq<byte>, y: seq<byte>)
    ensures IetfFrom(x) == [0x00] + x
    ensures |y| == 15 ==> IetfTo(y) == y[1..]
    ensures |y| != 15 ==> IetfTo(y) == Zeros(14)
    ensures |y| == 14 ==> EtsiTo(y) == y
    ensures |y| != 14 ==> EtsiTo(y) == Zeros(14)
  {
  }
}
