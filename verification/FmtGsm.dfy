/** src/fmt_gsm.c: classic .gsm frames, also the RTP payload of section 4.5.8 of RFC 3551. */
module FmtGsm {
  import opened Bits
  import opened Frames
  import opened Placement
  import opened Nibbles

  const GSM_LEN: nat := 33
  const GSM_MAGIC: byte := 0xd

  function GsmLayout(): (l: Layout)
    ensures l.Valid() && l.canon.len == FR_CANON_LEN && l.side.len == GSM_LEN
  {
    NibbleLayout(GSM_LEN, GSM_MAGIC)
  }

  method FromCanon(dst: array<byte>, src: seq<byte>) returns (rv: nat)
    requires |src| == FR_CANON_LEN && dst.Length >= GSM_LEN
    modifies dst
    ensures rv == GSM_LEN && dst[..] == GsmLayout().FromCanon(src) + old(dst[..][GSM_LEN..])
  {
    ShiftDown(dst, GSM_MAGIC, src);
    return GSM_LEN;
  }

  method ToCanon(dst: array<byte>, src: seq<byte>) returns (rv: nat)
    requires |src| == GSM_LEN && dst.Length >= FR_CANON_LEN
    modifies dst
    ensures rv == FR_CANON_LEN && dst[..] == GsmLayout().ToCanon(src) + old(dst[..][FR_CANON_LEN..])
  {
    ShiftUp(dst, GSM_MAGIC, src);
    return FR_CANON_LEN;
  }

  lemma Covers()
    ensures GsmLayout().Covers(FR_BITS)
  {
    NibbleCovers(GSM_LEN, GSM_MAGIC);
  }

  /** Only the last canonical nibble is lost, and only the leading nibble of a .gsm frame is normalised. */
  lemma RoundTrips(x: seq<byte>, y: seq<byte>)
    requires |x| == FR_CANON_LEN && |y| == GSM_LEN
    ensures GsmLayout().ToCanon(GsmLayout().FromCanon(x)) == ClearFrom(FR_BITS, x)
    ensures GsmLayout().FromCanon(GsmLayout().ToCanon(y)) == [0xd0 + y[0] % 16] + y[1..]
  {
    NibbleCovers(GSM_LEN, GSM_MAGIC);
    GsmLayout().RoundTrip(FR_BITS, x);
    Signature(GSM_MAGIC, y);
  }

  /** Byte by byte: every byte straddles two canonical ones, the first the signature 0xd. */
  lemma FromBytes(x: seq<byte>, i: nat)
    requires |x| == 33 && i < 33
    ensures |GsmLayout().FromCanon(x)| == 33
    ensures GsmLayout().FromCanon(x)[i] == (if i == 0 then 0xd else x[i - 1] % 16) * 16 + x[i] / 16
  {
    FromByte(0xd, x, i);
  }

  /** And back, with zero behind the last byte. */
  lemma ToBytes(y: seq<byte>, i: nat)
    requires |y| == 33 && i < 33
    ensures |GsmLayout().ToCanon(y)| == 33
    ensures GsmLayout().ToCanon(y)[i] == y[i] % 16 * 16 + if i < 32 then y[i + 1] / 16 else 0
  {
    ToByte(0xd, y, i);
  }
}
