# gapk: conversion, transcoding and streaming of GSM speech frames

gapk turns a file or RTP stream of GSM speech frames in one packed format into another. It compiles the
pair (input format, output format) into a queue of processing items and runs that queue frame by frame.
This project models five parts of it and proves what they are relied on for.

* **Frame formats.** `Bits`, `Placement`, `HrTables`, `FmtTi`, `FmtTiEfr`, `FmtRacal`, `FmtAmr`, `Nibbles`,
  `FmtGsm`, `FmtRtpEfr`, `FmtRtpHr`, `BitFields`, `FmtHrRef`, `FmtRtpAmr`. The C loops are methods that write a buffer
  in place. Each is proved equal to a value: for table-driven formats a `Move` of payload bits from one
  frame to another, for the parameter words of the half-rate reference code a cut into bit fields. Round
  trips, independence of old buffer contents, and chains of any length (`Conversions`) are then theorems
  about these values. `ByteOperators` ties the arithmetic reading of `>>`, `|`, `&` and `~` on bytes to
  8-bit bit-vectors.
* **The processing queue.** `Procqueue` has the queue as a class with items and buffers updated in place,
  next to its meaning, a function on frames, codec memories and files. `Pipeline` is the compiler,
  `ChainTyping` its type soundness, `Translation` its correctness and the meaning of a whole run, `App` the
  headers, the processing loop and the program as a whole. All of it holds for arbitrary descriptor tables,
  with formats and codecs of fixed or variable length; `Shipped` instantiates it with the sixteen formats of
  gapk, in builds with any choice of speech codecs, and `FileDetours` follows files through successive runs.
* **RTP.** `Rtp` has sender and receiver as a class, and judges the receiver by an independent reading of
  sections 5.1 and 5.3.1 of RFC 3550. `RtpLink` sends the frames of one run to another.
* **Half-rate codec instances.** `GsmHr` runs any number of instances over one global memory image.
* **Error concealment.** `EcuFr` follows the full-rate step machine over whole frame sequences.

The bit-order tables, the error concealment routines and the speech codecs come from other libraries.
They are parameters, and what is demanded of them is a named predicate:

| hypothesis | about |
|---|---|
| `Placement.Permutation(t, 260)` and `(t, 244)` | the full-rate and AMR 12.2 order tables |
| `HrTables.HrOrder.Valid` | both half-rate tables are permutations of 0..111 that keep canonical bits 34 and 35 at entries 93 and 94; `HrTables.SameTableIff` shows that the converters need exactly this |
| `FmtTiEfr.Visited` | the 244 entries of the EFR channel table that the loops visit are distinct and below 260 |
| `EcuFr.Sound` | a reset stores the frame and forgets the rest; concealing succeeds and leaves something to conceal with |
| `GsmHr.HomingSound` | a homing frame also matches up to its first subframe; decoding leaves the parameters alone |
| `ChainTyping.SoundCoder` | an encoder or decoder fed with a frame of the right kind (a length, or a range of lengths) answers with one, or with an error |

## Where the code differs from what one would expect

* `make_processing_chain` ignores the return values of all queue calls. The strict check makes up for it,
  with one exception: the chain is accepted if and only if every call succeeded, or the encoder could not be
  set up and its own format has variable length (`ChainTyping.AcceptedIff`). In the second case a pass calls
  a missing callback if and only if the file holds a block on which the input side reports no error
  (`Translation.LostEncoderCrashes`). `ChainTyping.AcceptedIffReady` turns the condition into one on the
  build: apart from the exception, a request is accepted if and only if the coders it needs are there.
* `hr_ref_to_canon` chooses the width table by the whole voicing word but stores two bits of it. A non-zero
  multiple of 4 is read back with the other table. `FmtHrRef.ParametersRoundTripIff` gives the exact
  condition, `FmtHrRef.MisreadLag` the frame that goes wrong.
* `rtp_amr_to_canon` looks at byte 1 whatever the length is, so a payload of less than two bytes is judged
  by a byte that is not part of it (`FmtRtpAmr.PacketSufficesIff`). For an empty payload, which the RTP
  source may deliver (`FmtRtpAmr.EmptyPayloadArrives`), that byte decides between the SID frame and a copy
  of 2^32 - 1 bytes; `FmtRtpAmr.DeliveredIff` is the exact condition for a copy inside the buffer.
* `rtp_hr_ietf_to_canon` writes 15 bytes when the payload has the wrong length. What the queue allocates for
  it suffices if and only if the length is right (`FmtRtpHr.IetfAllocationSufficesIff`). Between files it
  always is; the RTP source also delivers a packet without data (`FmtRtpHr.NoDataArrives`).
* The RTP receiver takes the padding flag with a count of zero for no padding, which RFC 3550 excludes
  (`Rtp.ZeroPadding`, `Rtp.ZeroPaddingAccepted`). Apart from that it accepts exactly the well-formed packets (`Rtp.AcceptsExactly`).
* The RTP receiver reads up to 256 bytes more than the block length and hands on what is left behind the
  header, so its output buffer needs 244 bytes more than a block (`Rtp.BufferSufficesIff`). What
  `osmo_gapk_pq_prepare` allocates suffices if and only if the block length is 0, that is, for formats of
  variable length (`Rtp.AllocationSufficesIff`).
* The TI EFR converters visit 244 of 260 table entries. They lose no payload bit if and only if none of
  these is a repeated or CRC bit (`FmtTiEfr.LosslessIff`).

## Model

| member | source | states |
|---|---|---|
| `Bits.PutBitBits` | include/osmocom/gapk/utils.h:33-43 | writing bit k sets that bit, keeps every other bit and stays inside the byte |
| `Bits.Put` | include/osmocom/gapk/utils.h:33-43 | after writing bit p of a buffer, bit p has the new value and every other bit of the buffer its old one, in either bit order |
| `Bits.GetBit` | include/osmocom/gapk/utils.h:24-31 | reads exactly bit bn in the chosen order |
| `Bits.PutBitAt` | include/osmocom/gapk/utils.h:65-83 | in place, the buffer becomes the old one with bit bn replaced |
| `Bits.SameBits` | include/osmocom/gapk/utils.h:24-83 | a frame is determined by its bits in either order: the bit accessors lose nothing |
| `Bits.OrdersAre` | include/osmocom/gapk/utils.h:24-83 | bit 8i+r counts from weight 128 down in byte i in one order and from weight 1 up in the other |
| `ByteOperators.TestAgrees` | include/osmocom/gapk/utils.h:30-30 | the arithmetic notion of bit k is what shifting an 8-bit vector down by k and masking its low bit yields |
| `ByteOperators.MaskIs` | include/osmocom/gapk/utils.h:39-42 | the masks of the two lemmas below are 1 shifted by k |
| `ByteOperators.OrAgrees` | include/osmocom/gapk/utils.h:39-40 | setting a bit is the bitwise "or" with the mask |
| `ByteOperators.AndAgrees` | include/osmocom/gapk/utils.h:41-42 | clearing a bit is the bitwise "and" with the complemented mask |
| `ByteOperators.StraddleAgrees` | src/fmt_gsm.c:28-55 | the nibble arithmetic is shift-and-or truncated to 8 bits, for all pairs of bytes |
| `Placement.MoveUnique` | src/fmt_ti.c:99-133 | a frame is the result of a conversion if and only if its payload bits come from the source and the others from the base frame |
| `Placement.LoopIsMove` | src/fmt_ti.c:99-133 | a conversion loop yields the converted frame whatever the buffer held, as soon as the bits it never writes were given their final value; bytes behind the frame stay |
| `Placement.MoveMove` | src/fmt_ti.c:99-133 | converting twice equals converting directly; what the middle frame stores outside the payload never matters |
| `Placement.TailCleared` | src/fmt_racal.c:91-167 | clearing the last byte first covers every bit that a loop over a permutation never writes |
| `Placement.PermutationCovers` | src/fmt_ti.c:99-133 | distinct entries below n, n of them, reach every bit |
| `Placement.Layout.PermutationPayload` | src/fmt_racal.c:91-125 | a format whose table is a permutation of the first n canonical bits holds exactly these n bits |
| `Placement.Layout.RoundTrip` | src/fmt_racal.c:91-167 | from canonical form into a table-driven format and back clears the unused tail bits and changes nothing else |
| `Placement.Layout.Lands` | src/fmt_ti.c:99-133 | payload bit i of a table-driven format and its canonical bit are equal in both directions, and bits that carry no payload have the base value, or are clear in a canonical frame |
| `Placement.Layout.IgnoresTail` | src/fmt_racal.c:91-167 | frames that differ in unused tail bits are converted alike |
| `Placement.Layout.ClearsTail` | src/fmt_racal.c:91-167 | canonical frames come out with clear tail bits |
| `Placement.Layout.SideRoundTrip` | src/fmt_ti.c:99-133 | through canonical form and back a frame keeps its payload and gets its other bits reset |
| `HrTables.SameTable` | src/fmt_ti.c:48-74 | the half-rate decoder picks the voiced or unvoiced table that the encoder picked, and vice versa, although it reads the decision from permuted positions |
| `HrTables.RoundTrip` | src/fmt_racal.c:33-77 | every canonical half-rate frame survives the trip bit for bit, in any channel layout |
| `HrTables.ChannelRoundTrip` | src/fmt_ti.c:39-85 | a channel frame keeps its 112 bits and has gap and tail bits cleared |
| `HrTables.SameTableIff` | src/fmt_ti.c:48-74 | the table is found again on all frames if and only if entries 93 and 94 of both tables are canonical bits 34 and 35 |
| `HrTables.HrLands` | src/fmt_ti.c:39-85 | bit i of the channel order is the canonical bit that entry i of the voiced table names if canonical bit 34 or 35 is set, and of the unvoiced one otherwise; back, channel bits 93 and 94 choose |
| `FmtTi.HrFromCanon` | src/fmt_ti.c:39-62 | the loop computes the data-dependent permutation, with the 4-bit gap clear |
| `FmtTi.HrToCanon` | src/fmt_ti.c:64-85 | the loop computes the inverse permutation, every canonical bit determined by the source |
| `FmtTi.HrFromBits` | src/fmt_ti.c:39-62 | for any canonical frame, bit i of the chosen table, voiced if bit 34 or 35 is set, lands at i, from 95 on at i+4, and every other bit of the 33 bytes is clear |
| `FmtTi.HrToBits` | src/fmt_ti.c:64-85 | for any channel frame, that bit returns to its canonical place, by the table that bits 93 and 94 choose |
| `FmtTi.FrGapCleared` | src/fmt_ti.c:103-105 | the bits never written are 182 to 185, and they lie in the two bytes cleared first |
| `FmtTi.FrFromCanon` | src/fmt_ti.c:99-115 | the 33 bytes written are a function of the source alone; the rest of the buffer is untouched |
| `FmtTi.FrToCanon` | src/fmt_ti.c:117-133 | the 33 canonical bytes are a function of the source alone, tail bits clear |
| `FmtTi.FrBits` | src/fmt_ti.c:99-133 | bit i of the table sits at i, from 182 on at i+4, in both directions; gap and canonical tail are clear |
| `FmtTiEfr.SqueezeBijective` | src/fmt_ti.c:156-176 | the index compression maps the kept channel indices onto 0..243 one to one and keeps their order |
| `FmtTiEfr.Numbered` | src/fmt_ti.c:156-176 | the bits without a canonical place are 71, 72, 123, 124, 178, 179, 230, 231 and those from 252 on; any other loses two per pair of repeated bits below it |
| `FmtTiEfr.EfrFromCanon` | src/fmt_ti.c:147-185 | the loop copies exactly the kept bits among the 244 visited entries into a cleared buffer |
| `FmtTiEfr.EfrToCanon` | src/fmt_ti.c:187-226 | the reverse loop, likewise |
| `FmtTiEfr.EfrFromBits` | src/fmt_ti.c:147-185 | bit by bit on the TI frame: a visited repeated or CRC bit leaves its place clear, any other visited bit is the canonical bit of its number |
| `FmtTiEfr.EfrToBits` | src/fmt_ti.c:187-226 | each such bit returns to its canonical place |
| `FmtTiEfr.GapClear` | src/fmt_ti.c:147-185 | bits 182 to 185 and those from 248 on are clear |
| `FmtTiEfr.UnreachedClear` | src/fmt_ti.c:187-226 | canonical bits that no visited entry names are clear |
| `FmtTiEfr.KeepsReached` | src/fmt_ti.c:147-226 | to TI and back keeps exactly the canonical bits that a visited entry reaches, and clears the others |
| `FmtTiEfr.Stabilises` | src/fmt_ti.c:147-226 | from-to-from equals from, and to-from-to equals to |
| `FmtTiEfr.LosslessIff` | src/fmt_ti.c:147-226 | no payload bit is lost if and only if none of the visited entries is a repeated or CRC bit |
| `FmtRacal.HrFromCanon` | src/fmt_racal.c:33-54 | the data-dependent permutation into LSB-first order |
| `FmtRacal.HrToCanon` | src/fmt_racal.c:56-77 | its inverse |
| `FmtRacal.HrFromBits` | src/fmt_racal.c:33-54 | bit i from the least significant end is the canonical bit that entry i of the table names, voiced if bit 34 or 35 is set |
| `FmtRacal.HrToBits` | src/fmt_racal.c:56-77 | and back, by the table that bits 93 and 94 choose |
| `FmtRacal.FrFromCanon` | src/fmt_racal.c:91-107 | all 33 bytes are determined by the source |
| `FmtRacal.FrToCanon` | src/fmt_racal.c:109-125 | all 33 canonical bytes are determined by the source |
| `FmtRacal.FrBits` | src/fmt_racal.c:91-125 | bit i from the least significant end and canonical bit t[i] are equal in both directions; tails are clear |
| `FmtRacal.EfrFromCanon` | src/fmt_racal.c:139-152 | bit order is reversed within bytes; all 31 bytes are determined by the source |
| `FmtRacal.EfrToCanon` | src/fmt_racal.c:154-167 | the inverse |
| `FmtRacal.EfrBits` | src/fmt_racal.c:139-167 | bit i counted from either end of its byte, in both directions; tails are clear |
| `FmtRacal.EfrCovers` | src/fmt_racal.c:139-167 | the payload of Racal EFR is all 244 canonical bits |
| `FmtAmr.EfrFromCanon` | src/fmt_amr.c:32-49 | header byte, 244 bits in AMR order, clear tail; all 32 bytes determined by the source |
| `FmtAmr.EfrToCanon` | src/fmt_amr.c:52-71 | a wrong header byte is refused with -1 and nothing is written; otherwise the inverse permutation |
| `FmtAmr.HeaderIs` | src/fmt_amr.c:32-49 | 32 bytes, the first 0x3c |
| `FmtAmr.EfrBits` | src/fmt_amr.c:32-71 | bit 8+i and canonical bit t[i] are equal in both directions; tails are clear |
| `FmtAmr.HeaderWritten` | src/fmt_amr.c:32-71 | what the format writes always carries the header byte that it demands when reading |
| `Nibbles.ShiftDown` | src/fmt_gsm.c:28-40 | the byte-shift loop is a shift of the whole bit string by four behind the signature |
| `Nibbles.ShiftUp` | src/fmt_gsm.c:43-55 | the reverse loop is the shift back, last nibble clear |
| `Nibbles.ShiftedBit` | src/fmt_rtp_efr.c:45-80 | canonical bit j is stored as bit j+4, in both directions |
| `Nibbles.FromByte` | src/fmt_gsm.c:28-40 | each byte is the low nibble of the byte before it, or the signature, in front of its own high nibble |
| `Nibbles.ToByte` | src/fmt_gsm.c:43-55 | each byte is its own low nibble in front of the high nibble of the next, zero at the end |
| `Nibbles.Signature` | src/fmt_gsm.c:28-55 | through canonical form and back only the leading nibble can change: it becomes the signature |
| `Nibbles.BareIff` | src/fmt_rtp_efr.c:34-58 | a frame is stored as the bare signature if and only if it has no payload bit set |
| `FmtGsm.FromCanon` | src/fmt_gsm.c:28-40 | a .gsm frame is the canonical bit string shifted behind 0xd |
| `FmtGsm.ToCanon` | src/fmt_gsm.c:43-55 | the shift back |
| `FmtGsm.FromBytes` | src/fmt_gsm.c:28-40 | the 33 bytes in terms of canonical bytes, behind the nibble 0xd |
| `FmtGsm.ToBytes` | src/fmt_gsm.c:43-55 | the 33 canonical bytes in terms of the frame |
| `FmtGsm.RoundTrips` | src/fmt_gsm.c:28-55 | one way only the last nibble is cleared, the other way only the leading nibble becomes 0xd |
| `FmtRtpEfr.FromCanon` | src/fmt_rtp_efr.c:45-58 | the payload is the canonical bit string shifted behind 0xc |
| `FmtRtpEfr.ToCanon` | src/fmt_rtp_efr.c:61-80 | wrong length gives the zero frame, a damaged packet the SID frame, anything else the shift back |
| `FmtRtpEfr.PayloadBytes` | src/fmt_rtp_efr.c:45-58 | the 31 bytes in terms of canonical bytes, behind the nibble 0xc |
| `FmtRtpEfr.FrameBytes` | src/fmt_rtp_efr.c:61-80 | the canonical bytes of any payload of 31 bytes but 0xc0 and zeros |
| `FmtRtpEfr.Substitutes` | src/fmt_rtp_efr.c:34-80 | 0xc0 and 30 zeros give 95 ones, a wrong length gives 31 zero bytes |
| `FmtRtpEfr.PayloadBit` | src/fmt_rtp_efr.c:45-58 | canonical bit j is payload bit j+4 |
| `FmtRtpEfr.DamagedIff` | src/fmt_rtp_efr.c:34-80 | exactly the frames without payload are sent as what the receiver takes for damaged |
| `FmtRtpEfr.SilenceIsSid` | src/fmt_rtp_efr.c:39-80 | the substitute is, in canonical form, 95 ones followed by zeros |
| `FmtRtpEfr.RoundTrip` | src/fmt_rtp_efr.c:45-80 | the payload is kept bit for bit, except that an empty frame becomes the SID frame |
| `FmtRtpEfr.Idempotent` | src/fmt_rtp_efr.c:45-80 | a second trip changes nothing |
| `BitFields.UnfieldsFields` | src/fmt_hr_ref.c:72-123 | cutting a bit string into fields and joining them restores it, whatever the widths |
| `BitFields.FieldsUnfields` | src/fmt_hr_ref.c:72-123 | joining numbers and cutting again reduces each modulo two to its width |
| `FmtHrRef.ReferenceValid` | src/fmt_hr_ref.c:29-69 | both width tables sum to 112, keep the voicing decision at bits 34 and 35, and share their first six widths |
| `FmtHrRef.ReferenceIs` | src/fmt_hr_ref.c:29-69 | the two width tables, entry by entry |
| `FmtHrRef.FromCanonWords` | src/fmt_hr_ref.c:72-97 | the nested loops compute the 18 fields chosen by the voicing bits; further words are left alone |
| `FmtHrRef.ReadWord` | src/fmt_hr_ref.c:86-91 | the 16-bit accumulator holds the number in the next l bits, without truncation |
| `FmtHrRef.Unpack` | src/fmt_hr_ref.c:81-94 | for any width table the bit cursor cuts the frame into its fields, and words behind the table are left alone |
| `FmtHrRef.VoicedParameter` | src/fmt_hr_ref.c:72-97 | with bit 34 or 35 set, bit k from the top of parameter i is canonical bit at+k, where the start and width of each parameter are numbers |
| `FmtHrRef.UnvoicedParameter` | src/fmt_hr_ref.c:72-97 | the same with neither set, for the other table |
| `FmtHrRef.TableChosen` | src/fmt_hr_ref.c:75-81 | either voicing bit chooses the voiced widths |
| `FmtHrRef.ToCanonWords` | src/fmt_hr_ref.c:99-123 | the nested loops write the frame made of the 18 words, whatever the buffer held |
| `FmtHrRef.PackWords` | src/fmt_hr_ref.c:108-120 | after all words, the buffer is the joined bits followed by what was there before |
| `FmtHrRef.WrittenBit` | src/fmt_hr_ref.c:99-123 | a voicing word other than zero chooses the voiced widths, and bit k from the top of parameter i lands at the start of that parameter plus k |
| `FmtHrRef.WriteWord` | src/fmt_hr_ref.c:113-117 | the low l bits of a word, from the top, land behind the bits already written; every other bit of the buffer stays |
| `FmtHrRef.DecFromCanon` | src/fmt_hr_ref.c:125-143 | the decoder's frame is the parameters and four zero flags |
| `FmtHrRef.EncFromCanon` | src/fmt_hr_ref.c:160-176 | the encoder's frame is the parameters and two zero flags |
| `FmtHrRef.RoundTrip` | src/fmt_hr_ref.c:72-123 | every canonical frame is rebuilt from its parameters bit for bit |
| `FmtHrRef.SameWidthsIff` | src/fmt_hr_ref.c:79-106 | the reader uses the writer's width table if and only if the voicing word is zero or no multiple of 4 |
| `FmtHrRef.ParametersRoundTrip` | src/fmt_hr_ref.c:72-123 | under that condition parameters survive, each reduced to its width |
| `FmtHrRef.MisreadLag` | src/fmt_hr_ref.c:72-123 | otherwise a concrete parameter set is misread |
| `FmtHrRef.ParametersRoundTripIff` | src/fmt_hr_ref.c:72-123 | all parameter sets with a given voicing word survive if and only if that condition holds of it |
| `FmtRtpAmr.FromCanon` | src/fmt_rtp_amr.c:34-42 | one header byte in front of the frame |
| `FmtRtpAmr.ToCanon` | src/fmt_rtp_amr.c:45-58 | without the quality bit the SID frame is delivered instead; the copy length wraps at 2^32, and a copy that would leave the source buffer is reported as an overrun |
| `FmtRtpAmr.DeliveredIff` | src/fmt_rtp_amr.c:45-58 | the copy stays inside the buffer if and only if the packet is not empty or the byte behind its header position lacks the quality bit; a good packet is then delivered without its header byte |
| `FmtRtpAmr.PayloadBytes` | src/fmt_rtp_amr.c:30-58 | 0xf0 in front; back, the frame without it if the bit of weight 4 of its first byte is set, else the six bytes of the SID frame |
| `FmtRtpAmr.EmptyPacket` | src/fmt_rtp_amr.c:45-58 | an empty packet gives an overrun or the SID frame, depending on what was in the buffer |
| `FmtRtpAmr.EmptyPayloadArrives` | src/pq_rtp.c:99-144 | a bare RTP header is accepted with an empty payload, and the converter then sees the old contents of the buffer |
| `FmtRtpAmr.HopsIs` | src/fmt_rtp_amr.c:34-58 | over any number of trips a good frame is unchanged and a damaged one becomes the 6-byte SID frame at the first |
| `FmtRtpAmr.OnlyThePacketMatters` | src/fmt_rtp_amr.c:45-58 | from two bytes on the result depends on nothing behind the packet |
| `FmtRtpAmr.StaleByteDecides` | src/fmt_rtp_amr.c:45-58 | a one-byte payload is judged by a byte outside it |
| `FmtRtpAmr.PacketSufficesIff` | src/fmt_rtp_amr.c:45-58 | for every packet length, zero included, the result depends on the packet alone if and only if it has two bytes or more |
| `FmtRtpHr.EtsiFromCanon` | src/fmt_rtp_hr_etsi.c:30-38 | the payload is the canonical frame |
| `FmtRtpHr.EtsiToCanon` | src/fmt_rtp_hr_etsi.c:41-53 | a payload of the right length is the frame, any other gives the empty frame |
| `FmtRtpHr.IetfFromCanon` | src/fmt_rtp_hr_ietf.c:39-56 | a table of contents byte for good speech in front of the frame |
| `FmtRtpHr.IetfToCanon` | src/fmt_rtp_hr_ietf.c:59-73 | the byte is removed; a payload of the wrong length gives the empty frame and clears one byte behind it; the rest of the buffer stays |
| `FmtRtpHr.PayloadBytes` | src/fmt_rtp_hr_ietf.c:39-73 | one zero byte in front and its removal; a wrong length gives a frame of zeros, for rtp-hr-etsi too |
| `FmtRtpHr.IetfAllocationSufficesIff` | src/procqueue.c:158-186 | the buffer that the queue allocates for this converter takes what it writes if and only if the payload has the right length |
| `FmtRtpHr.NoDataArrives` | src/pq_rtp.c:88-144 | an RTP packet that carries only the table of contents byte of a frame without data is accepted, and the converter then writes more than a canonical frame |
| `Conversions.ChainKeepsPayload` | src/fmt_ti.c:99-133 | any list of lossless formats in a row leaves the payload intact and the unused bits clear |
| `Conversions.RouteIsDirect` | src/fmt_ti.c:99-133 | a detour through any number of lossless formats gives the same frame as direct conversion |
| `Conversions.FullRateLossless` | src/fmt_gsm.c:28-55 | gsm, ti-fr and racal-fr are lossless |
| `Conversions.EnhancedFullRateLossless` | src/fmt_amr.c:32-71 | amr-efr and racal-efr are lossless |
| `Conversions.HalfRateLossless` | src/fmt_racal.c:33-77 | ti-hr and racal-hr are lossless |
| `Conversions.HrRefLossless` | src/fmt_hr_ref.c:125-191 | both reference formats are lossless, on hosts of either byte order |
| `Conversions.StoreBytes` | src/fmt_hr_ref.c:125-191 | words are stored in the byte order of the host |
| `Conversions.HrRefNormalises` | src/fmt_hr_ref.c:125-191 | a stored 40- or 44-byte frame with a faithfully stored voicing word comes back with parameters cut to their widths and zero flags |
| `Conversions.HrRefNormalisesIff` | src/fmt_hr_ref.c:125-191 | all stored frames with a given voicing word come back so if and only if that word is zero or no multiple of 4 |
| `Conversions.RtpHrLossless` | src/fmt_rtp_hr_ietf.c:39-73 | both RTP payload formats for half rate are lossless |
| `Conversions.TiEfrLosslessIff` | src/fmt_ti.c:147-226 | ti-efr is one of the lossless formats if and only if its table visits no repeated or CRC bit |
| `Conversions.EfrChainIs` | src/fmt_rtp_efr.c:45-80 | what any chain of EFR formats, rtp-efr included, makes of any frame |
| `Procqueue.Item.Process` | src/procqueue.c:200-204 | one callback: memory, files, the item's own buffer and the return value change as its effect says |
| `Procqueue.Queue.AddItem` | src/procqueue.c:87-104 | a zeroed item is appended and the counter kept in step |
| `Procqueue.Queue.Check` | src/procqueue.c:110-153 | returns 0 exactly for queues whose lengths link up and, in strict mode, that run from a source to a sink, and -22 otherwise |
| `Procqueue.Queue.Prepare` | src/procqueue.c:158-186 | every item but the sinks gets a buffer of its own of its declared size, or of 320 bytes for variable length |
| `Procqueue.Queue.Execute` | src/procqueue.c:191-215 | one pass in place computes the functional meaning of the queue, on any queue where that is safe |
| `Procqueue.Queue.ProcessItem` | src/procqueue.c:197-210 | one turn of the loop changes the memory and the buffer of one item and the files, as the effect of its callback says, and hands its output on |
| `Procqueue.FileBlocks` | src/pq_file.c:36-54 | a source delivers the next block, or on a short read consumes what is left and returns -1; a sink appends its frame, or returns -1 for an empty one |
| `Procqueue.TraceLeads` | src/procqueue.c:191-215 | a pass follows the record of its items: frames and files are handed on from item to item, each memory changes once |
| `Procqueue.TraceEnds` | src/procqueue.c:191-215 | a pass through all items returns 0 with the memories and files of its record |
| `Procqueue.TraceFails` | src/procqueue.c:197-210 | the first item that reports an error ends the pass with that error; the items behind it keep their memories |
| `Procqueue.SafeGuarantees` | src/procqueue.c:191-215 | what a safe pass means at every item it reaches: a callback that does not abort, a frame of exactly the length asked for, and room for the answer in lenOut or 320 bytes |
| `Procqueue.TypeSoundness` | src/procqueue.c:110-215 | a queue of typed items that passes the strict check never calls a missing or aborting callback, hands each item exactly its declared length, and overruns no buffer |
| `Procqueue.KindSoundness` | src/procqueue.c:191-215 | the same for any queue through which kinds of frames can be followed, of fixed or variable length |
| `Procqueue.PassProgress` | src/procqueue.c:191-215 | behind a file source, a pass that succeeds has consumed some of the input file, whatever the items are, so runs end |
| `Pipeline.OptionsAccepted` | src/app_osmo_gapk.c:343-404 | what the option check lets through, exactly: both formats, the needed coder functions, at most one source and one sink |
| `Pipeline.OptionCodes` | src/app_osmo_gapk.c:343-404 | the return code of the option check on every request: -95 for a missing coder, otherwise -22 for two sources or sinks, or for a missing format |
| `Pipeline.QueueFileOp` | src/pq_file.c:62-98 | appends a source or sink with the block length on its open side |
| `Pipeline.QueueFmtConvert` | src/pq_format.c:40-81 | appends a converter between canonical and frame length in the requested direction; for an unknown codec nothing is added and the error code returned |
| `Pipeline.QueueCodec` | src/pq_codec.c:34-89 | appends encoder or decoder with the lengths of its format and the state that the initialisation returned, none without one, or a blank item and an error |
| `Pipeline.QueueInputSide` | src/app_osmo_gapk.c:599-631 | appends the items from the input format to PCM or canonical form, or fails if the format of the decoder is unknown |
| `Pipeline.QueueOutputSide` | src/app_osmo_gapk.c:633-662 | appends the items from PCM or canonical form to the output format, likewise |
| `Pipeline.MakeProcessingChain` | src/app_osmo_gapk.c:556-678 | the queue ends up as the compiled chain, and the result is that of the strict check |
| `ChainTyping.AcceptedIff` | src/app_osmo_gapk.c:556-678 | the strict check accepts the chain if and only if every queue call, though ignored, succeeded, or the encoder could not be set up and its own format has variable length |
| `ChainTyping.AcceptedIffQueued` | src/app_osmo_gapk.c:556-678 | for fixed lengths the second case does not arise |
| `ChainTyping.AcceptedIffReady` | src/app_osmo_gapk.c:343-678 | option check and chain together accept a request, apart from that case, if and only if each coder it needs can be set up, can do its work, and has a known format; none is needed within one codec |
| `ChainTyping.QueuedIffReady` | src/pq_codec.c:34-89 | a chain is complete if and only if the coders it needs are ready |
| `ChainTyping.VariableLengthUnchecked` | src/app_osmo_gapk.c:633-675 | the smallest case of the exception: from PCM to the encoder's own format, with no callback in the third item |
| `ChainTyping.CompiledTyped` | src/app_osmo_gapk.c:556-678 | through every complete chain, kinds of frames can be followed from the file source to the sink |
| `ChainTyping.CompiledFileChain` | src/app_osmo_gapk.c:556-678 | whatever the queue calls returned, only the first item of a chain reads the input file |
| `ChainTyping.CompiledChainSafe` | src/app_osmo_gapk.c:556-678 | unless its encoder is lost, every accepted chain is safe in every pass of a run, on any file and from any state of the codecs |
| `Translation.CompilerCorrect` | src/app_osmo_gapk.c:556-678 | one pass of the chain reads a block, computes exactly the requested composition of converters and coders, and writes the result |
| `Translation.PassWrites` | src/app_osmo_gapk.c:556-678 | a pass on a block that becomes y consumes the block, appends y and leaves each coder its new state |
| `Translation.LostEncoderCrashes` | src/procqueue.c:191-215 | in the exceptional case the chain is accepted, and a pass calls a missing callback if and only if the file holds a block on which the input side reports no error |
| `Translation.SidesTransform` | src/app_osmo_gapk.c:599-662 | everything between source and sink computes the requested transformation and touches no file |
| `Translation.Recodes` | src/app_osmo_gapk.c:623-662 | within one codec a frame passes through canonical form once, and through nothing if the types are equal |
| `Translation.Transcodes` | src/app_osmo_gapk.c:599-662 | between codecs: canonical form, the format of the decoder, PCM, the format of the encoder, canonical form, output; the steps left out are those between equal types and those of a PCM side |
| `Translation.QueuedSupported` | src/app_osmo_gapk.c:556-678 | a request whose calls all succeed has every format and coder it needs |
| `Translation.InitialMems` | src/pq_codec.c:41-49 | the chain starts with the states that the initialisations of the two codecs returned, read from the codec table and not from the items |
| `Translation.RunTranslates` | src/app_osmo_gapk.c:701-750 | the whole run of any complete chain appends exactly the frame-by-frame translation of the file and counts its frames |
| `Translation.HowFar` | src/app_osmo_gapk.c:711-716 | a run stops at the end of the complete blocks or at the first block that fails or yields nothing, and nowhere else |
| `Translation.TranslateFrames` | src/app_osmo_gapk.c:711-716 | a file that starts with a block becomes what the block becomes followed by what the rest becomes, the coders carried over |
| `Translation.DropIs` | src/app_osmo_gapk.c:711-716 | what is left after k blocks of n bytes is the file from byte k*n on |
| `Translation.CompleteRun` | src/app_osmo_gapk.c:701-750 | started as the queue calls leave it, an accepted and complete chain translates the file |
| `Translation.AcceptedRun` | src/app_osmo_gapk.c:701-750 | an accepted chain whose encoder is not lost is complete and translates the file |
| `App.HandleHeaders` | src/app_osmo_gapk.c:518-554 | the input must start with its header, which is consumed; the output header is written only then |
| `App.Run` | src/app_osmo_gapk.c:701-750 | for any queue behind a file source on which every pass is safe, preparation and loop in place compute the whole run; the exit code is 0 as soon as one frame was converted |
| `App.Passes` | src/app_osmo_gapk.c:711-716 | the loop counts the successful passes and ends with the result of the last |
| `App.OnePass` | src/app_osmo_gapk.c:711-716 | a pass of a safe run keeps the queue ready for the next one and, if it succeeds, has consumed input |
| `App.Build` | src/app_osmo_gapk.c:841-850 | a new queue holds the compiled chain if the strict check accepts it; otherwise the error code |
| `App.BuildAndRun` | src/app_osmo_gapk.c:841-863 | chain and run together end with the frames, output and exit code of the run, or with the code of the strict check |
| `App.Program` | src/app_osmo_gapk.c:821-867 | the program from the option check on: a refused request or a wrong header leaves the output untouched and gives the code of the check or -22, a rejected chain leaves the output header and gives -22, a complete chain leaves the output header and the translation of the input behind its header |
| `App.CompleteWanted` | src/app_osmo_gapk.c:821-867 | with a complete chain the result of the program is the translation |
| `App.SoundProgramSafe` | src/app_osmo_gapk.c:821-867 | with sound converters and coders the program is safe on all files, unless the encoder is lost |
| `FileDetours.ProgramWrites` | src/app_osmo_gapk.c:518-554 | the file left behind is header and translation |
| `FileDetours.RunMapsBlocks` | src/app_osmo_gapk.c:701-750 | between lossless formats of one codec a run maps every complete block, in order, and drops a trailing partial one |
| `FileDetours.BlocksAre` | src/pq_file.c:36-54 | on a file of whole frames and a partial one, that is the list of mapped frames |
| `FileDetours.WrittenReadable` | src/pq_file.c:36-54 | every frame that the program writes it can read again |
| `FileDetours.Detour` | src/app_osmo_gapk.c:701-750 | two runs by way of another format leave the file, header included, that one direct run leaves, for a third format other than the first |
| `FileDetours.ThereAndBack` | src/app_osmo_gapk.c:701-750 | back in the first format every frame is normalised, once, and keeps its canonical form; a file of whole frames that the format could have written itself comes back unchanged |
| `Shipped.AllFitting` | src/formats.c:43-70 | the real descriptors declare the lengths their converters keep, so none of their assertions can fail |
| `Shipped.HrRefEntries` | src/formats.c:43-70 | types 3 and 4 are the reference formats with four and two flags |
| `Shipped.HrChannelEntries` | src/formats.c:43-70 | types 5 and 9 are racal-hr and ti-hr |
| `Shipped.HrRtpEntries` | src/formats.c:43-70 | types 15 and 16 are the two RTP formats for half rate |
| `Shipped.FrEntries` | src/formats.c:43-70 | types 2, 6 and 10 are gsm, racal-fr and ti-fr |
| `Shipped.EfrEntries` | src/formats.c:43-70 | types 1, 7, 11 and 14 are amr-efr, racal-efr, ti-efr and rtp-efr |
| `Shipped.TypeEntries` | src/formats.c:43-70 | codec and frame length of each of the sixteen types |
| `Shipped.HeaderEntries` | src/fmt_amr.c:73-85 | only amr-efr has a file header, and its six bytes |
| `Shipped.CoderEntries` | src/codecs.c:32-44 | the formats that encoders write and decoders read, and the canonical lengths |
| `Shipped.ConverterEntries` | src/formats.c:43-70 | which lengths each converter asserts, and that amr-efr answers a foreign header with -1 |
| `Shipped.AmrEntries` | src/fmt_rtp_amr.c:34-58 | the two formats of variable length, by bytes |
| `Shipped.SampleBytes` | src/fmt_rawpcm.c:25-54 | each sample is stored with its less significant byte first, whatever the order of the host |
| `Shipped.AmrDescribed` | src/fmt_amr.c:73-85 | the amr-efr descriptor, which refuses foreign headers, reads everything that it wrote |
| `Shipped.AmrReadableIff` | src/fmt_amr.c:52-71 | an amr-efr file body can be read if and only if each complete frame carries the header byte |
| `Shipped.ConvertersLossless` | src/formats.c:43-70 | every shipped format but rtp-efr, PCM and those of variable length is lossless, ti-efr under its exact condition |
| `Shipped.RegisterSound` | src/codecs.c:32-44 | tables of fitting descriptors meet the hypotheses of the pipeline theorems, whichever codecs are compiled in |
| `Shipped.RegisterOwn` | src/codecs.c:32-44 | codecs work on formats of their own, and only the AMR encoder can be lost |
| `Shipped.ReadyConverts` | src/app_osmo_gapk.c:556-750 | a request whose coders are ready is accepted, safe in every pass on any file from any state, and leaves the translated file |
| `Shipped.ShippedConverts` | src/formats.c:43-70 | for any two of the sixteen formats, any build and any file: apart from a lost AMR encoder the request is accepted if and only if the coders it needs are there, none within one codec, and then the file is converted safely |
| `Shipped.ShippedDetour` | src/formats.c:43-70 | for any three lossless formats of one codec that gapk ships, a file that went through the second is the file of the direct run, header included |
| `Shipped.ShippedReturn` | src/formats.c:43-70 | there and back between two of them normalises frames, keeps their canonical form, and returns a file the format could have written unchanged |
| `Rtp.Locate` | src/pq_rtp.c:88-132 | the stepwise adjustment of pointer and length accepts exactly the datagrams whose announced parts fit, and finds the payload inside them |
| `Rtp.State.constructor` | src/pq_rtp.c:181-239 | a source starts from zeros, a sink from random numbers cut to field size |
| `Rtp.State.Input` | src/pq_rtp.c:78-145 | an accepted datagram delivers its payload and header fields, or is reported as an overrun if the payload does not fit; a rejected one leaves state and buffer unchanged |
| `Rtp.State.Output` | src/pq_rtp.c:147-173 | the packet sent is 0x80, the payload type, the current counters and the payload; the counters advance whatever the socket reports |
| `Rtp.SentBytes` | src/pq_rtp.c:147-173 | all twelve bytes of the header in front of the payload: 0x80, the payload type in seven bits, and the three fields in network byte order |
| `Rtp.SentSerializes` | src/pq_rtp.c:147-173 | what is sent is the serialization of the RFC 3550 packet with that payload type, no marker, no sources, no extension and no padding |
| `Rtp.StreamSerializes` | src/pq_rtp.c:147-173 | packet i of any stream is the serialization of the packet with payload i, the same payload type and source number, and both counters i steps on |
| `Rtp.SenderState.Counters` | src/pq_rtp.c:161-165 | after n packets the counters are n and n times the duration further, modulo 2^16 and 2^32; the source number is constant |
| `Rtp.SenderState.PacketParses` | src/pq_rtp.c:78-173 | the receiver finds header fields and payload of any packet sent, the payload cut to what its read buffer holds |
| `Rtp.StreamRoundTrip` | src/pq_rtp.c:78-173 | packet i of any stream is received as payload i, byte for byte, with both counters i steps on |
| `Rtp.BufferSufficesIff` | src/pq_rtp.c:82-144 | an output buffer takes the payload of every datagram if and only if it has 244 bytes more than a block |
| `Rtp.AllocationSufficesIff` | src/procqueue.c:158-186 | what the queue allocates for an RTP source takes the payload of every datagram if and only if the block length is 0 |
| `Rtp.RtpPacket.Understood` | src/pq_rtp.c:88-144 | every well-formed packet with sources, extension and padding is accepted and its payload found |
| `Rtp.DissectSerializes` | src/pq_rtp.c:88-144 | every accepted datagram is the serialization of a well-formed packet, unless it announces padding of length zero |
| `Rtp.AcceptsExactly` | src/pq_rtp.c:88-132 | apart from zero-length padding the receiver accepts exactly the well-formed packets |
| `Rtp.AcceptedBytes` | src/pq_rtp.c:88-144 | acceptance, payload and the three fields in terms of the bytes of the datagram alone |
| `Rtp.ZeroPadding` | src/pq_rtp.c:122-132 | a padding count of zero is taken for no padding |
| `Rtp.ZeroPaddingAccepted` | src/pq_rtp.c:122-132 | the shortest such datagram, twelve bytes with the padding flag and a last byte of zero, is accepted |
| `Rtp.Conservation` | src/pq_rtp.c:88-144 | header, sources, extension, payload and padding add up to the datagram, and the payload is one slice of it |
| `RtpLink.StreamCarries` | src/pq_rtp.c:78-173 | what one run sends to a source of the right block length arrives, frame by frame |
| `RtpLink.HandedIsOutput` | src/app_osmo_gapk.c:701-750 | the frames that a run hands to its sink make up the output of the run into a file, in number and content |
| `RtpLink.ReceiveTranslates` | src/app_osmo_gapk.c:701-750 | a run that receives frames translates the file that they make up |
| `RtpLink.RejectedEnds` | src/pq_rtp.c:93-132 | the first rejected datagram ends the run: those from it on make no difference |
| `RtpLink.LinkIsFile` | src/pq_rtp.c:78-173 | sending the frames of one run and receiving them in another gives what the second run makes of the file the first would have written, for all codecs and counters |
| `RtpLink.SoundHanded` | src/pq_format.c:40-81 | with sound converters and coders every frame handed on has the declared length, as that asks |
| `RtpLink.LinkIsDirect` | src/app_osmo_gapk.c:701-750 | between lossless formats, sent in a third one, the receiver writes the body of the file of one direct run |
| `EcuFr.Unit.Proc` | src/ecu_fr.c:32-78 | the scan loops decide by bytes: any tail but zeros resets the unit to the frame, zeros before any backup pass, zeros after one are concealed; bytes behind the frame stay |
| `EcuFr.GoodIs` | src/ecu_fr.c:42-48 | a frame is good if and only if the 32 bytes behind its first are not all zero |
| `EcuFr.StepIs` | src/ecu_fr.c:42-77 | state, return value and output of one call for the three kinds of frame, by its bytes and those of the backup |
| `EcuFr.StateIs` | src/ecu_fr.c:42-77 | the state is the last good frame concealed as often as frames were bad since, and nothing else |
| `EcuFr.OutputIs` | src/ecu_fr.c:42-77 | good frames pass, bad ones before any good one pass, and the k-th bad one after it is its k-th concealment |
| `EcuFr.Concealment` | src/ecu_fr.c:42-77 | in bytes and after any past: a frame with anything set behind its first byte passes and becomes the backup; the k-th frame after it with nothing set there, whatever its first byte, is answered with the k-th concealment; without one before them such frames pass |
| `EcuFr.HistoryForgotten` | src/ecu_fr.c:42-77 | receivers with different pasts agree from the first common good frame on |
| `EcuFr.SoundLibraryExists` | src/ecu_fr.c:42-77 | what the machine relies on can be met |
| `GsmHr.Library.Init` | libgsmhr/libgsmhr.c:45-77 | a new instance holds the global image after both resets |
| `GsmHr.Library.Encode` | libgsmhr/libgsmhr.c:86-106 | the parameters are those of the encoder on the saved image; the image saved is the one it left, reset if and only if the block homes; the old global image does not matter |
| `GsmHr.Library.Decode` | libgsmhr/libgsmhr.c:108-145 | in each case the samples, the flag and the saved image: homing samples and a reset, or the decoder's, reset behind a whole homing frame; the old global image does not matter |
| `GsmHr.NonInterference` | libgsmhr/libgsmhr.c:86-145 | for any number of instances and any interleaving, an instance ends in the state and returns the results of its own calls made alone |
| `GsmHr.CreationTimeIrrelevant` | libgsmhr/libgsmhr.c:71-145 | if the resets leave nothing of the old image, it does not matter either when an instance was created |
| `GsmHr.EncoderRuns` | libgsmhr/libgsmhr.c:86-106 | after any history the parameters returned are those of the encoder on the image left by the blocks since the last homing block, which alone was followed by a reset; the image saved is the one the encoder left, reset only on homing |
| `GsmHr.EncoderStarts` | libgsmhr/libgsmhr.c:71-106 | the same from the creation of an instance on |
| `GsmHr.EncodingRuns` | libgsmhr/libgsmhr.c:86-106 | blocks that do not home are encoded one on top of the other, and leave the decoder flag |
| `GsmHr.HomeStep` | libgsmhr/libgsmhr.c:121-140 | one more frame homes the decoder exactly if it is a whole homing frame, or it was home and the frame matches to the first subframe |
| `GsmHr.HomingFlag` | libgsmhr/libgsmhr.c:59-140 | over any history the reset flag is set exactly when some point, the start or a whole homing frame, was followed by homing frames only |
| `GsmHr.HomedOutput` | libgsmhr/libgsmhr.c:121-140 | while it stays set the answer is a frame of homing samples; otherwise the frame is decoded |
| `GsmHr.DecoderRuns` | libgsmhr/libgsmhr.c:59-145 | every decoding call on an instance since its creation: which of homing samples and decoded frame is returned, which image is saved and which flag, in each of the four cases |

## Left out

- Contents of the tables and routines of libosmocodec, libgsm, opencore-amrnb and the 3GPP reference code: not part of this model; they are parameters under the hypotheses named above.
- Codec memories are byte images and the memory behind a state pointer is a value: sharing of that memory between items is not captured.
- ti-efr: whether its table meets the condition of `Conversions.TiEfrLosslessIff` depends on a table that is not part of this model.
- RTP or ALSA as the end of a compiled chain: type soundness and file translation are stated for files at both ends, because the length of a received payload is not tied to the declared one. `RtpLink` composes sender and receiver with the meaning of a run, not as items of a queue.
- FmtHrRef.DecFromCanon: words are modelled as numbers; their storage in host byte order is a parameter of `Conversions.HrRefFormat` only.
- FmtRtpAmr.ToCanon: the packet lies in a buffer of at least two and less than 2^32 bytes, as all buffers of the queue are; what an overrunning copy does to memory is not modelled.
- FmtRtpAmr.HopsIs: frames have less than 2^32 - 1 bytes, the range of the C length.
- GsmHr.Library.Encode: the reference encoder is a function of the global image and its input; alignment and size of that image are left out.
- EcuFr.Unit.Proc: the length assertion is a precondition, and the item that the queue builds around the unit is left out.
- App.Run: throttled runs, signals and waiting for the sink are left out; a run ends with the first pass that does not return 0.
- App.HandleHeaders: failing writes (a full disk) are left out, here and in the file sink.
- App.Program: runs in which a callback is missing, aborts or overruns a buffer are left out of its hypotheses; `Translation.LostEncoderCrashes` says when the first of these happens.
- Procqueue.Queue.Check: strict mode on an empty queue, which the program never asks for.
- Procqueue.Queue.AddItem: a failing allocation and its NULL result are left out.
- Procqueue.Queue.Prepare: a failing allocation and its -ENOMEM are left out.
- GsmHr.Library.Init: a failing allocation and its NULL results are left out.
- Pipeline.MakeProcessingChain: RTP and ALSA ends of the chain are left out.
- Rtp.State.Input: what an overrunning copy does to memory is left out; `Rtp.AllocationSufficesIff` says when none can occur.
- Creating, describing and destroying a queue, exit callbacks.
- Option parsing, opening files and sockets, logging, benchmark counters.
- Shipped.AllFitting: in the table, rtp-amr aborts on payloads of less than two bytes, where the converter's result is no function of the payload; AMR frames are taken to have 1 to 32 bytes.
