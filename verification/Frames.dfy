/** Canonical frame sizes of include/osmocom/gapk/codecs.h and the payload bits in each. */
module Frames {
  const HR_CANON_LEN: nat := 14
  const FR_CANON_LEN: nat := 33
  const EFR_CANON_LEN: nat := 31
  const PCM_CANON_LEN: nat := 320

  const HR_BITS: nat := 112
  const FR_BITS: nat := 260
  const EFR_BITS: nat := 244
}
