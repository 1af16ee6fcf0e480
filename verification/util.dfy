/** Byte-count helper used by the memory report (util.go). */
module Util {

  /** Go's `uint64`. */
  newtype Uint64 = x: int | 0 <= x < 0x1_0000_0000_0000_0000

  const BytesPerMiB: int := 1048576

  /** Whole mebibytes in `b` bytes, rounded down: `b / 1024 / 1024`. */
  function BToMb(b: Uint64): (r: Uint64)
    ensures r as int == b as int / BytesPerMiB
    ensures r as int * BytesPerMiB <= b as int < (r as int + 1) * BytesPerMiB
    ensures r <= b
    ensures r == 0 <==> b as int < BytesPerMiB
  {
    b / 1024 / 1024
  }

  /** Converting more bytes never gives fewer mebibytes. */
  lemma BToMbMonotone(b1: Uint64, b2: Uint64)
    requires b1 <= b2
    ensures BToMb(b1) <= BToMb(b2)
  {
  }
}
