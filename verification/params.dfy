/** The fixed configuration of the compressor: a 12-bit code space, the hash
    shift, the reserved end-of-stream code and the size of the hash table. */
module Params {

  /** Width of every emitted code, in bits. */
  const BITS: nat := 12

  /** Left shift applied to the appended byte when hashing a (prefix, byte) pair. */
  const HASHING_SHIFT: nat := 4

  /** The largest 12-bit value; reserved as the end-of-stream sentinel. */
  const MAX_VALUE: int := 4095

  /** The largest code that may be assigned to a dictionary entry. */
  const MAX_CODE: int := MAX_VALUE - 1

  /** Number of slots in the open-addressing hash table (a prime above 4096). */
  const TABLE_SIZE: int := 5021

  /** Value returned by the byte reader at end of input. */
  const EOF: int := -1

  /** Single-byte codes pre-registered as roots: bytes 0..127. */
  const ROOTS: int := 128

  /** Number of distinct 12-bit values. */
  const CODE_SPACE: int := 4096

  /** True of a byte as produced by the byte reader (not EOF). */
  predicate IsByte(b: int) {
    0 <= b < 256
  }

  predicate AllBytes(s: seq<int>) {
    forall i :: 0 <= i < |s| ==> IsByte(s[i])
  }
}
