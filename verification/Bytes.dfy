/** Bytes and 32-bit words as numbers, for the parts of the library that do arithmetic on them
    rather than bit operations. */
module Bytes {
  type byte = x: int | 0 <= x < 256
  type uint32 = x: int | 0 <= x < 0x1_0000_0000

  /** The number with these digits to the base 256, most significant first. */
  function Base256(a: int, b: int, c: int, d: int): int {
    0x100_0000 * a + 0x1_0000 * b + 0x100 * c + d
  }
}
