/** Fixed-width integer types of the renderer (`uint8`, `uint32`, the range of `int`). */
module Numeric {
  /** An unsigned 8-bit colour channel. */
  newtype uint8 = x: int | 0 <= x < 0x100

  /** An unsigned 32-bit packed pixel. */
  newtype uint32 = x: int | 0 <= x < 0x1_0000_0000

  /** The largest value of a 32-bit signed `int`. */
  const Int32Max: int := 0x7FFF_FFFF

  /** The smallest value of a 32-bit signed `int`. */
  const Int32Min: int := -0x8000_0000

  predicate IsInt32(x: int) {
    Int32Min <= x <= Int32Max
  }
}
