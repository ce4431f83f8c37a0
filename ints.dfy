/** The fixed-width integers of the class-file format and of Java, as ranges of `int`. */
module Ints {

  /** One byte of a class file. */
  type byte = x: int | 0 <= x < 0x100

  /** An unsigned two-byte quantity (a class-file `u2`). */
  type u16 = x: int | 0 <= x < 0x1_0000

  /** A Java `int`. */
  type i32 = x: int | -0x8000_0000 <= x < 0x8000_0000

  /** The value a `u2` field holds after an `int` is written to it: the low 16 bits,
      which for a negative `int` are those of its two's complement. */
  function Truncate16(x: int): (r: u16)
    ensures 0 <= x < 0x1_0000 ==> r == x
    ensures (r - x) % 0x1_0000 == 0
  {
    x % 0x1_0000
  }
}
