/** The unsigned integer types of the programs. */
module Integers {
  type byte = x: int | 0 <= x < 256
  type uint16 = x: int | 0 <= x < 0x1_0000
  type uint32 = x: int | 0 <= x < 0x1_0000_0000

  /** The code of an ASCII character. */
  function Ascii(c: char): byte
    requires c as int < 0x80
  {
    c as int
  }
}
