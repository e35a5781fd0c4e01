/** JavaScript strings as they are stored: sequences of UTF-16 code units.
    Any 16-bit value may occur, including a lone surrogate half. */
module Utf16 {
  newtype CodeUnit = x: int | 0 <= x < 0x10000

  type Text16 = seq<CodeUnit>
}
