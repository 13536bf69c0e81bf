/** The fixed-width unsigned integers of Go that gordiff's signature code works in,
    as ranges of int: wrap-around and truncation are written out where they happen. */
module Bytes {
  type byte = x: int | 0 <= x < 0x100
  type uint16 = x: int | 0 <= x < 0x1_0000
  type uint32 = x: int | 0 <= x < 0x1_0000_0000
}
