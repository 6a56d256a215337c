/** The unsigned integers that more than one part of the program computes with. */
module Widths {
  type Byte = x: int | 0 <= x < 256
  type U32 = x: int | 0 <= x < 0x1_0000_0000
}
