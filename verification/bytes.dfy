/** Machine bytes, and the fixed-width numbers the network code computes in. */
module Bytes {
  newtype byte = x: int | 0 <= x < 0x100
  newtype u16 = x: int | 0 <= x < 0x1_0000
  newtype u32 = x: int | 0 <= x < 0x1_0000_0000
}
