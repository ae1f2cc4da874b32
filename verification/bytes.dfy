/** Fixed-width unsigned integers of the firmware, as subsets of `int`. */
module Bytes {

  type uint8 = x: int | 0 <= x < 0x100
  type uint16 = x: int | 0 <= x < 0x1_0000
  type uint32 = x: int | 0 <= x < 0x1_0000_0000
  type int32 = x: int | -0x8000_0000 <= x < 0x8000_0000

  const UINT16_MODULUS: int := 0x1_0000
  const UINT32_MODULUS: int := 0x1_0000_0000
}
