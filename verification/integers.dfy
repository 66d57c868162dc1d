/** Fixed-width unsigned integers of the driver and the capture example,
    as bounded mathematical integers. */
module Integers {
  type uint8 = x: int | 0 <= x < 0x100
  type uint16 = x: int | 0 <= x < 0x1_0000

  const UINT32_MODULUS := 0x1_0000_0000
  const INT32_MAX := 0x7FFF_FFFF
}
