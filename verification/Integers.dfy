/**
 Machine integers. The subset types are values of a fixed width; the newtypes are
 counters, on which every operation is proved to stay within its width.
 */
module Integers {
  type u8 = n: int | 0 <= n < 0x100
  type u16 = n: int | 0 <= n < 0x1_0000
  type i16 = n: int | -0x8000 <= n < 0x8000
  type u32 = n: int | 0 <= n < 0x1_0000_0000
  type u64 = n: int | 0 <= n < 0x1_0000_0000_0000_0000

  const U32_MAX: nat := 0xFFFF_FFFF
  const U64_MAX: nat := 0xFFFF_FFFF_FFFF_FFFF

  newtype CounterI32 = x: int | -0x8000_0000 <= x < 0x8000_0000
  newtype CounterI64 = x: int | -0x8000_0000_0000_0000 <= x < 0x8000_0000_0000_0000
  newtype CounterU32 = x: int | 0 <= x < 0x1_0000_0000
}
