/** Machine integers and the option type shared by every other module. */
module Prelude {

  datatype Option<+T> = None | Some(value: T)

  const U64_MAX := 0xFFFF_FFFF_FFFF_FFFF
  const I64_MAX := 0x7FFF_FFFF_FFFF_FFFF
  const I64_MIN := -0x8000_0000_0000_0000
  const U64_COUNT := 0x1_0000_0000_0000_0000

  type U64 = x: int | 0 <= x <= U64_MAX
  type I64 = x: int | I64_MIN <= x <= I64_MAX
  type Byte = x: int | 0 <= x < 256

  function Min(a: int, b: int): int {
    if a <= b then a else b
  }

  function Max(a: int, b: int): int {
    if a <= b then b else a
  }

  /** `u64::saturating_sub`, also for a left operand below zero. */
  function SaturatingSub(a: int, b: nat): nat {
    if a <= b then 0 else a - b
  }
}
