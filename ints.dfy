/**
 * Fixed-width machine integers of the Rust source, as subset types of `int`.
 * Every place where the source relies on a conversion between them states
 * the range explicitly.
 */
module Ints {
  const U16_MAX: int := 0xFFFF
  const I16_MIN: int := -0x8000
  const I16_MAX: int := 0x7FFF
  const U32_MAX: int := 0xFFFF_FFFF
  const I32_MIN: int := -0x8000_0000
  const I32_MAX: int := 0x7FFF_FFFF

  type u16 = x: int | 0 <= x <= 0xFFFF
  type i16 = x: int | -0x8000 <= x <= 0x7FFF
  type u32 = x: int | 0 <= x <= 0xFFFF_FFFF
  type i32 = x: int | -0x8000_0000 <= x <= 0x7FFF_FFFF
}
