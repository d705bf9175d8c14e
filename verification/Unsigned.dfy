/** 32-bit unsigned words. */
module Unsigned {
  const M := 0x1_0000_0000

  type u32 = x: int | 0 <= x < M witness 0
}
