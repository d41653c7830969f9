/** The sixteen-bit integers of the engine. */
module Integers {
  type u16 = x: int | 0 <= x < 0x1_0000
}
