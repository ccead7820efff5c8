/**
 Ficl cells: 32-bit words that are read as signed or unsigned numbers.
 All the wrap-around of the C code is written out here.
 */
module Cells {

  const CELL_MODULUS := 0x1_0000_0000
  const CELL_HIGH_BIT := 0x8000_0000
  const INT_MIN := -0x8000_0000
  const INT_MAX := 0x7fff_ffff

  /** The signed cell congruent to `x` modulo 2^32. */
  function Wrap(x: int): (r: int)
    ensures INT_MIN <= r <= INT_MAX
    ensures (r - x) % CELL_MODULUS == 0
    ensures INT_MIN <= x <= INT_MAX ==> r == x
  {
    (x + CELL_HIGH_BIT) % CELL_MODULUS - CELL_HIGH_BIT
  }

  /** `FICL_BOOL`: all bits set for true, all bits clear for false. */
  function Flag(b: bool): int {
    if b then -1 else 0
  }
}
