/** The portable double-cell routines: 64-bit numbers in two 32-bit cells, with every wrap-around written out. */
module Doubles {
  import opened Bits

  const CELL := 0x1_0000_0000
  const HIGH_BIT := 0x8000_0000
  const DOUBLE := 0x1_0000_0000_0000_0000

  type Cell = x: int | 0 <= x < 0x1_0000_0000

  datatype Double = Double(high: Cell, low: Cell) {

    function Value(): (v: int)
      ensures 0 <= v < DOUBLE
    {
      high * CELL + low
    }

    /** The same bits as a two's complement number. */
    function Signed(): (v: int)
      ensures -(DOUBLE / 2) <= v < DOUBLE / 2
      ensures v == Value() || v == Value() - DOUBLE
    {
      if IsNegative(this) then Value() - DOUBLE else Value()
    }
  }

  const ZERO := Double(0, 0)

  function Low(x: int): (c: Cell) {
    x % CELL
  }

  function SignedCell(c: Cell): int {
    if c >= HIGH_BIT then c - CELL else c
  }

  /** `ficl2IntegerIsNegative`. */
  predicate IsNegative(x: Double) {
    x.high >= HIGH_BIT
  }

  /** `ficl2IntegerNegate`. */
  function Negate(x: Double): (r: Double)
    ensures r.Value() == if x.Value() == 0 then 0 else DOUBLE - x.Value()
    ensures x.Value() != DOUBLE / 2 ==> r.Signed() == -x.Signed()
  {
    var high, low := CELL - 1 - x.high, Low(CELL - 1 - x.low + 1);
    Double(if low == 0 then Low(high + 1) else high, low)
  }

  /** `ficl2IntegerDecrement`, which borrows when it should not, and does not when it should. */
  function Decrement(x: Double): Double {
    Double(if x.low == HIGH_BIT then Low(x.high - 1) else x.high, Low(x.low - 1))
  }

  /** The low cell is right, and the whole is right unless the low cell is 0 or the high bit. */
  lemma DecrementIsWrong(x: Double)
    ensures Decrement(x).low == Low(x.Value() - 1)
    ensures Decrement(x).Value() == (x.Value() - 1) % DOUBLE <==> x.low != 0 && x.low != HIGH_BIT
  {
    LowOfValue(x, -1);
    var v := x.Value() - 1;
    if v >= 0 {
      assert v % DOUBLE == v;
    } else {
      assert v % DOUBLE == DOUBLE - 1;
    }
  }

  lemma LowOfValue(x: Double, d: int)
    ensures Low(x.Value() + d) == Low(x.low + d)
  {
    assert (x.high * CELL + (x.low + d)) % CELL == (x.low + d) % CELL;
  }

  /** The carry of the low cells, found from their high bits and that of their sum. */
  predicate Carry(a: Cell, b: Cell): (c: bool)
    ensures c <==> a + b >= CELL
  {
    ((a >= HIGH_BIT || b >= HIGH_BIT) && Low(a + b) < HIGH_BIT) || (a >= HIGH_BIT && b >= HIGH_BIT)
  }

  /** A number that has gone round at most once. */
  lemma LowOnce(x: int)
    ensures 0 <= x < CELL ==> Low(x) == x
    ensures CELL <= x < 2 * CELL ==> Low(x) == x - CELL
    ensures -CELL <= x < 0 ==> Low(x) == x + CELL
  {
  }

  /** `ficl2UnsignedAdd`. */
  function Add(x: Double, y: Double): (r: Double)
    ensures r.Value() == if x.Value() + y.Value() < DOUBLE then x.Value() + y.Value() else x.Value() + y.Value() - DOUBLE
  {
    hide Low, Carry;
    LowOnce(x.high + y.high);
    LowOnce(x.low + y.low);
    LowOnce(Low(x.high + y.high) + 1);
    var high, low := Low(x.high + y.high), Low(x.low + y.low);
    Double(if Carry(x.low, y.low) then Low(high + 1) else high, low)
  }

  /** `ficl2UnsignedSubtract`. */
  function Subtract(x: Double, y: Double): (r: Double)
    ensures x.Value() >= y.Value() ==> r.Value() == x.Value() - y.Value()
    ensures x.Value() < y.Value() ==> r.Value() == x.Value() - y.Value() + DOUBLE
  {
    hide Low;
    LowOnce(x.high - y.high);
    LowOnce(x.low - y.low);
    LowOnce(Low(x.high - y.high) - 1);
    var high, low := Low(x.high - y.high), Low(x.low - y.low);
    Double(if x.low < y.low then Low(high - 1) else high, low)
  }

  /** `ficl2UnsignedArithmeticShiftLeft`. */
  function ShiftLeft(x: Double): (r: Double)
    ensures r.Value() == if x.high < HIGH_BIT then 2 * x.Value() else 2 * x.Value() - DOUBLE
  {
    var high := Low(2 * x.high);
    Double(if x.low >= HIGH_BIT then Low(high + 1) else high, Low(2 * x.low))
  }

  /** `ficl2UnsignedArithmeticShiftRight`. */
  function ShiftRight(x: Double): (r: Double)
    ensures r.Value() == x.Value() / 2
  {
    Double(x.high / 2, if x.high % 2 == 1 then x.low / 2 + HIGH_BIT else x.low / 2)
  }

  /** `ficl2UnsignedCompare`. */
  function Compare(x: Double, y: Double): (r: int)
    ensures r < 0 <==> x.Value() < y.Value()
    ensures r == 0 <==> x.Value() == y.Value()
  {
    if x.high > y.high then 1
    else if x.high < y.high then -1
    else if x.low > y.low then 1
    else if x.low < y.low then -1
    else 0
  }

  /** Bitwise or. */
  function Or(a: nat, b: nat): nat {
    if a == 0 && b == 0 then 0 else 2 * Or(a / 2, b / 2) + (if a % 2 == 1 || b % 2 == 1 then 1 else 0)
  }

  lemma {:induction false} OrZero(a: nat)
    ensures Or(a, 0) == a
  {
    if a > 0 { OrZero(a / 2); }
  }

  /** A bit below all bits of a number is added to it. */
  lemma {:induction false} OrNewBit(c: nat, k: nat)
    ensures Or(c * Pow2(k + 1), Pow2(k)) == c * Pow2(k + 1) + Pow2(k)
  {
    if k == 0 {
      assert c * Pow2(1) == 2 * c;
      OrZero(c);
    } else {
      assert c * Pow2(k + 1) == 2 * (c * Pow2(k));
      OrNewBit(c, k - 1);
    }
  }

  lemma {:induction false} OrBound(a: nat, b: nat, n: nat)
    requires a < Pow2(n) && b < Pow2(n)
    ensures Or(a, b) < Pow2(n)
  {
    if n > 0 { OrBound(a / 2, b / 2, n - 1); }
  }

  /** `ficl2UnsignedOr`. */
  function OrDouble(x: Double, y: Double): Double {
    Pow2Values();
    OrBound(x.high, y.high, 32);
    OrBound(x.low, y.low, 32);
    Double(Or(x.high, y.high), Or(x.low, y.low))
  }

  lemma {:induction false} PowSum(a: nat, b: nat)
    ensures Pow2(a + b) == Pow2(a) * Pow2(b)
  {
    if a > 0 { PowSum(a - 1, b); }
  }

  lemma PowMonotone(a: nat, b: nat)
    requires a < b
    ensures Pow2(a) < Pow2(b)
    decreases b
  {
    if a < b - 1 { PowMonotone(a, b - 1); }
  }

  lemma SplitUnique(x: Double, high: int, low: int)
    requires x.Value() == high * CELL + low && 0 <= low < CELL
    ensures x.high == high && x.low == low
  {
  }

  /** A new bit in the high cell. */
  lemma OrHighBit(x: Double, mask: Double, c: nat, k: nat)
    requires 32 <= k < 64 && mask.Value() == Pow2(k) && x.Value() == c * Pow2(k + 1)
    ensures OrDouble(x, mask).Value() == x.Value() + mask.Value()
  {
    Pow2Values();
    hide Pow2, Or;
    PowSum(k - 32, 32);
    PowSum(k - 31, 32);
    Times(c, Pow2(k - 31), CELL);
    SplitUnique(mask, Pow2(k - 32), 0);
    SplitUnique(x, c * Pow2(k - 31), 0);
    OrNewBit(c, k - 32);
    OrZero(0);
  }

  /** A new bit in the low cell. */
  lemma OrLowBit(x: Double, mask: Double, c: nat, k: nat)
    requires k < 32 && mask.Value() == Pow2(k) && x.Value() == c * Pow2(k + 1)
    ensures OrDouble(x, mask).Value() == x.Value() + mask.Value()
  {
    Pow2Values();
    hide Pow2, Or;
    PowMonotone(k, 32);
    SplitUnique(mask, 0, Pow2(k));
    LowMultiple(x, c, k);
    var e := x.low / Pow2(k + 1);
    OrNewBit(e, k);
    OrZero(x.high);
    OneBitMore(x.low, e, k);
  }

  /** Below the limit a new low bit still fits. */
  lemma OneBitMore(low: Cell, e: nat, k: nat)
    requires k < 32 && low == e * Pow2(k + 1)
    ensures low + Pow2(k) < CELL
  {
    Pow2Values();
    hide Pow2;
    PowStep(k);
    PowSum(31 - k, k + 1);
    var p, r := Pow2(k + 1), Pow2(31 - k);
    Spread(r, e, p);
    if e >= r { AtLeastTimes(e - r, p); }
    else { AtLeast(p, r - e); }
  }

  lemma PowStep(k: nat)
    ensures Pow2(k + 1) == 2 * Pow2(k)
  {
  }

  lemma AtLeastTimes(d: nat, p: int)
    requires p > 0
    ensures d * p >= 0
  {
  }

  /** A new bit of a double. */
  lemma OrDoubleNewBit(x: Double, mask: Double, c: nat, k: nat)
    requires k < 64 && mask.Value() == Pow2(k) && x.Value() == c * Pow2(k + 1)
    ensures OrDouble(x, mask).Value() == x.Value() + mask.Value()
  {
    if k >= 32 {
      OrHighBit(x, mask, c, k);
    } else {
      OrLowBit(x, mask, c, k);
    }
  }

  lemma Times(a: int, b: int, c: int)
    ensures a * (b * c) == a * b * c
  {
  }

  /** If a double is a multiple of a small power of two, so is its low cell. */
  lemma LowMultiple(x: Double, c: nat, k: nat)
    requires k < 32 && x.Value() == c * Pow2(k + 1)
    ensures x.low == x.low / Pow2(k + 1) * Pow2(k + 1)
  {
    Pow2Values();
    hide Pow2;
    var p, r := Pow2(k + 1), Pow2(31 - k);
    PowSum(31 - k, k + 1);
    Times(x.high, r, p);
    Spread(c, x.high * r, p);
    assert x.low == (c - x.high * r) * p;
    if c < x.high * r { AtMost(c - x.high * r, p); }
    QuotientUnique(x.low, p, c - x.high * r, 0);
  }

  lemma Spread(a: int, b: int, p: int)
    ensures (a - b) * p == a * p - b * p
  {
  }

  lemma AtMost(d: int, p: int)
    requires d < 0 && p > 0
    ensures d * p < 0
  {
  }
}
