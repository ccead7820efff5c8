/** Multiplication and division of double cells, by shifting, adding and subtracting. */
module DoubleMath {
  import opened Bits
  import opened Doubles

  lemma HalfStep(x: nat, a: int)
    ensures x * a == (x / 2) * (2 * a) + (if x % 2 == 1 then a else 0)
  {
    var h := x / 2;
    if x % 2 == 1 {
      assert x == 2 * h + 1;
      assert (2 * h + 1) * a == h * (2 * a) + a;
    } else {
      assert x == 2 * h;
      assert (2 * h) * a == h * (2 * a);
    }
  }

  lemma ProductBound(x: int, y: int, m: int, n: int)
    requires 0 <= x < m && 0 <= y < n
    ensures 0 <= x * y <= (m - 1) * (n - 1)
  {
    Scaled(x, m - 1, y);
    Scaled(y, n - 1, m - 1);
  }

  lemma Scaled(a: int, b: int, c: int)
    requires 0 <= a <= b && c >= 0
    ensures 0 <= a * c <= b * c
  {
  }

  /** What is left is at least the next addend, and twice it when there is more than one bit left. */
  lemma AddendFits(x: nat, a: nat, total: nat)
    requires x * a <= total
    ensures x >= 1 ==> a <= total
    ensures x >= 2 ==> 2 * a <= total
  {
    if x >= 2 { assert x * a == 2 * a + (x - 2) * a; }
    else if x == 1 { assert x * a == a; }
  }

  /** `ficl2UnsignedMultiply`: the exact product of two cells. */
  method Multiply(multiplier: Cell, y: Cell) returns (result: Double)
    ensures result.Value() == multiplier * y
  {
    hide Double.Value, Add, ShiftLeft, Low;
    var x: int := multiplier;
    result := ZERO;
    var addend := Double(0, y);
    ProductBound(multiplier, y, CELL, CELL);
    assert addend.Value() == y && result.Value() == 0 by { Small(y); }
    while x != 0
      invariant 0 <= x
      invariant x != 0 ==> result.Value() + x * addend.Value() == multiplier * y
      invariant x == 0 ==> result.Value() == multiplier * y
    {
      var a := addend.Value();
      HalfStep(x, a);
      AddendFits(x, a, multiplier * y - result.Value());
      if x % 2 == 1 {
        result := Add(result, addend);
      }
      x := x / 2;
      ShiftFits(addend);
      addend := ShiftLeft(addend);
    }
  }

  lemma Small(y: Cell)
    ensures Double(0, y).Value() == y && ZERO.Value() == 0
  {
  }

  lemma ShiftFits(x: Double)
    ensures ShiftLeft(x).Value() == if 2 * x.Value() < DOUBLE then 2 * x.Value() else 2 * x.Value() - DOUBLE
  {
  }

  /** `ficl2UnsignedMultiplyAccumulate`: a digit appended to a number in some base. */
  method MultiplyAccumulate(u: Double, mul: Cell, add: Cell) returns (r: Double)
    ensures r.Value() == (u.Value() * mul + add) % DOUBLE
  {
    var resultLo := Multiply(u.low, mul);
    var resultHi := Multiply(u.high, mul);
    ghost var lo, hi := resultLo.Value(), resultHi.Value();
    var high: int := Low(resultLo.high + resultHi.low);
    var low := Low(resultLo.low + add);
    if low < resultLo.low {
      high := Low(high + 1);
    }
    r := Double(high, low);
    Accumulated(u, mul, add, resultLo, resultHi, r);
  }

  lemma Accumulated(u: Double, mul: Cell, add: Cell, lo: Double, hi: Double, r: Double)
    requires lo.Value() == u.low * mul && hi.Value() == u.high * mul
    requires var high, low := Low(lo.high + hi.low), Low(lo.low + add);
             r == Double(if low < lo.low then Low(high + 1) else high, low)
    ensures r.Value() == (u.Value() * mul + add) % DOUBLE
  {
    hide Low;
    LowOnce(lo.low + add);
    LowOnce(lo.high + hi.low);
    LowOnce(Low(lo.high + hi.low) + 1);
    assert u.Value() * mul == (u.high * mul) * CELL + u.low * mul by {
      Foil(u.high, u.low, mul);
    }
    var exact := u.Value() * mul + add;
    assert exact == hi.high * DOUBLE + (hi.low * CELL + lo.Value() + add);
    var rest := hi.low * CELL + lo.Value() + add;
    assert rest - r.Value() == 0 || rest - r.Value() == DOUBLE || rest - r.Value() == 2 * DOUBLE;
    Residue(exact, hi.high + (rest - r.Value()) / DOUBLE, r.Value());
  }

  lemma Foil(high: int, low: int, mul: int)
    ensures (high * CELL + low) * mul == (high * mul) * CELL + low * mul
  {
  }

  lemma Residue(x: int, q: int, r: int)
    requires x == q * DOUBLE + r && 0 <= r < DOUBLE
    ensures x % DOUBLE == r
  {
  }

  /** The minus sign of C: the most negative cell stays as it is. */
  function Minus(x: Cell): (r: Cell)
    ensures x >= HIGH_BIT ==> r == -SignedCell(x)
    ensures x != HIGH_BIT ==> SignedCell(r) == -SignedCell(x)
  {
    Low(CELL - x)
  }

  /** `ficl2IntegerMultiply`: the exact product of two signed cells. */
  method MultiplySigned(x: Cell, y: Cell) returns (r: Double)
    ensures r.Signed() == SignedCell(x) * SignedCell(y)
  {
    hide Double.Value, Double.Signed, Minus;
    var a, b, sign := x, y, 1;
    if x >= HIGH_BIT { sign := -sign; a := Minus(x); }
    if y >= HIGH_BIT { sign := -sign; b := Minus(y); }
    var prod := Multiply(a, b);
    ProductBound(a, b, HIGH_BIT + 1, HIGH_BIT + 1);
    SmallIsPositive(prod);
    Signs(a, b);
    r := if sign > 0 then prod else Negate(prod);
  }

  lemma SmallIsPositive(x: Double)
    ensures x.Value() < DOUBLE / 2 <==> x.Signed() == x.Value()
  {
  }

  lemma Signs(a: int, b: int)
    ensures -a * b == -(a * b) && a * -b == -(a * b) && -a * -b == a * b
  {
  }

  /** The subtrahend after so many turns of the first loop of `ficl2UnsignedDivide`. */
  function Shifted(x: Double, n: nat): Double {
    if n == 0 then x else ShiftLeft(Shifted(x, n - 1))
  }

  lemma {:induction false} ZeroStays(n: nat)
    ensures Shifted(ZERO, n) == ZERO
  {
    if n > 0 { ZeroStays(n - 1); }
  }

  /** By zero, that loop goes on for ever if and only if the dividend is not zero as well. */
  lemma DivisionByZero(q: Double)
    ensures (forall n :: Compare(Shifted(ZERO, n), q) < 0 && Shifted(ZERO, n).high < HIGH_BIT) <==> q != ZERO
  {
    hide ShiftLeft;
    forall n ensures Shifted(ZERO, n) == ZERO { ZeroStays(n); }
    assert Compare(Shifted(ZERO, 0), q) < 0 <==> q != ZERO;
  }

  /** `ficl2UnsignedDivide`: exact, for every dividend and every divisor but zero. */
  method Divide(dividend: Double, y: Cell) returns (quotient: Double, remainder: Cell)
    requires y != 0
    ensures dividend.Value() == quotient.Value() * y + remainder && remainder < y
  {
    hide Double.Value, ShiftLeft, ShiftRight, Subtract, OrDouble, Pow2, Compare;
    quotient := ZERO;
    var q := dividend;
    var subtrahend, mask := Double(0, y), Double(0, 1);
    ghost var k: nat := 0;
    PowZero();
    Small(y);
    Small(1);
    while Compare(subtrahend, q) < 0 && subtrahend.high < HIGH_BIT
      invariant 0 <= k < 64 && mask.Value() == Pow2(k) && subtrahend.Value() == y * Pow2(k)
      decreases DOUBLE - subtrahend.Value()
    {
      ShiftFits(mask);
      ShiftFits(subtrahend);
      HighBit(subtrahend);
      NextShift(y, k);
      mask := ShiftLeft(mask);
      subtrahend := ShiftLeft(subtrahend);
      k := k + 1;
    }
    HighBit(subtrahend);
    ghost var c: nat := 0;
    while mask.low != 0 || mask.high != 0
      invariant dividend.Value() == quotient.Value() * y + q.Value()
      invariant mask.Value() != 0 ==> k < 64 && mask.Value() == Pow2(k) && subtrahend.Value() == y * Pow2(k)
      invariant mask.Value() != 0 ==> q.Value() < 2 * subtrahend.Value() && quotient.Value() == c * Pow2(k + 1)
      invariant mask.Value() == 0 ==> q.Value() < y
      decreases mask.Value()
    {
      NotZero(mask);
      assert k < 64;
      c := 2 * c;
      Doubled(c / 2, k);
      if Compare(subtrahend, q) <= 0 {
        OrDoubleNewBit(quotient, mask, c / 2, k);
        OneMore(quotient.Value(), c, k, y);
        q := Subtract(q, subtrahend);
        quotient := OrDouble(quotient, mask);
        c := c + 1;
      }
      Halved(y, k);
      mask := ShiftRight(mask);
      subtrahend := ShiftRight(subtrahend);
      k := if k == 0 then 0 else k - 1;
    }
    NotZero(mask);
    remainder := q.low;
    LowIsAll(q);
  }

  lemma PowZero()
    ensures Pow2(0) == 1
  {
  }

  lemma HighBit(x: Double)
    ensures x.high < HIGH_BIT <==> x.Value() < DOUBLE / 2
  {
  }

  lemma NotZero(x: Double)
    ensures x.low != 0 || x.high != 0 <==> x.Value() != 0
  {
  }

  lemma LowIsAll(x: Double)
    ensures x.Value() < CELL ==> x.low == x.Value()
  {
  }

  lemma NextShift(y: int, k: nat)
    requires y >= 1 && y * Pow2(k) < DOUBLE / 2
    ensures Pow2(k + 1) == 2 * Pow2(k) < DOUBLE && y * Pow2(k + 1) == 2 * (y * Pow2(k)) && k + 1 < 64
    ensures y * Pow2(k) > 0
  {
    var p := Pow2(k);
    assert y * p >= p;
    assert y * (2 * p) == 2 * (y * p);
    BigPower(k);
  }

  lemma BigPower(k: nat)
    ensures k >= 63 ==> Pow2(k) >= DOUBLE / 2
  {
    if k >= 63 {
      Pow2Values();
      PowSum(k - 63, 63);
      PowSum(31, 32);
      assert Pow2(31) == HIGH_BIT;
      assert Pow2(63) == DOUBLE / 2;
      AtLeast(Pow2(63), Pow2(k - 63));
    }
  }

  lemma Doubled(c: int, k: nat)
    ensures c * Pow2(k + 1) == 2 * c * Pow2(k)
  {
    var p := Pow2(k);
    assert c * (2 * p) == 2 * c * p;
  }

  lemma OneMore(quotient: int, c: int, k: nat, y: int)
    requires quotient == c * Pow2(k)
    ensures (quotient + Pow2(k)) * y == quotient * y + y * Pow2(k) && quotient + Pow2(k) == (c + 1) * Pow2(k)
  {
  }

  lemma Halved(y: int, k: nat)
    requires y >= 1
    ensures k > 0 ==> Pow2(k) / 2 == Pow2(k - 1) && y * Pow2(k) / 2 == y * Pow2(k - 1)
    ensures k > 0 ==> y * Pow2(k) == 2 * (y * Pow2(k - 1))
    ensures k == 0 ==> Pow2(k) / 2 == 0 && y * Pow2(k) == y
    ensures y * Pow2(k) > 0 && Pow2(k) > Pow2(k) / 2
  {
    hide Pow2;
    AtLeast(Pow2(k), y);
    if k > 0 {
      PowStep(k - 1);
      Twice(y, Pow2(k - 1));
    } else {
      PowZero();
    }
  }

  lemma Twice(y: int, h: int)
    ensures y * (2 * h) == 2 * (y * h)
  {
  }
}
