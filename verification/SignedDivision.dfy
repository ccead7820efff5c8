/** Signed division of a double by a cell (ANS Forth, sections 3.2.2.1, 6.1.1561 and 6.1.2214). */
module SignedDivision {
  import opened Bits
  import opened Doubles
  import opened DoubleMath

  function Abs(x: int): (r: int)
    ensures r >= 0
  {
    if x < 0 then -x else x
  }

  /** The quotient rounded towards zero. */
  function Truncated(n: int, d: int): int
    requires d != 0
  {
    if (n < 0) == (d < 0) then Abs(n) / Abs(d) else -(Abs(n) / Abs(d))
  }

  /** The quotient rounded downwards. */
  function Floor(n: int, d: int): int
    requires d != 0
  {
    if d > 0 then n / d else (-n) / (-d)
  }

  /** Truncation is the one division whose remainder has the sign of the dividend. */
  lemma TruncatedIsSymmetric(n: int, d: int, q: int, r: int)
    requires d != 0
    ensures n == d * q + r && Abs(r) < Abs(d) && (r == 0 || (r < 0) == (n < 0))
            <==> q == Truncated(n, d) && r == n - d * Truncated(n, d)
  {
    var a, b := Abs(n), Abs(d);
    assert a == b * (a / b) + a % b;
    SignRule(n, d, a / b);
    if n == d * q + r && Abs(r) < Abs(d) && (r == 0 || (r < 0) == (n < 0)) {
      SymmetricIsTruncated(n, d, q, r);
    }
  }

  lemma SymmetricIsTruncated(n: int, d: int, q: int, r: int)
    requires d != 0 && n == d * q + r && Abs(r) < Abs(d) && (r == 0 || (r < 0) == (n < 0))
    ensures q == Truncated(n, d)
  {
    AbsProduct(d, q);
    SameSigns(n, d, q, r);
    QuotientUnique(Abs(n), Abs(d), Abs(q), Abs(r));
  }

  lemma SignRule(n: int, d: int, t: int)
    requires d != 0
    ensures var q := if (n < 0) == (d < 0) then t else -t;
            d * q == if n < 0 then -(Abs(d) * t) else Abs(d) * t
  {
  }

  lemma AbsProduct(d: int, q: int)
    ensures Abs(d * q) == Abs(d) * Abs(q)
  {
    if d >= 0 && q >= 0 { Positive(d, q); }
    else if d >= 0 { Positive(d, -q); assert d * q == -(d * -q); }
    else if q >= 0 { Positive(-d, q); assert d * q == -(-d * q); }
    else { Positive(-d, -q); assert d * q == -d * -q; }
  }

  lemma Positive(a: nat, b: nat)
    ensures a * b >= 0
  {
  }

  lemma SameSigns(n: int, d: int, q: int, r: int)
    requires d != 0 && n == d * q + r && Abs(r) < Abs(d) && (r == 0 || (r < 0) == (n < 0))
    requires Abs(d * q) == Abs(d) * Abs(q)
    ensures Abs(n) == Abs(d) * Abs(q) + Abs(r)
    ensures q != 0 ==> (q < 0) == ((n < 0) != (d < 0))
    ensures q == 0 ==> Abs(n) < Abs(d)
  {
    if q != 0 {
      assert Abs(d) * Abs(q) >= Abs(d) by { AtLeast(Abs(d), Abs(q)); }
      ProductSign(d, q);
    }
  }

  lemma ProductSign(d: int, q: int)
    requires d != 0 && q != 0
    ensures (d * q < 0) == ((d < 0) != (q < 0)) && d * q != 0
  {
    if d > 0 && q > 0 { AtLeast(d, q); }
    else if d > 0 { AtLeast(d, -q); assert d * q == -(d * -q); }
    else if q > 0 { AtLeast(-d, q); assert d * q == -(-d * q); }
    else { AtLeast(-d, -q); assert d * q == -d * -q; }
  }

  /** Flooring is the one division whose remainder has the sign of the divisor. */
  lemma FloorIsFloored(n: int, d: int, q: int, r: int)
    requires d != 0
    ensures n == d * q + r && Abs(r) < Abs(d) && (r == 0 || (r < 0) == (d < 0))
            <==> q == Floor(n, d) && r == n - d * Floor(n, d)
  {
    if d > 0 {
      EuclidUnique(n, d, q, r);
    } else {
      EuclidUnique(-n, -d, q, -r);
      Signs(d, q);
      Signs(d, Floor(n, d));
    }
  }

  lemma EuclidUnique(n: int, d: int, q: int, r: int)
    requires d > 0
    ensures n == d * q + r && 0 <= r < d <==> q == n / d && r == n - d * (n / d)
  {
    assert n == d * (n / d) + n % d;
    if n == d * q + r && 0 <= r < d {
      var t := n / d;
      Distribute(d, q, t);
      if q > t { AtLeast(d, q - t); }
      if q < t { AtLeast(d, t - q); Distribute(d, t, q); }
    }
  }

  /** The one quotient too large for a double. */
  predicate Overflows(n: int, d: int) {
    n == -(DOUBLE / 2) && d == -1
  }

  /** The quotients that lose their borrow, or borrow too much. */
  predicate Misborrows(n: int, d: int)
    requires d != 0
  {
    (n < 0) != (d < 0) && Abs(n) % Abs(d) != 0
    && (Low(Abs(n) / Abs(d)) == 0 || Low(Abs(n) / Abs(d)) == HIGH_BIT)
  }

  /** `ficl2IntegerAbsoluteValue`, as the unsigned division takes it. */
  lemma AbsoluteValue(x: Double)
    ensures (if IsNegative(x) then Negate(x) else x).Value() == Abs(x.Signed())
  {
  }

  lemma AbsoluteCell(x: Cell)
    ensures (if x >= HIGH_BIT then Minus(x) else x) == Abs(SignedCell(x))
    ensures x >= HIGH_BIT <==> SignedCell(x) < 0
    ensures SignedCell(x) == 0 <==> x == 0
  {
  }

  lemma SmallCell(x: Cell)
    requires x < HIGH_BIT
    ensures SignedCell(x) == x && SignedCell(Minus(x)) + x == 0
  {
  }

  /** Both divisions start from this one. */
  method DivideMagnitudes(num: Double, den: Cell) returns (quotient: Double, remainder: Cell)
    requires den != 0
    ensures quotient.Value() == Abs(num.Signed()) / Abs(SignedCell(den))
    ensures remainder == Abs(num.Signed()) % Abs(SignedCell(den)) && remainder < HIGH_BIT
  {
    hide Double.Value, Double.Signed, Minus, Negate, IsNegative;
    AbsoluteValue(num);
    AbsoluteCell(den);
    var n := if IsNegative(num) then Negate(num) else num;
    var d := if den >= HIGH_BIT then Minus(den) else den;
    quotient, remainder := Divide(n, d);
    QuotientUnique(n.Value(), d, quotient.Value(), remainder);
  }

  /** The magnitude with a minus sign, when it is not too large. */
  lemma NegatedQuotient(x: Double)
    requires x.Value() <= DOUBLE / 2
    ensures Negate(x).Signed() == -x.Value()
    ensures x.Signed() == if x.Value() == DOUBLE / 2 then -(DOUBLE / 2) else x.Value()
  {
  }

  lemma QuotientBound(a: nat, b: nat)
    requires b >= 1
    ensures a / b <= a
    ensures b >= 2 ==> 2 * (a / b) <= a
    ensures b == 1 ==> a / b == a && a % b == 0
  {
    var t := a / b;
    assert a == b * t + a % b;
    if b >= 2 { assert b * t == 2 * t + (b - 2) * t; Positive(b - 2, t); }
  }

  /** Truncation in terms of magnitudes. */
  lemma Symmetric(n: int, d: int)
    requires d != 0 && -(DOUBLE / 2) <= n <= DOUBLE / 2
    ensures Truncated(n, d) == if (n < 0) == (d < 0) then Abs(n) / Abs(d) else -(Abs(n) / Abs(d))
    ensures n - d * Truncated(n, d) == if n < 0 then -(Abs(n) % Abs(d)) else Abs(n) % Abs(d)
    ensures Abs(n) / Abs(d) <= DOUBLE / 2
    ensures Abs(n) / Abs(d) == DOUBLE / 2 <==> Abs(n) == DOUBLE / 2 && Abs(d) == 1
  {
    var a, b := Abs(n), Abs(d);
    QuotientBound(a, b);
    SignRule(n, d, a / b);
    assert a == b * (a / b) + a % b;
  }

  /** `ficl2IntegerDivideSymmetric`. */
  method DivideSymmetric(num: Double, den: Cell) returns (quotient: Double, remainder: Cell)
    requires den != 0
    ensures var n, d := num.Signed(), SignedCell(den);
            && d != 0 && SignedCell(remainder) == n - d * Truncated(n, d)
            && (quotient.Signed() == Truncated(n, d) <==> !Overflows(n, d))
  {
    hide Double.Value, Double.Signed, Minus, Negate, IsNegative, Truncated, SignedCell;
    AbsoluteCell(den);
    IsBelowZero(num);
    var signRem, signQuot := 1, 1;
    if IsNegative(num) { signRem := -signRem; signQuot := -signQuot; }
    if den >= HIGH_BIT { signQuot := -signQuot; }
    quotient, remainder := DivideMagnitudes(num, den);
    Symmetric(num.Signed(), SignedCell(den));
    NegatedQuotient(quotient);
    SmallCell(remainder);
    if signRem < 0 { remainder := Minus(remainder); }
    if signQuot < 0 { quotient := Negate(quotient); }
  }

  /** `ficl2IntegerDivideFloored`. */
  method DivideFloored(num: Double, den: Cell) returns (quotient: Double, remainder: Cell)
    requires den != 0
    ensures var n, d := num.Signed(), SignedCell(den);
            && d != 0 && SignedCell(remainder) == n - d * Floor(n, d) && quotient.low == Low(Floor(n, d))
            && (quotient.Signed() == Floor(n, d) <==> !Overflows(n, d) && !Misborrows(n, d))
  {
    hide Double.Value, Double.Signed, Minus, Negate, Floor, Overflows, Misborrows, IsNegative, Decrement;
    AbsoluteCell(den);
    AbsoluteValue(num);
    IsBelowZero(num);
    var signRem, signQuot := 1, 1;
    if IsNegative(num) { signQuot := -signQuot; }
    var divisor := den;
    if den >= HIGH_BIT { divisor := Minus(den); signRem := -signRem; signQuot := -signQuot; }
    quotient, remainder := DivideMagnitudes(num, den);
    Floored(num, den, quotient, remainder);
    if signQuot < 0 {
      quotient := Negate(quotient);
      if remainder != 0 {
        quotient := Decrement(quotient);
        remainder := divisor - remainder;
      }
    }
    if signRem < 0 { remainder := Minus(remainder); }
  }

  lemma IsBelowZero(x: Double)
    ensures IsNegative(x) <==> x.Signed() < 0
  {
  }

  lemma FlooredRemainder(num: Double, den: Cell, r: Cell)
    requires den != 0 && Abs(SignedCell(den)) != 0
    requires r == Abs(num.Signed()) % Abs(SignedCell(den)) && r < HIGH_BIT
    ensures var n, d := num.Signed(), SignedCell(den);
            var magnitude := if (n < 0) == (d < 0) || r == 0 then r else Abs(d) - r;
            && 0 <= magnitude < Abs(d) && magnitude < HIGH_BIT
            && SignedCell(if d < 0 then Minus(magnitude) else magnitude) == n - d * Floor(n, d)
  {
    hide Double.Value, Double.Signed, Minus, Floor;
    var n, d := num.Signed(), SignedCell(den);
    var a, b := Abs(n), Abs(d);
    var magnitude := if (n < 0) == (d < 0) || r == 0 then r else b - r;
    assert a == b * (a / b) + a % b && 0 <= a % b < b;
    FloorOfMagnitudes(n, d);
    AbsoluteCell(den);
    SmallCell(magnitude);
  }

  lemma FlooredQuotient(num: Double, den: Cell, q: Double, r: Cell)
    requires den != 0 && Abs(SignedCell(den)) != 0
    requires q.Value() == Abs(num.Signed()) / Abs(SignedCell(den))
    requires r == Abs(num.Signed()) % Abs(SignedCell(den)) && r < HIGH_BIT
    ensures var n, d := num.Signed(), SignedCell(den);
            var quotient := if (n < 0) == (d < 0) then q else if r == 0 then Negate(q) else Decrement(Negate(q));
            && quotient.low == Low(Floor(n, d))
            && (quotient.Signed() == Floor(n, d) <==> !Overflows(n, d) && !Misborrows(n, d))
  {
    hide Double.Value, Double.Signed, Minus, Negate, Decrement, Floor;
    var n, d := num.Signed(), SignedCell(den);
    QuotientBound(Abs(n), Abs(d));
    FloorOfMagnitudes(n, d);
    AbsoluteCell(den);
    NegatedQuotient(q);
    LowOfQuotient(q);
    if (n < 0) != (d < 0) && r != 0 {
      BorrowedQuotient(q);
    }
  }

  /** What the last steps of flooring make of the magnitudes. */
  lemma Floored(num: Double, den: Cell, q: Double, r: Cell)
    requires den != 0 && Abs(SignedCell(den)) != 0
    requires q.Value() == Abs(num.Signed()) / Abs(SignedCell(den))
    requires r == Abs(num.Signed()) % Abs(SignedCell(den)) && r < HIGH_BIT
    ensures var n, d := num.Signed(), SignedCell(den);
            var up := (n < 0) == (d < 0);
            var quotient := if up then q else if r == 0 then Negate(q) else Decrement(Negate(q));
            var magnitude := if up || r == 0 then r else Abs(d) - r;
            && 0 <= magnitude < Abs(d) && magnitude < HIGH_BIT
            && SignedCell(if d < 0 then Minus(magnitude) else magnitude) == n - d * Floor(n, d)
            && quotient.low == Low(Floor(n, d))
            && (quotient.Signed() == Floor(n, d) <==> !Overflows(n, d) && !Misborrows(n, d))
  {
    hide Double.Value, Double.Signed, Minus, Negate, Decrement, Floor, Overflows, Misborrows, SignedCell;
    FlooredRemainder(num, den, r);
    FlooredQuotient(num, den, q, r);
  }

  lemma FloorOfMagnitudes(n: int, d: int)
    requires d != 0
    ensures var a, b := Abs(n), Abs(d);
            var up, q, r := (n < 0) == (d < 0), Abs(n) / Abs(d), Abs(n) % Abs(d);
            var magnitude := if up || r == 0 then r else b - r;
            && Floor(n, d) == (if up then q else if r == 0 then -q else -q - 1)
            && n - d * Floor(n, d) == if d < 0 then -magnitude else magnitude
  {
    var a, b := Abs(n), Abs(d);
    var up, q, r := (n < 0) == (d < 0), a / b, a % b;
    hide Floor;
    assert a == b * q + r;
    if !up && r != 0 {
      SignRule(n, d, q + 1);
      assert b * (q + 1) == b * q + b;
      FloorIsFloored(n, d, -q - 1, if d < 0 then r - b else b - r);
    } else {
      SignRule(n, d, q);
      FloorIsFloored(n, d, if up then q else -q, if d < 0 then -r else r);
    }
  }

  lemma LowOfQuotient(x: Double)
    ensures x.low == Low(x.Value()) && Negate(x).low == Low(-x.Value())
  {
    LowOfValue(x, 0);
    assert (-(x.high * CELL + x.low)) % CELL == (-(x.low as int)) % CELL;
  }

  /** One less than the negated quotient, by way of the faulty borrow. */
  lemma BorrowedQuotient(q: Double)
    requires q.Value() < DOUBLE / 2
    ensures var r := Decrement(Negate(q));
            && r.low == Low(-q.Value() - 1)
            && (r.Signed() == -q.Value() - 1 <==> Low(q.Value()) != 0 && Low(q.Value()) != HIGH_BIT)
  {
    hide Double.Value, Double.Signed, Decrement, Negate, Low;
    var v, x := q.Value(), Negate(q);
    DecrementIsWrong(x);
    LowOfQuotient(q);
    LowOfNegative(v);
    OneBelow(v, x.Value());
    SignedOfResidue(Decrement(x), v);
  }

  lemma OneBelow(v: int, x: int)
    requires 0 <= v < DOUBLE / 2 && x == -v % DOUBLE
    ensures (x - 1) % DOUBLE == DOUBLE - v - 1 && Low(x - 1) == Low(-v - 1)
  {
    if v == 0 {
      assert x == 0;
    } else {
      assert x == DOUBLE - v;
      LowShift(v);
    }
  }

  lemma LowShift(v: int)
    ensures Low(DOUBLE - v - 1) == Low(-v - 1)
  {
    assert (CELL * CELL + (-v - 1)) % CELL == (-v - 1) % CELL;
  }

  lemma LowOfNegative(v: int)
    ensures Low(-v) == 0 <==> Low(v) == 0
    ensures Low(-v) == HIGH_BIT <==> Low(v) == HIGH_BIT
  {
    var k := v / CELL;
    assert v == k * CELL + Low(v);
    assert -v == -k * CELL - Low(v);
    LowParity(Low(v));
    LowOfSum(-k, -(Low(v) as int));
  }

  lemma LowOfSum(k: int, r: int)
    ensures Low(k * CELL + r) == Low(r)
  {
  }

  lemma LowParity(low: Cell)
    ensures Low(-(low as int)) == 0 <==> low == 0
    ensures Low(-(low as int)) == HIGH_BIT <==> low == HIGH_BIT
  {
  }

  lemma SignedOfResidue(x: Double, v: int)
    requires 0 <= v < DOUBLE / 2
    ensures x.Signed() == -v - 1 <==> x.Value() == DOUBLE - v - 1
  {
  }

  /** Among the quotients that go wrong are all those between -1 and 0. */
  lemma TinyDividendsMisborrow(n: int, d: int)
    requires d != 0 && 0 < Abs(n) < Abs(d) && (n < 0) != (d < 0)
    ensures Misborrows(n, d) && Floor(n, d) == -1
  {
    QuotientUnique(Abs(n), Abs(d), 0, Abs(n));
    FloorOfMagnitudes(n, d);
  }
}
