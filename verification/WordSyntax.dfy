/** Which words of a program are numbers, in any base, and what they are worth. */
module WordSyntax {
  import opened Wrappers
  import opened Bits
  import opened Characters
  import opened Doubles
  import opened DoubleMath
  import opened Numerals
  import opened PicturedNumbers
  import opened NumberText

  predicate AllDigits(s: seq<Byte>, base: Cell) {
    forall i :: 0 <= i < |s| ==> IsDigitOf(s[i], base)
  }

  /** A sign or none, digits of the base, and a point or none. */
  predicate Written(s: seq<Byte>, sign: seq<Byte>, digits: seq<Byte>, point: seq<Byte>, base: Cell) {
    && s == sign + digits + point && (sign == [] || sign == [43] || sign == [45]) && (point == [] || point == [46])
    && digits != [] && AllDigits(digits, base)
  }

  lemma {:induction false} SpeltModulo(digits: seq<Byte>, v: int, base: Cell)
    ensures Spelt(digits, Low(v), base) % CELL == Spelt(digits, v, base) % CELL
    decreases |digits|
  {
    hide Worth, Low;
    if digits == [] {
      LowTwice(v);
    } else {
      var d := Worth(digits[0]);
      LowStep(v, base, d);
      SpeltModulo(digits[1..], Low(v) * base + d, base);
      SpeltModulo(digits[1..], v * base + d, base);
    }
  }

  lemma LowTwice(v: int)
    ensures Low(v) % CELL == v % CELL
  {
  }

  /** Digits are accepted if all are digits of the base, and are worth what they spell, modulo 2 to the 32. */
  lemma {:induction false} DigitsAccepted(s: seq<Byte>, acc: Cell, base: Cell)
    requires base <= 36 && 0 !in s
    ensures if AllDigits(s, base)
            then ParseDigits(s, acc, base).Some? && ParseDigits(s, acc, base).value as int == Spelt(s, acc, base) % CELL
            else ParseDigits(s, acc, base) == None
    decreases |s|
  {
    hide DigitValue, Worth, IsDigitOf, Low;
    if s != [] {
      var c, rest := s[0], s[1..];
      assert c in s && forall x :: x in rest ==> x in s;
      DigitAccepted(c, base);
      if IsDigitOf(c, base) {
        var next := acc * base + Worth(c);
        DigitsAccepted(rest, Low(next), base);
        SpeltModulo(rest, next, base);
        assert AllDigits(s, base) <==> AllDigits(rest, base) by {
          assert s == [c] + rest;
        }
      }
    }
  }

  lemma DigitAccepted(c: Byte, base: Cell)
    requires base <= 36
    ensures IsDigitOf(c, base) <==> (IsDigit(c) || IsUpper(c) || IsLower(c)) && DigitValue(c) < base
    ensures IsDigitOf(c, base) ==> DigitValue(c) == Worth(c) && c != 43 && c != 45 && c != 46
  {
  }

  /** The sign and the point are taken off. */
  lemma ParseParts(s: seq<Byte>, sign: seq<Byte>, digits: seq<Byte>, point: seq<Byte>, base: Cell)
    requires |s| < 256 && s == sign + digits + point && digits != []
    requires (sign == [] && digits[0] != 43 && digits[0] != 45) || sign == [43] || sign == [45]
    requires (point == [] && digits[|digits| - 1] != 46) || point == [46]
    ensures Parse(s, base) == match ParseDigits(digits, 0, base)
                              case None => NotANumber
                              case Some(v) => Number(if sign == [45] then Minus(v) else v, point == [46])
  {
    hide ParseDigits, Minus;
    var body := digits + point;
    assert s == sign + body;
    if sign == [] { assert s == body && body[0] == digits[0]; } else { assert s[1..] == body && s[0] == sign[0]; }
    if point == [] { assert body == digits; } else { assert body[..|body| - 1] == digits; }
  }

  /** A word that is written as a number is one: its digits modulo 2 to the 32, with the sign, and double if it has a point. */
  lemma WordIsNumber(s: seq<Byte>, sign: seq<Byte>, digits: seq<Byte>, point: seq<Byte>, base: Cell)
    requires base <= 36 && |s| < 256 && 0 !in s && Written(s, sign, digits, point, base)
    ensures var n := Spelt(digits, 0, base);
            Parse(s, base) == Number((if sign == [45] then -n else n) % CELL, point == [46])
  {
    hide IsDigitOf, ParseDigits, Spelt, Minus, Parse;
    DigitAccepted(digits[0], base);
    DigitAccepted(digits[|digits| - 1], base);
    ParseParts(s, sign, digits, point, base);
    assert forall x :: x in digits ==> x in s;
    DigitsAccepted(digits, 0, base);
    Negated(Spelt(digits, 0, base));
  }

  lemma Negated(n: int)
    ensures Minus(n % CELL) == (-n) % CELL
  {
    var q, r := n / CELL, n % CELL;
    assert -n == (-q - 1) * CELL + (CELL - r);
    Congruent(CELL - r, -q - 1);
  }

  /** And no other word is one. */
  lemma NumberIsWritten(s: seq<Byte>, base: Cell) returns (sign: seq<Byte>, digits: seq<Byte>, point: seq<Byte>)
    requires base <= 36 && |s| < 256 && 0 !in s && Parse(s, base).Number?
    ensures Written(s, sign, digits, point, base)
  {
    hide IsDigitOf, ParseDigits, Minus;
    sign, digits, point := NumberParts(s, base);
    hide Parse;
    assert forall x :: x in digits ==> x in s;
    DigitsAccepted(digits, 0, base);
  }

  lemma NumberParts(s: seq<Byte>, base: Cell) returns (sign: seq<Byte>, digits: seq<Byte>, point: seq<Byte>)
    requires |s| < 256 && Parse(s, base).Number?
    ensures s == sign + digits + point && (sign == [] || sign == [43] || sign == [45]) && (point == [] || point == [46])
    ensures digits != [] && ParseDigits(digits, 0, base).Some?
  {
    hide ParseDigits, Minus;
    var signed := |s| > 1 && (s[0] == 45 || s[0] == 43);
    var body := if signed then s[1..] else s;
    sign := if signed then [s[0]] else [];
    assert s == sign + body;
    if body != [] && body[|body| - 1] == 46 {
      digits, point := body[..|body| - 1], [46];
    } else {
      digits, point := body, [];
    }
    assert body == digits + point;
  }

  /** The digits of a number spell it. */
  lemma {:induction false} NumeralSpells(v: nat, base: Cell)
    requires 2 <= base <= 36
    ensures AllDigits(Numeral(v, base), base) && Spelt(Numeral(v, base), 0, base) == v
    decreases v
  {
    if v < base {
      DigitIsWorth(v, base);
      assert Numeral(v, base)[1..] == [];
    } else {
      Smaller(v, base);
      var front, c := Numeral(v / base, base), DigitChar(v % base);
      NumeralSpells(v / base, base);
      DigitIsWorth(v % base, base);
      SpeltEnd(front, 0, base, c);
    }
  }

  lemma DigitIsWorth(d: int, base: Cell)
    requires 0 <= d < base <= 36
    ensures IsDigitOf(DigitChar(d), base) && Worth(DigitChar(d)) == d
  {
  }

  lemma {:induction false} SpeltEnd(s: seq<Byte>, v: int, base: Cell, c: Byte)
    ensures Spelt(s + [c], v, base) == Spelt(s, v, base) * base + Worth(c)
    decreases |s|
  {
    hide Worth;
    if s == [] {
      assert (s + [c])[1..] == [];
    } else {
      assert (s + [c])[1..] == s[1..] + [c];
      SpeltEnd(s[1..], v * base + Worth(s[0]), base, c);
    }
  }

  /** The number, not reduced, that a text spells, with a minus sign or none. */
  function Reading(s: seq<Byte>, base: Cell): int {
    if s != [] && s[0] == 45 then -Spelt(s[1..], 0, base) else Spelt(s, 0, base)
  }

  /** What is printed in base ten is the number as a signed cell, and in any other base as an unsigned one. */
  lemma PrintedIsRight(value: Cell, radix: Cell)
    requires 2 <= radix <= 36
    ensures Reading(Printed(value, radix), radix) == if radix == 10 && value >= 0x8000_0000 then value - 0x1_0000_0000 else value
  {
    hide Numeral, Spelt;
    if radix == 10 && value >= HIGH_BIT {
      NumeralSpells(CELL - value, radix);
      assert Printed(value, radix)[1..] == Numeral(CELL - value, radix);
    } else {
      NumeralSpells(value, radix);
      DigitAccepted(Numeral(value, radix)[0], radix);
    }
  }
}
