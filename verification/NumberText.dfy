/** Single-cell numbers as text, and how the interpreter reads them. */
module NumberText {
  import opened Wrappers
  import opened Slices
  import opened Bits
  import opened Characters
  import opened Doubles
  import opened DoubleMath
  import opened Numerals
  import opened PicturedNumbers

  /** Bitwise and. */
  function And(a: nat, b: nat): nat {
    if a == 0 || b == 0 then 0 else 2 * And(a / 2, b / 2) + (if a % 2 == 1 && b % 2 == 1 then 1 else 0)
  }

  lemma {:induction false} AndMask(v: nat, k: nat)
    ensures And(v, Pow2(k) - 1) == v % Pow2(k)
  {
    if k > 0 {
      var p := Pow2(k - 1);
      AndMask(v / 2, k - 1);
      HalfMod(v, p);
      assert (Pow2(k) - 1) / 2 == p - 1 && (Pow2(k) - 1) % 2 == 1;
    }
  }

  lemma HalfMod(v: nat, p: nat)
    requires p >= 1
    ensures v % (2 * p) == 2 * (v / 2 % p) + v % 2
  {
    var q, r := v / 2 / p, v / 2 % p;
    assert v / 2 == p * q + r;
    assert v == 2 * p * q + (2 * r + v % 2);
    QuotientUnique(v, 2 * p, q, 2 * r + v % 2);
  }

  /** `ficlIsPowerOfTwo`: the exponent, or 0. */
  method IsPowerOfTwo(u: Cell) returns (n: nat)
    ensures n != 0 ==> n < 32 && u == Pow2(n)
    ensures n == 0 ==> forall k :: 1 <= k < 32 ==> u != Pow2(k)
  {
    hide Pow2;
    var i: nat, t: Cell := 1, 2;
    PowStart();
    while t <= u && t != 0
      invariant 1 <= i <= 32 && t == if i == 32 then 0 else Pow2(i)
      invariant forall k :: 1 <= k < i ==> u != Pow2(k)
      decreases 32 - i
    {
      if u == t { return i; }
      NextPower(i);
      i := i + 1;
      t := if t >= HIGH_BIT then 2 * t - CELL else 2 * t;
    }
    forall k | 1 <= k < 32 ensures u != Pow2(k) {
      if k > i { PowMonotone(i, k); }
    }
    n := 0;
  }

  lemma PowStart()
    ensures Pow2(1) == 2
  {
  }

  lemma NextPower(i: nat)
    requires i < 32
    ensures Pow2(i + 1) == 2 * Pow2(i)
    ensures i < 31 ==> Pow2(i) < HIGH_BIT
    ensures i == 31 ==> Pow2(i) == HIGH_BIT
  {
    Pow2Values();
    assert Pow2(32) == 2 * Pow2(31);
    if i < 31 { PowMonotone(i, 31); }
  }

  /** What is printed: in base ten a negative number has a sign, in all others its bits are printed. */
  function Printed(value: Cell, radix: int): (s: seq<Byte>)
    requires 2 <= radix <= MAX_BASE
    ensures s != []
  {
    if radix == 10 && value >= HIGH_BIT then ['-' as int] + Numeral(CELL - value, radix) else Numeral(value, radix)
  }

  /** The part of both printers that writes the digits of a number other than 0, by division. */
  method DivideOut(value: Cell, text: array<Byte>, radix: Cell) returns (n: nat)
    requires 2 <= radix <= MAX_BASE && value != 0 && text.Length >= 34
    modifies text
    ensures n <= 32 && text[..n] == Backward(value, radix)
  {
    hide Double.Value, DigitChar;
    CellLength(value, radix);
    var v := Double(0, value);
    Small(value);
    n := 0;
    while v.high != 0 || v.low != 0
      invariant v.Value() != 0 ==> n + |Backward(v.Value(), radix)| == |Backward(value, radix)|
      invariant v.Value() != 0 ==> n < 32 && text[..n] + Backward(v.Value(), radix) == Backward(value, radix)
      invariant v.Value() == 0 ==> n <= 32 && text[..n] == Backward(value, radix)
      decreases v.Value()
    {
      NotZero(v);
      ghost var before, done := v, text[..n];
      var quotient, remainder := Divide(v, radix);
      QuotientUnique(v.Value(), radix, quotient.Value(), remainder);
      BackwardStep(v, quotient, radix);
      text[n] := DigitChar(remainder);
      n := n + 1;
      v := quotient;
      assert text[..n] == done + [DigitChar(remainder)];
      Associate(done, [DigitChar(remainder)], Backward(v.Value(), radix));
    }
    NotZero(v);
  }

  lemma CellLength(v: Cell, base: int)
    requires 2 <= base <= MAX_BASE
    ensures |Backward(v, base)| <= 32
  {
    Pow2Values();
    NumeralLength(v, base, 32);
  }

  /** The digits in a base that is a power of two, by masking and shifting: the same that division gives. */
  method ShiftOut(value: Cell, text: array<Byte>, pwr: nat, radix: Cell) returns (n: nat)
    requires 2 <= radix <= MAX_BASE && radix == Pow2(pwr) && value != 0 && text.Length >= 34
    modifies text
    ensures n <= 32 && text[..n] == Backward(value, radix)
  {
    hide DigitChar, Pow2;
    CellLength(value, radix);
    var v: int := value;
    var mask := Pow2(pwr) - 1;
    n := 0;
    while v != 0
      invariant 0 <= v
      invariant v != 0 ==> n + |Backward(v, radix)| == |Backward(value, radix)|
      invariant v != 0 ==> n < 32 && text[..n] + Backward(v, radix) == Backward(value, radix)
      invariant v == 0 ==> n <= 32 && text[..n] == Backward(value, radix)
      decreases v
    {
      AndMask(v, pwr);
      ghost var done := text[..n];
      var digit := And(v, mask);
      BackwardDigit(v, radix);
      text[n] := DigitChar(digit);
      n := n + 1;
      v := v / Pow2(pwr);
      assert text[..n] == done + [DigitChar(digit)];
      Associate(done, [DigitChar(digit)], Backward(v, radix));
    }
  }

  /** Ends the string and turns it round. */
  method Finish(text: array<Byte>, n: nat)
    requires n < text.Length && 0 !in text[..n]
    modifies text
    ensures text[..n] == Reverse(old(text[..n])) && text[n] == 0
  {
    ghost var s := text[..n];
    text[n] := 0;
    assert text[..n] == s;
    LengthOfPicture(text[..], n);
    StringReverse(text);
    assert text[n] == text[n..][0];
  }

  /** `ficlLtoa` */
  method Ltoa(value: Cell, text: array<Byte>, radix: Cell) returns (n: nat)
    requires 2 <= radix <= MAX_BASE && text.Length >= 34
    modifies text
    ensures n < text.Length && text[n] == 0 && text[..n] == Printed(value, radix)
  {
    hide DigitChar, Minus;
    var sign := radix == 10 && value >= HIGH_BIT;
    var pwr := IsPowerOfTwo(radix);
    var v := if sign then Minus(value) else value;
    SignedMagnitude(value);
    if v == 0 {
      text[0] := '0' as int;
      n := 1;
      assert text[..1] == ['0' as int];
      ZeroDigit(radix);
    } else if pwr != 0 {
      n := ShiftOut(v, text, pwr, radix);
    } else {
      n := DivideOut(v, text, radix);
    }
    NoNul(v, radix);
    assert text[..n] == Backward(v, radix);
    ghost var digits := text[..n];
    if sign {
      text[n] := '-' as int;
      n := n + 1;
      assert text[..n] == digits + ['-' as int];
    }
    Finish(text, n);
    ReverseBackward(v, radix);
    if sign { ReverseSigned(digits, '-' as int); }
  }

  lemma SignedMagnitude(value: Cell)
    ensures value >= HIGH_BIT ==> Minus(value) == CELL - value
  {
  }

  lemma ZeroDigit(radix: int)
    requires 2 <= radix <= MAX_BASE
    ensures Backward(0, radix) == ['0' as int]
  {
  }

  lemma {:induction false} ReverseSigned(s: seq<Byte>, c: Byte)
    ensures Reverse(s + [c]) == [c] + Reverse(s)
  {
  }

  /** `ficlUltoa` */
  method Ultoa(value: Cell, text: array<Byte>, radix: Cell) returns (n: nat)
    requires 2 <= radix <= MAX_BASE && text.Length >= 34
    modifies text
    ensures n < text.Length && text[n] == 0 && text[..n] == Numeral(value, radix)
  {
    hide DigitChar;
    if value == 0 {
      text[0] := '0' as int;
      n := 1;
      assert text[..1] == ['0' as int];
      ZeroDigit(radix);
    } else {
      n := DivideOut(value, text, radix);
    }
    NoNul(value, radix);
    Finish(text, n);
    ReverseBackward(value, radix);
  }

  /** A number that was read, and whether a point after it makes it a double. */
  datatype Parsed = NotANumber | Number(value: Cell, isDouble: bool)

  /** The digits that `ficlVmParseNumber` accepts, up to a NUL character. */
  function ParseDigits(s: seq<Byte>, acc: Cell, base: Cell): Option<Cell> {
    if s == [] || s[0] == 0 then Some(acc)
    else if !(IsDigit(s[0]) || IsUpper(s[0]) || IsLower(s[0])) || DigitValue(s[0]) >= base then None
    else ParseDigits(s[1..], Low(acc * base + DigitValue(s[0])), base)
  }

  /** `ficlVmParseNumber`, for a word of up to 255 characters. */
  function Parse(s: seq<Byte>, base: Cell): Parsed
    requires |s| < 256
  {
    var signed := |s| > 1 && (s[0] == '-' as int || s[0] == '+' as int);
    var body := if signed then s[1..] else s;
    var isDouble := body != [] && body[|body|-1] == '.' as int;
    var digits := if isDouble then body[..|body|-1] else body;
    if digits == [] then NotANumber else
    match ParseDigits(digits, 0, base)
    case None => NotANumber
    case Some(v) => Number(if signed && s[0] == '-' as int then Minus(v) else v, isDouble)
  }

  lemma {:induction false} ParseNumeral(v: nat, base: Cell, rest: seq<Byte>)
    requires 2 <= base <= MAX_BASE
    ensures ParseDigits(Numeral(v, base) + rest, 0, base) == ParseDigits(rest, Low(v), base)
    decreases v
  {
    var s := Numeral(v, base) + rest;
    if v < base {
      DigitRoundTrip(v);
      assert s[1..] == rest;
    } else {
      Smaller(v, base);
      var c := DigitChar(v % base);
      DigitRoundTrip(v % base);
      Associate(Numeral(v / base, base), [c], rest);
      ParseNumeral(v / base, base, [c] + rest);
      assert ([c] + rest)[1..] == rest;
      LowStep(v / base, base, v % base);
    }
  }

  lemma LowStep(q: int, base: int, d: int)
    ensures Low(Low(q) * base + d) == Low(q * base + d)
  {
    var k := q / CELL;
    assert q == k * CELL + Low(q);
    Shift(k, base, Low(q), d);
    Congruent(Low(q) * base + d, k * base);
  }

  lemma Shift(k: int, base: int, r: int, d: int)
    ensures (k * CELL + r) * base + d == (k * base) * CELL + (r * base + d)
  {
  }

  lemma Congruent(x: int, k: int)
    ensures Low(k * CELL + x) == Low(x)
  {
  }

  /** Every cell that is printed is read back, in the same base: with its sign, or as its bits. */
  lemma PrintedIsParsed(value: Cell, radix: Cell)
    requires 2 <= radix <= MAX_BASE
    ensures var s := Printed(value, radix);
            |s| <= 33 && Parse(s, radix) == Number(value, false)
  {
    hide Low;
    if radix == 10 && value >= HIGH_BIT {
      var s := Printed(value, radix);
      NumeralIsParsed(CELL - value, radix);
      assert s[1..] == Numeral(CELL - value, radix);
      SignedMagnitude(CELL - value);
      assert Minus(CELL - value) == value by { MinusBack(value); }
    } else {
      NumeralIsParsed(value, radix);
    }
  }

  lemma MinusBack(value: Cell)
    requires value >= HIGH_BIT
    ensures Minus(CELL - value) == value
  {
  }

  /** An unsigned number that is printed is read back. */
  lemma NumeralIsParsed(v: Cell, radix: Cell)
    requires 2 <= radix <= MAX_BASE
    ensures var s := Numeral(v, radix);
            |s| <= 32 && ParseDigits(s, 0, radix) == Some(v) && Parse(s, radix) == Number(v, false)
  {
    Pow2Values();
    hide Numeral, ParseDigits, Parse, DigitValue, Pow2;
    var s := Numeral(v, radix);
    NumeralLength(v, radix, 32);
    NumeralDigits(v, radix);
    ParseNumeral(v, radix, []);
    NothingLeft(Low(v), radix);
    assert s + [] == s;
    assert s[0] in s && s[|s|-1] in s;
    ParsePlain(s, radix);
  }

  lemma NothingLeft(acc: Cell, base: Cell)
    ensures ParseDigits([], acc, base) == Some(acc)
  {
  }

  lemma ParsePlain(s: seq<Byte>, base: Cell)
    requires 0 < |s| < 256 && s[0] != '-' as int && s[0] != '+' as int && s[|s|-1] != '.' as int
    ensures Parse(s, base) == match ParseDigits(s, 0, base) case None => NotANumber case Some(v) => Number(v, false)
  {
    hide ParseDigits;
  }

  /** The loop of `ficlVmParseNumber`. */
  method ParseDigitsIn(digits: seq<Byte>, base: Cell) returns (r: Option<Cell>)
    ensures r == ParseDigits(digits, 0, base)
  {
    hide DigitValue, Low;
    var accumulator: Cell := 0;
    var i := 0;
    assert digits[0..] == digits;
    while i < |digits| && digits[i] != 0
      invariant 0 <= i <= |digits|
      invariant ParseDigits(digits[i..], accumulator, base) == ParseDigits(digits, 0, base)
    {
      var c := digits[i];
      assert digits[i..][1..] == digits[i + 1..];
      if !(IsDigit(c) || IsUpper(c) || IsLower(c)) { return None; }
      var digit := DigitValue(c);
      if digit >= base { return None; }
      accumulator := Low(accumulator * base + digit);
      i := i + 1;
    }
    r := Some(accumulator);
  }

  /** `ficlVmParseNumber` */
  method ParseNumber(s: seq<Byte>, base: Cell) returns (r: Parsed)
    requires |s| < 256
    ensures r == Parse(s, base)
  {
    hide ParseDigits, Minus;
    var isNegative, isDouble := false, false;
    var trace := s;
    if |trace| > 1 {
      if trace[0] == '-' as int {
        trace, isNegative := trace[1..], true;
      } else if trace[0] == '+' as int {
        trace := trace[1..];
      }
    }
    if |trace| > 0 && trace[|trace| - 1] == '.' as int {
      isDouble := true;
      trace := trace[..|trace| - 1];
    }
    if trace == [] { return NotANumber; }
    var accumulator := ParseDigitsIn(trace, base);
    if accumulator.None? { return NotANumber; }
    r := Number(if isNegative then Minus(accumulator.value) else accumulator.value, isDouble);
  }
}
