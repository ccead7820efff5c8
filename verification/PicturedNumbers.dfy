/** The pictured numeric words, and the word that reads a number back (ANS Forth, sections 6.1.0050 and 6.1.0570). */
module PicturedNumbers {
  import opened Slices
  import opened Bits
  import opened Characters
  import opened Doubles
  import opened DoubleMath
  import opened Numerals

  const PAD_SIZE := 256

  /** What `>NUMBER` leaves: the number, and how much of the text is not converted. */
  datatype Converted = Converted(value: Double, unconverted: nat)

  function FromValue(v: int): (x: Double)
    ensures x.Value() == v % DOUBLE
  {
    var m := v % DOUBLE;
    Double(m / CELL, m % CELL)
  }

  lemma SameValue(x: Double, y: Double)
    requires x.Value() == y.Value()
    ensures x == y
  {
  }

  /** `>NUMBER` on the first `n` characters. */
  function ToNumber(text: seq<Byte>, n: nat, acc: Double, base: Cell): Converted
    requires n <= |text|
    decreases n
  {
    if n == 0 || text[0] < '0' as int || DigitValue(text[0]) >= base then Converted(acc, n)
    else ToNumber(text[1..], n - 1, FromValue(acc.Value() * base + DigitValue(text[0])), base)
  }

  lemma {:induction false} ToNumberDigit(text: seq<Byte>, n: nat, acc: Double, base: Cell, v: nat, rest: seq<Byte>)
    requires 2 <= base <= MAX_BASE && n <= |rest| && text == Numeral(v, base) + rest && v < DOUBLE && acc == ZERO
    ensures ToNumber(text, |Numeral(v, base)| + n, acc, base) == ToNumber(rest, n, FromValue(v), base)
    decreases v
  {
    if v < base {
      DigitRoundTrip(v);
      assert text[1..] == rest;
      assert acc.Value() * base + v == v;
    } else {
      Smaller(v, base);
      var c := DigitChar(v % base);
      DigitRoundTrip(v % base);
      var next := [c] + rest;
      Associate(Numeral(v / base, base), [c], rest);
      ToNumberDigit(text, n + 1, acc, base, v / base, next);
      assert next[1..] == rest;
      SmallMod(v / base);
    }
  }

  lemma SmallMod(v: int)
    requires 0 <= v < DOUBLE
    ensures FromValue(v).Value() == v
  {
  }

  /** The numeral of a double is read back as that double, with nothing left over. */
  lemma NumeralIsRead(u: Double, base: Cell)
    requires 2 <= base <= MAX_BASE
    ensures var s := Numeral(u.Value(), base); ToNumber(s, |s|, ZERO, base) == Converted(u, 0)
  {
    var s := Numeral(u.Value(), base);
    assert s == s + [];
    ToNumberDigit(s, 0, ZERO, base, u.Value(), []);
    SmallMod(u.Value());
    SameValue(FromValue(u.Value()), u);
  }

  /** `>NUMBER`: converts characters from `start` on. */
  method ToNumberIn(text: array<Byte>, start: nat, count: nat, ud: Double, base: Cell) returns (r: Converted)
    requires start + count < text.Length
    ensures r == ToNumber(text[start..], count, ud, base)
  {
    hide Double.Value, DigitValue;
    var trace, length, accumulator := start, count, ud;
    while length > 0
      invariant 0 <= length <= count && trace == start + (count - length)
      invariant ToNumber(text[trace..], length, accumulator, base) == ToNumber(text[start..], count, ud, base)
    {
      var c := text[trace];
      if c < '0' as int { break; }
      var digit := DigitValue(c);
      if digit >= base { break; }
      ghost var before := accumulator;
      accumulator := MultiplyAccumulate(accumulator, base, digit);
      SameValue(accumulator, FromValue(before.Value() * base + digit));
      assert text[trace..][1..] == text[trace + 1..];
      trace := trace + 1;
      length := length - 1;
    }
    r := Converted(accumulator, length);
  }

  /** The pad, as the pictured numeric words use it: text with a length in front. */
  class Pad {
    const text: array<Byte>
    var length: nat

    ghost predicate Valid()
      reads this
    {
      length <= text.Length && text.Length == PAD_SIZE - 1
    }

    /** The characters put so far, the last one in front of the number first. */
    ghost function Picture(): seq<Byte>
      requires Valid()
      reads this, text
    {
      text[..length]
    }

    constructor ()
      ensures Valid() && fresh(text) && Picture() == []
    {
      text := new Byte[PAD_SIZE - 1](_ => 0);
      length := 0;
    }

    /** `<#` */
    method LessNumberSign()
      requires Valid()
      modifies this
      ensures Valid() && Picture() == []
    {
      length := 0;
    }

    /** `HOLD`, and the digit that `#` and `SIGN` put. */
    method Hold(c: Byte)
      requires Valid() && length < text.Length
      modifies this, text
      ensures Valid() && length == old(length) + 1 && Picture() == old(Picture()) + [c]
    {
      text[length] := c;
      length := length + 1;
    }

    /** `SIGN` */
    method Sign(n: int)
      requires Valid() && length < text.Length
      modifies this, text
      ensures Valid() && Picture() == if n < 0 then old(Picture()) + ['-' as int] else old(Picture())
    {
      if n < 0 {
        Hold('-' as int);
      }
    }

    /** `#` */
    method NumberSign(u: Double, base: Cell) returns (quotient: Double)
      requires Valid() && length < text.Length && 2 <= base <= MAX_BASE
      modifies this, text
      ensures Valid() && length == old(length) + 1 && quotient.Value() == u.Value() / base
      ensures Picture() == old(Picture()) + [DigitChar(u.Value() % base)]
    {
      var remainder;
      quotient, remainder := Divide(u, base);
      QuotientUnique(u.Value(), base, quotient.Value(), remainder);
      Hold(DigitChar(remainder));
    }

    /** `#S` */
    method NumberSignS(ud: Double, base: Cell) returns (u: Double)
      requires 2 <= base <= MAX_BASE && Valid() && length + |Backward(ud.Value(), base)| <= text.Length
      modifies this, text
      ensures Valid() && u == ZERO && Picture() == old(Picture()) + Backward(ud.Value(), base)
    {
      hide Double.Value, DigitChar;
      ghost var done := Picture();
      u := NumberSign(ud, base);
      BackwardStep(ud, u, base);
      done := done + [DigitChar(ud.Value() % base)];
      while u.high != 0 || u.low != 0
        invariant Valid() && Picture() == done
        invariant u.Value() != 0 ==> done + Backward(u.Value(), base) == old(Picture()) + Backward(ud.Value(), base)
        invariant u.Value() == 0 ==> done == old(Picture()) + Backward(ud.Value(), base)
        decreases u.Value()
      {
        NotZero(u);
        ghost var before, was := u, done;
        assert length < text.Length;
        u := NumberSign(u, base);
        BackwardStep(before, u, base);
        done := done + [DigitChar(before.Value() % base)];
        Associate(was, [DigitChar(before.Value() % base)], Backward(u.Value(), base));
      }
      NotZero(u);
    }

    /** `#>`: turns the picture round, and returns its length. */
    method NumberSignGreater() returns (n: nat)
      requires Valid() && length < text.Length && 0 !in Picture()
      modifies text
      ensures n == length && text[..n] == Reverse(old(Picture())) && text[n] == 0
    {
      ghost var picture := Picture();
      text[length] := 0;
      assert text[..length] == picture;
      LengthOfPicture(text[..], length);
      StringReverse(text);
      n := length;
      assert text[n] == text[n..][0];
    }
  }

  lemma BackwardStep(u: Double, q: Double, base: Cell)
    requires 2 <= base <= MAX_BASE && q.Value() == u.Value() / base
    ensures 0 <= u.Value() % base < base
    ensures q.Value() == 0 ==> Backward(u.Value(), base) == [DigitChar(u.Value() % base)]
    ensures q.Value() != 0 ==> Backward(u.Value(), base) == [DigitChar(u.Value() % base)] + Backward(q.Value(), base)
    ensures u.Value() > 0 ==> q.Value() < u.Value()
  {
    hide Double.Value, Backward;
    BackwardDigit(u.Value(), base);
  }

  lemma {:induction false} LengthOfPicture(s: seq<Byte>, n: nat)
    requires n < |s| && s[n] == 0 && 0 !in s[..n]
    ensures 0 in s && StringLength(s) == n
  {
    assert forall i :: 0 <= i < n ==> s[i] == s[..n][i];
  }

  lemma {:induction false} NoNul(v: nat, base: int)
    requires 2 <= base <= MAX_BASE
    ensures 0 !in Backward(v, base)
    decreases v
  {
    if v >= base {
      Smaller(v, base);
      NoNul(v / base, base);
    }
  }

  /** `<# #S #>`, and then `>NUMBER` from zero: the number comes back, and all of it is converted. */
  method PrintAndRead(pad: Pad, ud: Double, base: Cell) returns (r: Converted)
    requires pad.Valid() && 2 <= base <= MAX_BASE
    modifies pad, pad.text
    ensures r == Converted(ud, 0)
  {
    hide Double.Value, Backward, Numeral, Reverse, ToNumber;
    pad.LessNumberSign();
    DoubleLength(ud, base);
    assert [] + Backward(ud.Value(), base) == Backward(ud.Value(), base);
    var _ := pad.NumberSignS(ud, base);
    NoNul(ud.Value(), base);
    var n := pad.NumberSignGreater();
    ReverseBackward(ud.Value(), base);
    r := ToNumberIn(pad.text, 0, n, ZERO, base);
    PrefixIsRead(pad.text[..], n, ud, base);
    assert pad.text[0..] == pad.text[..];
  }

  lemma PrefixIsRead(text: seq<Byte>, n: nat, ud: Double, base: Cell)
    requires 2 <= base <= MAX_BASE && n <= |text| && text[..n] == Numeral(ud.Value(), base)
    ensures ToNumber(text, n, ZERO, base) == Converted(ud, 0)
  {
    hide Double.Value, Numeral, ToNumber;
    assert text == text[..n] + text[n..];
    ToNumberPrefix(text[..n], text[n..], n, ZERO, base);
    NumeralIsRead(ud, base);
  }

  lemma DoubleLength(u: Double, base: Cell)
    requires 2 <= base <= MAX_BASE
    ensures |Backward(u.Value(), base)| <= 64
  {
    Pow2Values();
    PowSum(32, 32);
    NumeralLength(u.Value(), base, 64);
  }

  /** Characters beyond the count are not looked at. */
  lemma {:induction false} ToNumberPrefix(s: seq<Byte>, t: seq<Byte>, n: nat, acc: Double, base: Cell)
    requires n <= |s|
    ensures ToNumber(s + t, n, acc, base) == ToNumber(s, n, acc, base)
    decreases n
  {
    if n > 0 {
      assert (s + t)[1..] == s[1..] + t;
      ToNumberPrefix(s[1..], t, n - 1, FromValue(acc.Value() * base + DigitValue(s[0])), base);
    }
  }

  /** The digits of a base, small letters included. */
  predicate IsDigitOf(c: Byte, base: Cell) {
    (IsDigit(c) || IsUpper(c) || IsLower(c)) && Worth(c) < base
  }

  /** What a digit is worth. */
  function Worth(c: Byte): (d: int) {
    if IsDigit(c) then c - '0' as int else if IsUpper(c) then c - 'A' as int + 10 else c - 'a' as int + 10
  }

  /** Characters between the capital and the small letters that the base lets through. */
  predicate IsBracket(c: Byte, base: Cell) {
    '[' as int <= c <= '`' as int && c - 87 < base
  }

  /** A character is taken if and only if it is a digit of the base or one of those, and is worth what it looks like. */
  lemma TakenCharacters(c: Byte, base: Cell)
    requires base <= MAX_BASE
    ensures c >= '0' as int && DigitValue(c) < base <==> IsDigitOf(c, base) || IsBracket(c, base)
    ensures IsDigitOf(c, base) ==> DigitValue(c) == Worth(c) && !IsBracket(c, base)
  {
  }

  /** How many digits a text starts with. */
  function LeadingDigits(text: seq<Byte>, n: nat, base: Cell): (k: nat)
    requires n <= |text|
    ensures k <= n && (forall i :: 0 <= i < k ==> IsDigitOf(text[i], base)) && (k < n ==> !IsDigitOf(text[k], base))
    decreases n
  {
    if n == 0 || !IsDigitOf(text[0], base) then 0 else 1 + LeadingDigits(text[1..], n - 1, base)
  }

  /** The number that digits spell after a number. */
  function Spelt(digits: seq<Byte>, v: int, base: Cell): int {
    if digits == [] then v else Spelt(digits[1..], v * base + Worth(digits[0]), base)
  }

  lemma {:induction false} SpeltWraps(digits: seq<Byte>, v: int, w: int, base: Cell)
    requires v % DOUBLE == w % DOUBLE
    ensures Spelt(digits, v, base) % DOUBLE == Spelt(digits, w, base) % DOUBLE
    decreases |digits|
  {
    if digits != [] {
      StepWraps(v, w, base, Worth(digits[0]));
      SpeltWraps(digits[1..], v * base + Worth(digits[0]), w * base + Worth(digits[0]), base);
    }
  }

  lemma StepWraps(v: int, w: int, base: int, d: int)
    requires v % DOUBLE == w % DOUBLE
    ensures (v * base + d) % DOUBLE == (w * base + d) % DOUBLE
  {
    var k := v / DOUBLE - w / DOUBLE;
    assert v == w + k * DOUBLE;
    assert v * base + d == w * base + d + (k * base) * DOUBLE;
    Wraps(w * base + d, k * base);
  }

  lemma Wraps(x: int, k: int)
    ensures (x + k * DOUBLE) % DOUBLE == x % DOUBLE
  {
  }

  /**
   `>NUMBER` converts the digits that the text starts with and stops there, with the number that they spell,
   if and only if the first character that is no digit is not taken for one.
   */
  lemma {:induction false} StopsRight(text: seq<Byte>, n: nat, acc: Double, base: Cell)
    requires base <= MAX_BASE && n <= |text|
    ensures var k, r := LeadingDigits(text, n, base), ToNumber(text, n, acc, base);
            && (r.unconverted == n - k <==> k == n || !IsBracket(text[k], base))
            && (r.unconverted == n - k ==> r.value.Value() == Spelt(text[..k], acc.Value(), base) % DOUBLE)
            && r.unconverted <= n - k
    decreases n
  {
    hide IsDigitOf, IsBracket, DigitValue, Worth, Double.Value;
    if n > 0 {
      var c := text[0];
      TakenCharacters(c, base);
      if IsDigitOf(c, base) {
        var next := FromValue(acc.Value() * base + DigitValue(c));
        StopsRight(text[1..], n - 1, next, base);
        var k := LeadingDigits(text[1..], n - 1, base);
        assert text[..k + 1][1..] == text[1..][..k];
        SpeltWraps(text[1..][..k], next.Value(), acc.Value() * base + Worth(c), base);
      } else if IsBracket(c, base) {
        ToNumberShortens(text[1..], n - 1, FromValue(acc.Value() * base + DigitValue(c)), base);
      }
    }
    if LeadingDigits(text, n, base) == 0 { Unwrapped(acc); }
  }

  lemma Unwrapped(acc: Double)
    ensures acc.Value() % DOUBLE == acc.Value()
  {
  }

  lemma {:induction false} ToNumberShortens(text: seq<Byte>, n: nat, acc: Double, base: Cell)
    requires n <= |text|
    ensures ToNumber(text, n, acc, base).unconverted <= n
    decreases n
  {
    hide DigitValue, Double.Value, FromValue;
    if n > 0 && text[0] >= '0' as int && DigitValue(text[0]) < base {
      ToNumberShortens(text[1..], n - 1, FromValue(acc.Value() * base + DigitValue(text[0])), base);
    }
  }

  /** In base 8 an opening bracket is converted as 4. */
  lemma BracketIsFour()
    ensures ToNumber(['[' as int], 1, ZERO, 8) == Converted(Double(0, 4), 0)
    ensures LeadingDigits(['[' as int], 1, 8) == 0
  {
    TakenCharacters('[' as int, 8);
    assert ['[' as int][1..] == [];
    assert DigitValue('[' as int) == 4;
  }
}
