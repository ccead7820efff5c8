/** Numbers as text in a base from 2 to 36. */
module Numerals {
  import opened Bits
  import opened Characters
  import opened Doubles

  const MAX_BASE := 36

  /** `ficlDigitToCharacter`: 0 to 9, then A to Z. */
  function DigitChar(d: int): (c: Byte)
    requires 0 <= d < MAX_BASE
  {
    if d < 10 then '0' as int + d else 'A' as int + (d - 10)
  }

  /** The unsigned value that the C code computes for a character: negative values have become very large. */
  function DigitValue(c: Byte): (d: Cell) {
    if 0 <= c - 48 <= 9 then c - 48 else Low(ToLower(c) - 'a' as int + 10)
  }

  lemma DigitRoundTrip(d: int)
    requires 0 <= d < MAX_BASE
    ensures DigitValue(DigitChar(d)) == d && DigitChar(d) >= '0' as int
    ensures IsDigit(DigitChar(d)) || IsUpper(DigitChar(d))
  {
  }

  /** The digits of a number, the most significant first. */
  function Numeral(v: nat, base: int): (s: seq<Byte>)
    requires 2 <= base <= MAX_BASE
    ensures s != []
    decreases v
  {
    if v < base then [DigitChar(v)] else
    Smaller(v, base);
    Numeral(v / base, base) + [DigitChar(v % base)]
  }

  lemma Smaller(v: nat, base: int)
    requires 2 <= base && v >= base
    ensures 1 <= v / base < v && v == v / base * base + v % base
  {
    var q := v / base;
    assert v == base * q + v % base;
    if q <= 0 { NonPositive(base, q); }
    if q >= v { Positive(base - 2, q); }
  }

  lemma NonPositive(a: int, b: int)
    requires a >= 0 && b <= 0
    ensures a * b <= 0
  {
  }

  lemma Positive(a: nat, b: nat)
    ensures a * b >= 0 && (a + 2) * b == a * b + 2 * b
  {
  }

  /** The digits as they are computed: the least significant first. */
  function Backward(v: nat, base: int): (s: seq<Byte>)
    requires 2 <= base <= MAX_BASE
    ensures s != []
    decreases v
  {
    if v < base then [DigitChar(v)] else
    Smaller(v, base);
    [DigitChar(v % base)] + Backward(v / base, base)
  }

  /** One digit of a number. */
  lemma BackwardDigit(v: nat, base: int)
    requires 2 <= base <= MAX_BASE
    ensures 0 <= v % base < base && 0 <= v / base <= v && (v > 0 ==> v / base < v)
    ensures v / base == 0 ==> Backward(v, base) == [DigitChar(v % base)]
    ensures v / base != 0 ==> Backward(v, base) == [DigitChar(v % base)] + Backward(v / base, base)
  {
    if v >= base {
      Smaller(v, base);
    } else {
      QuotientUnique(v, base, 0, v);
    }
  }

  function Reverse<T>(s: seq<T>): (r: seq<T>)
    ensures |r| == |s| && forall i :: 0 <= i < |s| ==> r[i] == s[|s| - 1 - i]
  {
    if s == [] then [] else Reverse(s[1..]) + [s[0]]
  }

  lemma {:induction false} ReverseBackward(v: nat, base: int)
    requires 2 <= base <= MAX_BASE
    ensures Reverse(Backward(v, base)) == Numeral(v, base)
    decreases v
  {
    if v >= base {
      Smaller(v, base);
      ReverseBackward(v / base, base);
      var s := Backward(v, base);
      assert s[1..] == Backward(v / base, base);
    }
  }

  /** Characters that are neither NUL, nor a point or sign, nor refused as digits of the base. */
  predicate DigitsOf(s: seq<Byte>, base: int) {
    forall c :: c in s ==> (IsDigit(c) || IsUpper(c)) && DigitValue(c) < base
  }

  lemma {:induction false} NumeralDigits(v: nat, base: int)
    requires 2 <= base <= MAX_BASE
    ensures DigitsOf(Numeral(v, base), base)
    decreases v
  {
    if v < base {
      DigitRoundTrip(v);
    } else {
      Smaller(v, base);
      NumeralDigits(v / base, base);
      DigitRoundTrip(v % base);
    }
  }

  /** A numeral of a number below `base` to the power of `n` has at most `n` digits; two to the power will do. */
  lemma {:induction false} NumeralLength(v: nat, base: int, n: nat)
    requires 2 <= base <= MAX_BASE && v < Pow2(n) && n >= 1
    ensures |Numeral(v, base)| <= n && |Backward(v, base)| <= n
    decreases n
  {
    if v >= base {
      Smaller(v, base);
      assert 2 * (v / base) <= v by { Positive(base - 2, v / base); }
      assert Pow2(1) == 2;
      NumeralLength(v / base, base, n - 1);
    }
  }

  /** `strlen`. */
  function StringLength(s: seq<Byte>): (n: nat)
    requires 0 in s
    ensures n < |s| && s[n] == 0 && forall i :: 0 <= i < n ==> s[i] != 0
  {
    if s[0] == 0 then 0 else 1 + StringLength(s[1..])
  }

  /** `ficlStringReverse`: up to the NUL character. */
  method StringReverse(text: array<Byte>)
    requires 0 in text[..]
    modifies text
    ensures var i := StringLength(old(text[..]));
            && text[..i] == Reverse(old(text[..i])) && text[i..] == old(text[i..])
  {
    ghost var n := StringLength(text[..]);
    var i := 0;
    while text[i] != 0
      invariant 0 <= i <= n
      decreases n - i
    {
      i := i + 1;
    }
    if i > 1 {
      SwapEnds(text, i);
    }
  }

  /** The loop of `ficlStringReverse`. */
  method SwapEnds(text: array<Byte>, n: nat)
    requires n <= text.Length
    modifies text
    ensures text[..n] == Reverse(old(text[..n])) && text[n..] == old(text[n..])
  {
    ghost var before := text[..];
    var p1, p2 := 0, n - 1;
    while p1 < p2
      invariant 0 <= p1 <= p2 + 1 && p1 + p2 == n - 1
      invariant forall k :: 0 <= k < p1 ==> text[k] == before[n - 1 - k]
      invariant forall k :: p2 < k < n ==> text[k] == before[n - 1 - k]
      invariant forall k :: p1 <= k <= p2 || n <= k < text.Length ==> text[k] == before[k]
    {
      var c := text[p2];
      text[p2] := text[p1];
      text[p1] := c;
      p1, p2 := p1 + 1, p2 - 1;
    }
    assert old(text[..n]) == before[..n];
  }

  /** No zero stands in front of other digits. */
  lemma {:induction false} NoLeadingZero(v: nat, base: int)
    requires 2 <= base <= MAX_BASE
    ensures Numeral(v, base)[0] == 48 <==> v == 0
    ensures v < base ==> |Numeral(v, base)| == 1
    decreases v
  {
    if v >= base {
      Smaller(v, base);
      NoLeadingZero(v / base, base);
    }
  }
}
