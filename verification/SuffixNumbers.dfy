/** How the number of a suffix is written, with divisors that are powers of ten in 32 bits. */
module SuffixNumbers {
  import opened Slices
  import opened Bits
  import opened Numerals

  const U32 := 0x1_0000_0000

  /** Ten to the power of 10, in 32 bits: from here on the divisor is not a power of ten any more. */
  const SUFFIX_LIMIT := 1_410_065_408

  /** The largest of all powers of ten in 32 bits: from here on the search for a divisor never ends. */
  const ENDLESS := 4_135_583_744

  function Pow10(n: nat): (p: nat)
    ensures p >= 1
  {
    if n == 0 then 1 else 10 * Pow10(n - 1)
  }

  /** The divisor after so many multiplications by ten. */
  function Divisor(k: nat): (p: nat)
    ensures p < U32
  {
    if k == 0 then 1 else Divisor(k - 1) * 10 % U32
  }

  lemma NextDivisor(k: nat)
    ensures Divisor(k + 1) == Divisor(k) * 10 % U32
  {
  }

  lemma Divisors()
    ensures Divisor(9) == Pow10(9) == 1_000_000_000 && Divisor(10) == SUFFIX_LIMIT && Divisor(11) == 1_215_752_192
    ensures Divisor(12) == 3_567_587_328 && Divisor(13) == 1_316_134_912 && Divisor(14) == 276_447_232
    ensures Divisor(15) == 2_764_472_320 && Divisor(16) == 1_874_919_424 && Divisor(17) == 1_569_325_056
    ensures Divisor(18) == 2_808_348_672 && Divisor(19) == 2_313_682_944 && Divisor(20) == 1_661_992_960
    ensures Divisor(21) == 3_735_027_712 && Divisor(22) == 2_990_538_752 && Divisor(23) == ENDLESS
  {
    Billion();
    hide Divisor;
    forall k | 9 <= k <= 22 ensures Divisor(k + 1) == Divisor(k) * 10 % U32 { NextDivisor(k); }
  }

  lemma Billion()
    ensures Divisor(9) == Pow10(9) == 1_000_000_000 && Pow10(10) == 10_000_000_000
  {
    assert Pow10(0) == 1;
    Thousand(0);
    Thousand(3);
    Thousand(6);
    EqualBelow(9);
  }

  lemma Thousand(k: nat)
    ensures Pow10(k + 3) == 1000 * Pow10(k) && Pow10(k + 4) == 10 * Pow10(k + 3)
  {
    assert Pow10(k + 2) == 10 * Pow10(k + 1);
  }

  lemma {:induction false} EqualBelow(k: nat)
    requires Pow10(k) < U32
    ensures Divisor(k) == Pow10(k)
  {
    if k > 0 { EqualBelow(k - 1); }
  }

  lemma MoreDivisors()
    ensures Divisor(24) == 2_701_131_776 && Divisor(25) == 1_241_513_984 && Divisor(26) == 3_825_205_248
    ensures Divisor(27) == 3_892_314_112 && Divisor(28) == 268_435_456 && Divisor(29) == 2_684_354_560
    ensures Divisor(30) == 1_073_741_824 && Divisor(31) == 2_147_483_648 && Divisor(32) == 0
  {
    Divisors();
    hide Divisor;
    forall k | 23 <= k <= 31 ensures Divisor(k + 1) == Divisor(k) * 10 % U32 { NextDivisor(k); }
  }

  lemma {:induction false} SmallDivisors(k: nat)
    requires k <= 9
    ensures Divisor(k) == Pow10(k) <= Pow10(9) == 1_000_000_000
    decreases 9 - k
  {
    Divisors();
    if k < 9 {
      SmallDivisors(k + 1);
      EqualBelow(k);
    }
  }

  lemma {:induction false} NoDivisor(k: nat)
    requires k >= 32
    ensures Divisor(k) == 0
    decreases k
  {
    if k == 32 { MoreDivisors(); } else { NoDivisor(k - 1); }
  }

  /** The loop that looks for the divisor never finds one, not even 0, if and only if the number is so large. */
  lemma NeverEnds(val: nat)
    ensures (forall k :: val >= Divisor(k)) <==> val >= ENDLESS
  {
    hide Divisor;
    Divisors();
    MoreDivisors();
    assert val >= Divisor(23) ==> val >= ENDLESS;
    forall k | val >= ENDLESS
      ensures val >= Divisor(k)
    {
      if k >= 32 { NoDivisor(k); } else if k <= 9 { SmallDivisors(k); }
    }
  }

  lemma LargestDivisor()
    ensures Divisor(23) == ENDLESS
  {
    hide Divisor;
    Divisors();
  }

  /** How many multiplications by ten it takes from the `k`-th on. */
  function Places(val: nat, k: nat): (n: nat)
    requires k <= 22 && val < ENDLESS
    ensures k <= n <= 22
    decreases 22 - k
  {
    if k == 22 || val < Divisor(k + 1) then k else Places(val, k + 1)
  }

  /** It is the first of the larger divisors that ends the search. */
  lemma {:induction false} PlacesBound(val: nat, k: nat)
    requires k <= 22 && val < ENDLESS
    ensures var n := Places(val, k); val < Divisor(n + 1) && forall i :: k < i <= n ==> val >= Divisor(i)
    decreases 22 - k
  {
    hide Divisor;
    LargestDivisor();
    if k < 22 && val >= Divisor(k + 1) { PlacesBound(val, k + 1); }
  }

  /** The bytes that the divisors put out. */
  function Written(val: nat, divisor: nat): (s: seq<Byte>) {
    if divisor == 0 then [] else [(48 + val / divisor) % 256] + Written(val % divisor, divisor / 10)
  }

  lemma WrittenStep(val: nat, divisor: nat)
    ensures divisor == 0 ==> Written(val, divisor) == []
    ensures divisor > 0 ==>
            && Written(val, divisor) == [(48 + val / divisor) % 256] + Written(val % divisor, divisor / 10)
            && 0 <= val % divisor && divisor / 10 < divisor
  {
  }

  lemma {:induction false} WrittenLength(val: nat, divisor: nat, n: nat)
    requires divisor < Pow10(n)
    ensures |Written(val, divisor)| <= n && (n >= 1 && divisor >= Pow10(n - 1) ==> |Written(val, divisor)| == n)
    decreases n
  {
    if divisor > 0 {
      if n >= 2 { assert Pow10(n - 1) == 10 * Pow10(n - 2); }
      WrittenLength(val % divisor, divisor / 10, n - 1);
    }
  }

  /** A divisor is no longer than the power of ten that it stands for. */
  lemma {:induction false} DivisorBelow(k: nat)
    ensures Divisor(k) <= Pow10(k) < Pow10(k + 1)
  {
    if k > 0 { DivisorBelow(k - 1); }
  }

  /** The number as it is put into a suffix. */
  function Digits(val: nat): (s: seq<Byte>)
    requires val < ENDLESS
    ensures |s| <= Places(val, 0) + 1
  {
    var n := Places(val, 0);
    DivisorBelow(n);
    WrittenLength(val, Divisor(n), n + 1);
    Written(val, Divisor(n))
  }

  lemma FirstDigit(v: nat, k: nat)
    requires k >= 1 && v < Pow10(k)
    ensures 0 <= v / Pow10(k - 1) < 10 && 0 <= v % Pow10(k - 1) < Pow10(k - 1)
    ensures v == Pow10(k - 1) * (v / Pow10(k - 1)) + v % Pow10(k - 1)
  {
    var p := Pow10(k - 1);
    var q := v / p;
    assert v == p * q + v % p;
    if q >= 10 { AtLeast(p, q - 9); Distribute(p, q, 9); }
    if q < 0 { AtMostZero(p, q); }
  }

  lemma AtMostZero(p: int, q: int)
    requires p >= 1 && q < 0
    ensures p * q <= -p
  {
  }

  /** With a true power of ten these are the digits of the number, with zeros in front. */
  function Fixed(v: nat, k: nat): (s: seq<Byte>)
    requires v < Pow10(k)
    ensures |s| == k
  {
    if k == 0 then [] else
    FirstDigit(v, k);
    [DigitChar(v / Pow10(k - 1))] + Fixed(v % Pow10(k - 1), k - 1)
  }

  lemma TenTimes(n: nat)
    requires n >= 1
    ensures Pow10(n) == 10 * Pow10(n - 1) && Pow10(n) / 10 == Pow10(n - 1)
  {
  }

  lemma FixedFront(v: nat, k: nat)
    requires k >= 1 && v < Pow10(k)
    ensures 0 <= v / Pow10(k - 1) < 10 && v % Pow10(k - 1) < Pow10(k - 1)
    ensures Fixed(v, k) == [DigitChar(v / Pow10(k - 1))] + Fixed(v % Pow10(k - 1), k - 1)
  {
    FirstDigit(v, k);
  }

  /** The character of a digit, and the digit of a character. */
  lemma DigitByte(q: nat)
    ensures q < 10 ==> (48 + q) % 256 == DigitChar(q)
    ensures q < 20 ==> (48 + q) % 256 == 48 + q
  {
  }

  lemma NoDigits(v: nat)
    ensures Pow10(0) == 1 && Written(v, 0) == [] && Fixed(0, 0) == []
  {
  }

  lemma {:induction false} WrittenFixed(v: nat, k: nat)
    requires k >= 1 && v < Pow10(k)
    ensures Written(v, Pow10(k - 1)) == Fixed(v, k)
    decreases k
  {
    hide Pow10, DigitChar, Written, Fixed;
    FixedFront(v, k);
    WrittenStep(v, Pow10(k - 1));
    DigitByte(v / Pow10(k - 1));
    if k == 1 {
      NoDigits(v % Pow10(0));
    } else {
      TenTimes(k - 1);
      WrittenFixed(v % Pow10(k - 1), k - 1);
    }
  }

  /** Both ways to split a number into digits. */
  lemma TenFold(r: int, q: int, m: int, v: int)
    requires r >= 1 && v == 10 * r * q + m && 0 <= m < 10 * r && q >= 0
    ensures v / 10 == r * q + m / 10 && v % 10 == m % 10
    ensures v / 10 / r == q && v / 10 % r == m / 10 && 0 <= m / 10 < r
  {
    assert 10 * r * q == 10 * (r * q);
    QuotientUnique(v / 10, r, q, m / 10);
  }

  lemma UpTo(r: int, q: int, n: int)
    requires r >= 1 && 0 <= q <= 9 && 0 <= n < r
    ensures 0 <= r * q + n < 10 * r
  {
    AtLeast(r, 10 - q);
    Distribute(r, 10, q);
  }

  /** The first digit is the first of all but the last, and the last is the last of all but the first. */
  lemma SplitBoth(v: nat, k: nat)
    requires k >= 2 && v < Pow10(k)
    ensures var p, r := Pow10(k - 1), Pow10(k - 2); var m := v % p;
            && 0 <= m < p && 0 <= v / p < 10 && v / 10 < p && v % 10 == m % 10
            && v / 10 / r == v / p && v / 10 % r == m / 10 && 0 <= m / 10 < r
  {
    hide Pow10;
    FirstDigit(v, k);
    TenTimes(k - 1);
    var r := Pow10(k - 2);
    SplitNumber(v, r, v / (10 * r), v % (10 * r));
  }

  lemma SplitNumber(v: nat, r: nat, q: nat, m: nat)
    requires r >= 1 && v == 10 * r * q + m && m < 10 * r && q < 10
    ensures v / 10 < 10 * r && v % 10 == m % 10 && v / 10 / r == q && v / 10 % r == m / 10 && 0 <= m / 10 < r
  {
    TenFold(r, q, m, v);
    UpTo(r, q, m / 10);
  }

  /** The last digit of a number with zeros in front. */
  lemma {:induction false} FixedBack(v: nat, k: nat)
    requires k >= 1 && v < Pow10(k)
    ensures v / 10 < Pow10(k - 1) && Fixed(v, k) == Fixed(v / 10, k - 1) + [DigitChar(v % 10)]
  {
    hide Fixed, Pow10, DigitChar;
    if k == 1 {
      OneDigit(v);
    } else {
      FixedFront(v, k);
      SplitBoth(v, k);
      var p, r := Pow10(k - 1), Pow10(k - 2);
      var q, m := v / p, v % p;
      FixedBack(m, k - 1);
      FixedFront(v / 10, k - 1);
      Associate([DigitChar(q)], Fixed(m / 10, k - 2), [DigitChar(m % 10)]);
    }
  }

  lemma OneDigit(v: nat)
    requires v < Pow10(1)
    ensures Pow10(0) == 1 && v < 10 && v / 10 == 0 && v % 10 == v
    ensures Fixed(v, 1) == Fixed(0, 0) + [DigitChar(v)] && v / 1 == v && v % 1 == 0
  {
    assert Fixed(v % Pow10(0), 0) == [];
  }

  /** Without zeros in front it is the plain number. */
  lemma {:induction false} FixedNumeral(v: nat, k: nat)
    requires k >= 1 && v < Pow10(k) && (k == 1 || v >= Pow10(k - 1))
    ensures Fixed(v, k) == Numeral(v, 10)
  {
    hide Fixed, Pow10, DigitChar;
    FixedBack(v, k);
    if k == 1 {
      OneDigit(v);
      assert Fixed(0, 0) == [];
    } else {
      TenTimes(k - 1);
      if k == 2 { assert Pow10(0) == 1 by { OneDigit(0); } }
      FixedNumeral(v / 10, k - 1);
    }
  }

  /** Divisors that are too large make too small a number out of the digits. */
  lemma {:induction false} TooSmall(v: nat, divisor: nat, w: nat, k: nat)
    requires k >= 1 && Pow10(k - 1) <= divisor < Pow10(k) && v < 20 * divisor && w < Pow10(k)
    requires Written(v, divisor) == Fixed(w, k)
    ensures w <= v && (v >= divisor > Pow10(k - 1) ==> w < v)
    decreases k
  {
    hide Pow10, Written, Fixed;
    DivideBoth(v, divisor, w, k);
    if k >= 2 {
      TenTimes(k - 1);
      TenTimes(k);
      Tenth(divisor, v % divisor, Pow10(k - 2));
      TooSmall(v % divisor, divisor / 10, w % Pow10(k - 1), k - 1);
    }
    Compare(divisor, Pow10(k - 1), v / divisor, v % divisor, w % Pow10(k - 1));
  }

  lemma Tenth(d: nat, v: nat, r: nat)
    requires r >= 1 && 10 * r <= d < 100 * r && v < d
    ensures r <= d / 10 < 10 * r && v < 20 * (d / 10)
  {
  }

  lemma Compare(d: nat, p: nat, q: nat, v: nat, w: nat)
    requires d >= p && w <= v
    ensures p * q + w <= d * q + v && (d > p && q >= 1 ==> p * q + w < d * q + v)
  {
    More(d, p, q);
  }

  lemma DivideBoth(v: nat, divisor: nat, w: nat, k: nat)
    requires k >= 1 && Pow10(k - 1) <= divisor && v < 20 * divisor && w < Pow10(k)
    requires Written(v, divisor) == Fixed(w, k)
    ensures var p, q := Pow10(k - 1), v / divisor;
            && v == divisor * q + v % divisor && w == p * q + w % p && 0 <= w % p < p && 0 <= v % divisor < divisor
            && (v >= divisor ==> q >= 1) && q >= 0 && (k == 1 ==> w % p == 0)
            && Written(v % divisor, divisor / 10) == Fixed(w % p, k - 1)
  {
    hide Written, Fixed, Pow10;
    FirstDigit(w, k);
    FixedFront(w, k);
    WrittenStep(v, divisor);
    Quotient(v, divisor);
    DigitByte(v / divisor);
    HeadAndTail((48 + v / divisor) % 256, Written(v % divisor, divisor / 10),
                DigitChar(w / Pow10(k - 1)), Fixed(w % Pow10(k - 1), k - 1));
    SameDigits(v / divisor, w / Pow10(k - 1));
    if k == 1 { NoDigits(0); }
  }

  lemma HeadAndTail(a: Byte, s: seq<Byte>, b: Byte, t: seq<Byte>)
    requires [a] + s == [b] + t
    ensures a == b && s == t
  {
    assert ([a] + s)[0] == a && ([b] + t)[0] == b && ([a] + s)[1..] == s && ([b] + t)[1..] == t;
  }

  lemma SameDigits(q: nat, d: nat)
    requires q < 20 && d < 10 && (48 + q) % 256 == DigitChar(d)
    ensures q == d
  {
  }

  lemma Quotient(v: nat, d: nat)
    requires 0 < d && v < 20 * d
    ensures v == d * (v / d) + v % d && 0 <= v % d < d && 0 <= v / d < 20 && (v >= d ==> v / d >= 1)
  {
    var q := v / d;
    assert v == d * q + v % d && 0 <= v % d < d;
    if q >= 20 { AtLeast(d, q - 19); Distribute(d, q, 19); }
    if q < 0 { AtMostZero(d, q); }
  }

  lemma More(d: nat, p: nat, q: nat)
    requires d >= p
    ensures d * q >= p * q && (d > p && q >= 1 ==> d * q > p * q)
  {
    assert d * q == p * q + (d - p) * q;
  }

  /** The number is written right if and only if it is below ten to the power of 10 in 32 bits. */
  lemma WrittenRight(val: nat)
    requires val < ENDLESS
    ensures Digits(val) == Numeral(val, 10) <==> val < SUFFIX_LIMIT
    ensures val < SUFFIX_LIMIT ==> |Digits(val)| == Places(val, 0) + 1
  {
    hide Numeral, Fixed, Written, Pow10, Divisor, Places;
    var n := Places(val, 0);
    if val < SUFFIX_LIMIT {
      PlacesPower(val);
      WrittenFixed(val, n + 1);
      FixedNumeral(val, n + 1);
    } else {
      TopPlaces(val);
      var d := Divisor(n);
      Billion();
      WrittenLength(val, d, 10);
      FixedNumeral(val, 10);
      if Digits(val) == Numeral(val, 10) {
        TooSmall(val, d, val, 10);
      }
    }
  }

  lemma PlacesPower(val: nat)
    requires val < SUFFIX_LIMIT
    ensures var n := Places(val, 0); n <= 9 && Divisor(n) == Pow10(n) && val < Pow10(n + 1) && (n == 0 || val >= Pow10(n))
  {
    hide Divisor, Pow10;
    var n := Places(val, 0);
    PlacesBound(val, 0);
    Divisors();
    Billion();
    SmallDivisors(if n <= 9 then n else 0);
    if n < 9 { SmallDivisors(n + 1); }
  }

  /** The divisor is a power of ten with something cut off, as soon as it is not a power of ten. */
  lemma TopPlaces(val: nat)
    requires SUFFIX_LIMIT <= val < ENDLESS
    ensures var d := Divisor(Places(val, 0)); 1_000_000_000 < d <= val < 10_000_000_000
  {
    hide Divisor, Places;
    var n := Places(val, 0);
    PlacesBound(val, 0);
    Divisors();
    AtLeastTen(val);
  }

  lemma AtLeastTen(val: nat)
    requires SUFFIX_LIMIT <= val < ENDLESS
    ensures Places(val, 0) >= 10
  {
    hide Divisor;
    Divisors();
    var n := Places(val, 0);
    PlacesBound(val, 0);
    if n < 9 { SmallDivisors(n + 1); }
  }
}
