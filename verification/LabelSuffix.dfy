/** The numbers that are put after a label whose name is taken: "name-2" for a host, "name (2)" for a service. */
module LabelSuffix {
  import opened Bits
  import opened Characters
  import opened Numerals
  import opened SuffixNumbers

  const MAX_LABEL := 63

  /** What `mDNSRandom(99)` can return. */
  type Random = r: int | 0 <= r <= 99

  function Last(d: seq<Byte>): Byte
    requires d != []
  {
    d[|d| - 1]
  }

  function Front(d: seq<Byte>): (f: seq<Byte>)
    requires d != []
    ensures |f| == |d| - 1 && d == f + [Last(d)]
  {
    d[..|d| - 1]
  }

  /** Without the digits at the end, but with the first `floor` bytes. */
  function Strip(d: seq<Byte>, floor: nat): (r: seq<Byte>)
    ensures |r| <= |d| && d[..|r|] == r && (|r| == |d| || |r| >= floor)
  {
    if |d| > floor && IsDigit(Last(d)) then Strip(Front(d), floor) else d
  }

  /** The number that the digits at the end spell. */
  function TailNumber(d: seq<Byte>): nat {
    if d != [] && IsDigit(Last(d)) then 10 * TailNumber(Front(d)) + (Last(d) - 48) else 0
  }

  /** `LabelContainsSuffix` */
  predicate Contains(d: seq<Byte>, rich: bool) {
    if rich then
      |d| >= 4 && Last(d) == ')' as int && IsDigit(Last(Front(d))) &&
      var f := Strip(Front(Front(d)), 2);
      Last(f) == '(' as int && Last(Front(f)) == ' ' as int
    else
      |d| >= 2 && IsDigit(Last(d)) && Last(Strip(Front(d), 2)) == '-' as int
  }

  function WithoutParenthesis(d: seq<Byte>, rich: bool): seq<Byte> {
    if rich && d != [] && Last(d) == ')' as int then Front(d) else d
  }

  /** `RemoveLabelSuffix`: what is left of the label. */
  function Base(d: seq<Byte>, rich: bool): (b: seq<Byte>)
    ensures |b| <= |d| && d[..|b|] == b
  {
    var e := WithoutParenthesis(d, rich);
    var f := Strip(e, 0);
    assert e[..|f|] == f && d[..|e|][..|f|] == d[..|f|];
    if rich then if |f| >= 2 && Last(f) == '(' as int && Last(Front(f)) == ' ' as int then f[..|f| - 2] else f
    else if f != [] && Last(f) == '-' as int then Front(f) else f
  }

  /** `RemoveLabelSuffix`: the number removed, counted in 32 bits. */
  function Removed(d: seq<Byte>, rich: bool): (v: nat)
    ensures v < U32
  {
    TailNumber(WithoutParenthesis(d, rich)) % U32
  }

  function WithoutSpaces(d: seq<Byte>): (r: seq<Byte>)
    ensures |r| <= |d| && d[..|r|] == r
    ensures r == [] || Last(r) != ' ' as int
    ensures forall k :: |r| <= k < |d| ==> d[k] == ' ' as int
  {
    if d != [] && Last(d) == ' ' as int then WithoutSpaces(Front(d)) else d
  }

  /** A byte inside a multi-byte UTF-8 character. */
  predicate Continuation(c: Byte) {
    0x80 <= c < 0xC0
  }

  /** The first `n` bytes or less, so that no character is cut. */
  function CutAt(d: seq<Byte>, n: nat): (r: seq<Byte>)
    requires n < |d|
    ensures |r| <= n && d[..|r|] == r
    ensures |r| == 0 || !Continuation(d[|r|])
    ensures forall k :: |r| < k <= n ==> Continuation(d[k])
    decreases n
  {
    if n > 0 && Continuation(d[n]) then CutAt(d, n - 1) else d[..n]
  }

  function Opening(rich: bool): seq<Byte> {
    if rich then [' ' as int, '(' as int] else ['-' as int]
  }

  function Closing(rich: bool): seq<Byte> {
    if rich then [')' as int] else []
  }

  /** How many bytes are counted for a suffix. */
  function Room(val: nat, rich: bool): (n: nat)
    requires val < ENDLESS
    ensures n <= 26
  {
    Places(val, 0) + if rich then 4 else 2
  }

  /** The bytes of a suffix: no more than are counted for it, and just as many if the number is written right. */
  function Suffix(val: nat, rich: bool): (s: seq<Byte>)
    requires val < ENDLESS
    ensures |s| <= Room(val, rich)
  {
    Opening(rich) + Digits(val) + Closing(rich)
  }

  lemma GoodSuffix(val: nat, rich: bool)
    requires val < SUFFIX_LIMIT
    ensures Suffix(val, rich) == Opening(rich) + Numeral(val, 10) + Closing(rich)
    ensures |Suffix(val, rich)| == Room(val, rich) <= 13
  {
    WrittenRight(val);
    AtMostTen(val);
  }

  lemma AtMostTen(val: nat)
    requires val < SUFFIX_LIMIT
    ensures Places(val, 0) <= 9
  {
    PlacesPower(val);
  }

  /** What the suffix is put after: the label, cut short if there is not enough room. */
  function Shortened(d: seq<Byte>, room: nat, rich: bool): (r: seq<Byte>)
    ensures |r| <= |d| && d[..|r|] == r && |r| <= room
  {
    var e := if rich then WithoutSpaces(d) else d;
    if |e| > room then
      var r := CutAt(e, room);
      assert d[..|e|][..|r|] == d[..|r|];
      r
    else e
  }

  /** `AppendLabelSuffix` */
  function Append(d: seq<Byte>, val: nat, rich: bool): (r: seq<Byte>)
    requires val < ENDLESS
    ensures |r| <= MAX_LABEL
  {
    Shortened(d, MAX_LABEL - Room(val, rich), rich) + Suffix(val, rich)
  }

  /** The number in the suffix of a label; 0 if there is none. */
  function Number(d: seq<Byte>, rich: bool): (v: nat)
    ensures v < U32
  {
    if Contains(d, rich) then Removed(d, rich) else 0
  }

  function Stem(d: seq<Byte>, rich: bool): seq<Byte> {
    if Contains(d, rich) then Base(d, rich) else d
  }

  /** The next number, not yet cut to 32 bits; above ten the steps are random. */
  function NextNumber(val: nat, random: Random): (v: nat)
    ensures val < v && 2 <= v <= val + 100
  {
    if val == 0 then 2 else if val < 10 then val + 1 else val + 1 + random
  }

  /** `IncrementLabelSuffix` */
  function Increment(d: seq<Byte>, rich: bool, random: Random): (r: seq<Byte>)
    requires NextNumber(Number(d, rich), random) % U32 < ENDLESS
    ensures |r| <= MAX_LABEL
  {
    Append(Stem(d, rich), NextNumber(Number(d, rich), random) % U32, rich)
  }

  /** The last digit of a number after some text. */
  lemma LastDigit(s: seq<Byte>, v: nat)
    ensures var d := s + Numeral(v, 10);
            && Front(d) == (if v < 10 then s else s + Numeral(v / 10, 10))
            && IsDigit(Last(d)) && Last(d) - 48 == v % 10
  {
    DigitRoundTrip(v % 10);
    var d := s + Numeral(v, 10);
    var more := if v < 10 then s else s + Numeral(v / 10, 10);
    assert d == more + [DigitChar(v % 10)];
  }

  /** The digits of a number at the end of some text are stripped, and spell the number. */
  lemma {:induction false} TailOfNumeral(s: seq<Byte>, v: nat)
    requires s == [] || !IsDigit(Last(s))
    ensures var d := s + Numeral(v, 10);
            Strip(d, 0) == s && TailNumber(d) == v
    decreases v
  {
    hide Numeral, Front, Last, IsDigit;
    LastDigit(s, v);
    if v < 10 {
      StripStops(s);
    } else {
      TailOfNumeral(s, v / 10);
    }
  }

  /** Stripping with a floor stops no later, if there is something else before the digits at or above the floor. */
  lemma {:induction false} StripWithFloor(s: seq<Byte>, v: nat, floor: nat)
    requires s != [] && !IsDigit(Last(s)) && (|s| >= floor || v < 10)
    ensures Strip(Front(s + Numeral(v, 10)), floor) == s
    decreases v
  {
    hide Numeral, Front, Last, IsDigit;
    LastDigit(s, v);
    if v >= 10 {
      LastDigit(s, v / 10);
      StripWithFloor(s, v / 10, floor);
    }
  }

  /** A host label that is nothing but a suffix of two digits or more is not recognised again. */
  lemma {:induction false} BareSuffix(v: nat)
    requires v >= 10
    ensures IsDigit(Last(Strip(Front(['-' as int] + Numeral(v, 10)), 2)))
    decreases v
  {
    hide Numeral, Front, Last, IsDigit;
    var dash: seq<Byte> := ['-' as int];
    LastDigit(dash, v);
    LastDigit(dash, v / 10);
    if v >= 100 {
      BareSuffix(v / 10);
    }
  }

  /** What was appended to a service label is found again, with its number. */
  lemma AppendedRich(stem: seq<Byte>, val: nat)
    ensures var r := stem + (Opening(true) + Numeral(val, 10) + Closing(true));
            Contains(r, true) && Removed(r, true) == val % U32 && Base(r, true) == stem
  {
    hide Numeral, Strip, TailNumber, IsDigit;
    var s := stem + Opening(true);
    var e := s + Numeral(val, 10);
    var r := stem + (Opening(true) + Numeral(val, 10) + Closing(true));
    assert r == e + [')' as int];
    assert Front(r) == e;
    assert Front(s) == stem + [' ' as int] && s[..|s| - 2] == stem;
    NotDigits(s);
    TailOfNumeral(s, val);
    LastDigit(s, val);
    StripWithFloor(s, val, 2);
  }

  lemma NotDigits(s: seq<Byte>)
    ensures s != [] && (Last(s) == '(' as int || Last(s) == '-' as int) ==> !IsDigit(Last(s))
  {
  }

  /** What was appended to a host label is found again, unless it has two digits or more and nothing before it. */
  lemma AppendedHost(stem: seq<Byte>, val: nat)
    ensures var r := stem + (Opening(false) + Numeral(val, 10) + Closing(false));
            (Contains(r, false) <==> stem != [] || val < 10) && Removed(r, false) == val % U32 && Base(r, false) == stem
  {
    hide Numeral, Strip, TailNumber, IsDigit;
    var s := stem + Opening(false);
    var e := s + Numeral(val, 10);
    var r := stem + (Opening(false) + Numeral(val, 10) + Closing(false));
    assert r == e;
    assert Front(s) == stem && Last(s) == '-' as int;
    NotDigits(s);
    TailOfNumeral(s, val);
    LastDigit(s, val);
    if stem != [] || val < 10 {
      StripWithFloor(s, val, 2);
    } else {
      assert s == ['-' as int];
      BareSuffix(val);
      DashIsNoDigit();
    }
  }

  lemma DashIsNoDigit()
    ensures !IsDigit('-' as int)
  {
  }

  /** What was appended is found again, with its number, but for a bare suffix on a host. */
  lemma Appended(d: seq<Byte>, val: nat, rich: bool)
    requires val < SUFFIX_LIMIT
    ensures var r := Append(d, val, rich);
            var stem := Shortened(d, MAX_LABEL - Room(val, rich), rich);
            && (Contains(r, rich) <==> rich || stem != [] || val < 10)
            && Removed(r, rich) == val && Base(r, rich) == stem
  {
    hide Contains, Removed, Base, Shortened, Numeral, Suffix, Room;
    GoodSuffix(val, rich);
    var stem := Shortened(d, MAX_LABEL - Room(val, rich), rich);
    if rich { AppendedRich(stem, val); } else { AppendedHost(stem, val); }
  }

  lemma DigitAtEnd(t: nat, c: Byte, n: nat)
    requires n >= 1 && t < Pow10(n - 1) && IsDigit(c)
    ensures var v := 10 * t + (c - 48); 0 <= v < Pow10(n) && v / 10 == t && DigitChar(v % 10) == c
  {
    hide Pow10;
    TenTimes(n);
  }

  /** Digits to the end of the text are the digits of the number that they spell. */
  lemma {:induction false} AllDigits(s: seq<Byte>)
    requires forall i :: 0 <= i < |s| ==> IsDigit(s[i])
    ensures TailNumber(s) < Pow10(|s|) && Fixed(TailNumber(s), |s|) == s
  {
    hide Fixed, Pow10, IsDigit, DigitChar, TailNumber;
    if s == [] {
      NothingFixed();
    } else {
      var f := Front(s);
      AllDigits(f);
      DigitAtEnd(TailNumber(f), Last(s), |s|);
      TailStep(s);
      FixedBack(TailNumber(s), |s|);
    }
  }

  lemma TailStep(s: seq<Byte>)
    requires s != [] && IsDigit(Last(s))
    ensures TailNumber(s) == 10 * TailNumber(Front(s)) + (Last(s) - 48)
  {
  }

  lemma NothingFixed()
    ensures Pow10(0) == 1 && Fixed(0, 0) == [] && TailNumber([]) == 0
  {
  }

  /** The number is spelt by the last `|s|` bytes alone if they are not all digits, or if no digit comes before them. */
  lemma {:induction false} TailWithin(x: seq<Byte>, s: seq<Byte>)
    requires x != [] && !IsDigit(Last(x))
    ensures TailNumber(x + s) == TailNumber(s)
  {
    if s == [] {
      assert x + s == x;
    } else {
      assert Front(x + s) == x + Front(s);
      TailWithin(x, Front(s));
    }
  }

  lemma {:induction false} TailBelow(s: seq<Byte>, k: nat)
    requires k < |s| && !IsDigit(s[k])
    ensures TailNumber(s) < Pow10(|s| - 1 - k)
  {
    if k < |s| - 1 {
      TailBelow(Front(s), k);
    }
  }

  lemma {:induction false} MorePowers(m: nat, n: nat)
    requires m <= n
    ensures Pow10(m) <= Pow10(n)
  {
    if m < n { MorePowers(m, n - 1); }
  }

  lemma ShortTail(s: seq<Byte>, k: nat)
    requires k < |s| == 10 && !IsDigit(s[k])
    ensures TailNumber(s) < 1_000_000_000
  {
    hide Pow10, TailNumber, IsDigit;
    TailBelow(s, k);
    MorePowers(|s| - 1 - k, 9);
    Billion();
  }

  lemma TopDigits(val: nat)
    requires SUFFIX_LIMIT <= val < ENDLESS
    ensures var s, d := Digits(val), Divisor(Places(val, 0));
            |s| == 10 && s == Written(val, d) && Pow10(9) < d <= val < Pow10(10) && d < U32
  {
    hide Written, Pow10, Divisor, Places;
    TopPlaces(val);
    Billion();
    WrittenLength(val, Divisor(Places(val, 0)), 10);
  }

  /** Too large a number is read back as a smaller one. */
  lemma Misread(val: nat)
    requires SUFFIX_LIMIT <= val < ENDLESS
    ensures TailNumber(Digits(val)) < val
  {
    hide Digits, Written, Fixed, Pow10, Divisor, Places, TailNumber, IsDigit;
    var s := Digits(val);
    TopDigits(val);
    if k :| 0 <= k < |s| && !IsDigit(s[k]) {
      ShortTail(s, k);
    } else {
      AllDigits(s);
      Billion();
      TooSmall(val, Divisor(Places(val, 0)), TailNumber(s), 10);
    }
  }

  /** A renamed label carries its number if and only if the number is written right. */
  lemma NumberKept(d: seq<Byte>, val: nat, rich: bool)
    requires val < ENDLESS
    ensures Removed(Append(d, val, rich), rich) == val <==> val < SUFFIX_LIMIT
  {
    hide Removed, Append, Digits, TailNumber, Contains, Base, Shortened;
    if val < SUFFIX_LIMIT {
      Appended(d, val, rich);
    } else {
      Misread(val);
      RemovedDigits(d, val, rich);
    }
  }

  lemma RemovedDigits(d: seq<Byte>, val: nat, rich: bool)
    requires val < ENDLESS
    ensures Removed(Append(d, val, rich), rich) == TailNumber(Digits(val)) % U32
  {
    hide Digits, TailNumber, Shortened, IsDigit, Removed, Room;
    var stem := Shortened(d, MAX_LABEL - Room(val, rich), rich);
    var x := stem + Opening(rich);
    assert Last(x) == Last(Opening(rich));
    NotDigits(x);
    TailWithin(x, Digits(val));
    RemovedEnd(x + Digits(val), rich);
    assert stem + (Opening(rich) + Digits(val) + Closing(rich)) == x + Digits(val) + Closing(rich);
  }

  lemma RemovedEnd(e: seq<Byte>, rich: bool)
    ensures Removed(e + Closing(rich), rich) == TailNumber(e) % U32
  {
    hide TailNumber;
    if rich { assert Front(e + Closing(rich)) == e; } else { assert e + Closing(rich) == e; }
  }

  /** One renaming: the new label has the next number, which is larger, unless the label is a bare host suffix. */
  lemma Incremented(d: seq<Byte>, rich: bool, random: Random)
    requires NextNumber(Number(d, rich), random) < SUFFIX_LIMIT
    ensures var v := NextNumber(Number(d, rich), random);
            var stem := Shortened(Stem(d, rich), MAX_LABEL - Room(v, rich), rich);
            Number(Increment(d, rich, random), rich) == (if rich || stem != [] || v < 10 then v else 0)
  {
    hide Contains, Removed, Base, Shortened, Append, Room;
    Appended(Stem(d, rich), NextNumber(Number(d, rich), random), rich);
  }

  lemma StripStops(d: seq<Byte>)
    requires d == [] || !IsDigit(Last(d))
    ensures Strip(d, 0) == d && TailNumber(d) == 0
  {
  }
}
