/** The suffix functions, on a label in its buffer: a length byte and up to 63 bytes. */
module LabelSuffixCodec {
  import opened Slices
  import opened Bits
  import opened Characters
  import opened SuffixNumbers
  import opened LabelSuffix

  predicate IsLabel(c: seq<Byte>) {
    |c| == MAX_LABEL + 1 && c[0] <= MAX_LABEL
  }

  /** The bytes of a label. */
  function Data(c: seq<Byte>): (d: seq<Byte>)
    requires IsLabel(c)
    ensures |d| == c[0]
  {
    c[1..c[0] + 1]
  }

  lemma DataAt(c: seq<Byte>, l: nat)
    requires IsLabel(c) && 1 <= l <= c[0]
    ensures Data(c)[l - 1] == c[l]
  {
  }

  /** `LabelContainsSuffix` */
  method LabelContainsSuffix(c: array<Byte>, rich: bool) returns (b: bool)
    requires IsLabel(c[..])
    ensures b == Contains(Data(c[..]), rich)
  {
    hide Strip, IsDigit, Data;
    ghost var d := Data(c[..]);
    var l: int := c[0];
    if l >= 1 { DataAt(c[..], l); }
    if rich {
      if l < 4 { return false; }
      if c[l] != ')' as int { return false; }
      l := l - 1;
      DataAt(c[..], l);
      if !IsDigit(c[l]) { return false; }
      l := l - 1;
      assert Front(Front(d)) == d[..l];
    } else {
      if l < 2 { return false; }
      if !IsDigit(c[l]) { return false; }
      l := l - 1;
      assert Front(d) == d[..l];
    }
    DataAt(c[..], l);
    ghost var f := Strip(d[..l], 2);
    while l > 2 && IsDigit(c[l])
      invariant 1 <= l < |d| && (rich ==> l >= 2) && Strip(d[..l], 2) == f && d[l - 1] == c[l]
    {
      StripOne(d, l);
      l := l - 1;
      DataAt(c[..], l);
    }
    StripDone(d, l);
    if rich { DataAt(c[..], l - 1); }
    b := if rich then c[l] == '(' as int && c[l - 1] == ' ' as int else c[l] == '-' as int;
  }

  lemma StripOne(d: seq<Byte>, l: nat)
    requires 2 < l <= |d| && IsDigit(d[l - 1])
    ensures Strip(d[..l], 2) == Strip(d[..l - 1], 2)
  {
    assert Front(d[..l]) == d[..l - 1];
  }

  lemma StripDone(d: seq<Byte>, l: nat)
    requires 1 <= l <= |d| && (l <= 2 || !IsDigit(d[l - 1]))
    ensures Strip(d[..l], 2) == d[..l]
  {
  }

  /** Only the length changes: the label becomes its first `n` bytes. */
  method Shorten(c: array<Byte>, n: Byte)
    requires IsLabel(c[..]) && n <= c[0]
    modifies c
    ensures IsLabel(c[..]) && Data(c[..]) == Data(old(c[..]))[..n] && c[1..] == old(c[1..]) && c[0] == n
  {
    ghost var d, rest := Data(c[..]), c[1..];
    c[0] := n;
    assert c[1..] == rest;
    assert d[..n] == rest[..n];
    assert Data(c[..]) == c[1..][..n];
  }

  /** The number read so far, with that of the digits still to be read. */
  function Pending(val: int, multiplier: int, d: seq<Byte>): int {
    (val + multiplier * TailNumber(d)) % U32
  }

  /** `val += digit * multiplier`, in 32 bits. */
  function Accumulate(val: int, digit: int, multiplier: int): (r: int)
    ensures 0 <= r < U32
  {
    (val + digit * multiplier) % U32
  }

  lemma DigitsStep(d: seq<Byte>, val: int, multiplier: int)
    requires d != [] && IsDigit(Last(d))
    ensures Pending(Accumulate(val, Last(d) - 48, multiplier), multiplier * 10 % U32, Front(d)) == Pending(val, multiplier, d)
  {
    var v, t := Last(d) - 48, TailNumber(Front(d));
    var a, b := val + v * multiplier, multiplier * 10;
    assert val + multiplier * (10 * t + v) == a + b * t by { Spread(val, multiplier, t, v); }
    var i, j := a / U32, b / U32;
    assert a == i * U32 + a % U32 && b == j * U32 + b % U32;
    assert b * t == (b % U32) * t + (j * t) * U32 by { Product(j, b % U32, t); }
    Congruent((a % U32) + (b % U32) * t, i + j * t);
  }

  lemma NothingPending(d: seq<Byte>, val: int)
    requires 0 <= val < U32 && (d == [] || !IsDigit(Last(d)))
    ensures forall m :: Pending(val, m, d) == val
    ensures Strip(d, 0) == d
  {
  }

  lemma AllPending(d: seq<Byte>)
    ensures Pending(0, 1, d) == TailNumber(d) % U32
  {
  }

  lemma Spread(val: int, m: int, t: int, v: int)
    ensures val + m * (10 * t + v) == val + v * m + m * 10 * t
  {
  }

  lemma Product(j: int, r: int, t: int)
    ensures (j * U32 + r) * t == r * t + (j * t) * U32
  {
  }

  lemma Congruent(x: int, k: int)
    ensures (x + k * U32) % U32 == x % U32
  {
  }

  /** `RemoveLabelSuffix` */
  method RemoveLabelSuffix(c: array<Byte>, rich: bool) returns (val: nat)
    requires IsLabel(c[..])
    modifies c
    ensures IsLabel(c[..]) && val == Removed(Data(old(c[..])), rich) && Data(c[..]) == Base(Data(old(c[..])), rich)
  {
    hide Strip, TailNumber;
    if rich && c[0] >= 1 && c[c[0]] == ')' as int {
      Shorten(c, c[0] - 1);
    }
    ghost var e := Data(c[..]);
    assert e == WithoutParenthesis(Data(old(c[..])), rich);
    val := RemoveDigits(c);
    ghost var f := Data(c[..]);
    if rich {
      if c[0] >= 2 && c[c[0]] == '(' as int && c[c[0] - 1] == ' ' as int {
        assert Last(Front(f)) == c[c[0] - 1];
        Shorten(c, c[0] - 2);
      } else if c[0] >= 2 {
        assert Last(Front(f)) == c[c[0] - 1];
      }
    } else if c[0] >= 1 && c[c[0]] == '-' as int {
      Shorten(c, c[0] - 1);
    }
  }

  /** The digits at the end; there is always a byte before them that is none, if only the length itself. */
  method RemoveDigits(c: array<Byte>) returns (val: nat)
    requires IsLabel(c[..])
    modifies c
    ensures IsLabel(c[..]) && val == TailNumber(Data(old(c[..]))) % U32 && Data(c[..]) == Strip(Data(old(c[..])), 0)
  {
    hide IsDigit, Data, Pending, Accumulate;
    ghost var d := Data(c[..]);
    AllPending(d);
    var multiplier: int := 1;
    var sum: int := 0;
    while c[0] > 0 && IsDigit(c[c[0]])
      invariant IsLabel(c[..]) && 0 <= sum < U32
      invariant Strip(Data(c[..]), 0) == Strip(d, 0)
      invariant Pending(sum, multiplier, Data(c[..])) == TailNumber(d) % U32
      decreases c[0]
    {
      ghost var e := Data(c[..]);
      var last: int := c[c[0]];
      DataAt(c[..], c[0]);
      DigitsStep(e, sum, multiplier);
      sum := Accumulate(sum, last - 48, multiplier);
      multiplier := multiplier * 10 % U32;
      Shorten(c, c[0] - 1);
      assert Data(c[..]) == Front(e);
    }
    if c[0] > 0 { DataAt(c[..], c[0]); }
    NothingPending(Data(c[..]), sum);
    val := sum;
  }

  /** `label->c[++label->c[0]] = b` */
  method Push(c: array<Byte>, b: Byte)
    requires IsLabel(c[..]) && |Data(c[..])| < MAX_LABEL
    modifies c
    ensures IsLabel(c[..]) && Data(c[..]) == Data(old(c[..])) + [b]
  {
    c[0] := c[0] + 1;
    c[c[0]] := b;
  }

  /** The loop that looks for the first divisor; it counts the bytes of the suffix. */
  method FindDivisor(val: nat, start: nat) returns (divisor: nat, chars: nat)
    requires val < ENDLESS
    ensures divisor == Divisor(Places(val, 0)) && chars == start + Places(val, 0)
  {
    hide Divisor;
    divisor, chars := 1, start;
    ghost var k := 0;
    NoMultiplication();
    while val >= divisor * 10 % U32
      invariant k <= 22 && divisor == Divisor(k) && chars == start + k && Places(val, k) == Places(val, 0)
      decreases 22 - k
    {
      NextDivisor(k);
      Divisors();
      divisor := divisor * 10 % U32;
      chars := chars + 1;
      k := k + 1;
    }
    NextDivisor(k);
  }

  lemma NoMultiplication()
    ensures Divisor(0) == 1
  {
  }

  /** The loop that writes the digits, the most significant first. */
  method PushDigits(c: array<Byte>, number: nat, first: nat)
    requires IsLabel(c[..]) && |Data(c[..])| + |Written(number, first)| <= MAX_LABEL
    modifies c
    ensures IsLabel(c[..]) && Data(c[..]) == Data(old(c[..])) + Written(number, first)
  {
    hide Data, Written, IsLabel;
    var val, divisor := number, first;
    ghost var whole := Data(c[..]) + Written(number, first);
    while divisor != 0
      invariant IsLabel(c[..]) && |Data(c[..])| + |Written(val, divisor)| <= MAX_LABEL
      invariant Data(c[..]) + Written(val, divisor) == whole
      decreases divisor
    {
      WrittenStep(val, divisor);
      var digit, rest, next := (48 + val / divisor) % 256, val % divisor, divisor / 10;
      Associate(Data(c[..]), [digit], Written(rest, next));
      Push(c, digit);
      val, divisor := rest, next;
    }
    WrittenStep(val, divisor);
  }

  /** Truncates trailing spaces. */
  method RemoveSpaces(c: array<Byte>)
    requires IsLabel(c[..])
    modifies c
    ensures IsLabel(c[..]) && Data(c[..]) == WithoutSpaces(Data(old(c[..])))
  {
    ghost var d := Data(c[..]);
    while c[0] > 0 && c[c[0]] == ' ' as int
      invariant IsLabel(c[..]) && WithoutSpaces(Data(c[..])) == WithoutSpaces(d)
      decreases c[0]
    {
      ghost var e := Data(c[..]);
      Shorten(c, c[0] - 1);
      assert Data(c[..]) == Front(e);
    }
  }

  /** Makes room, without cutting a UTF-8 character in the middle. */
  method CutLabel(c: array<Byte>, room: nat)
    requires IsLabel(c[..]) && room < c[0]
    modifies c
    ensures IsLabel(c[..]) && Data(c[..]) == CutAt(Data(old(c[..])), room)
  {
    hide Continuation;
    ghost var d := Data(c[..]);
    ghost var rest := c[1..];
    Shorten(c, room);
    while c[0] > 0 && Continuation(c[c[0] + 1])
      invariant IsLabel(c[..]) && c[0] <= room && c[1..] == rest
      invariant Data(c[..]) == d[..c[0]] && CutAt(d, c[0]) == CutAt(d, room)
      decreases c[0]
    {
      assert c[c[0] + 1] == rest[c[0]] == d[c[0]];
      Shorten(c, c[0] - 1);
      assert d[..c[0] + 1][..c[0]] == d[..c[0]];
    }
    if c[0] > 0 { assert c[c[0] + 1] == rest[c[0]] == d[c[0]]; }
  }

  /** The last part of `AppendLabelSuffix`. */
  method PushSuffix(c: array<Byte>, val: nat, divisor: nat, rich: bool)
    requires IsLabel(c[..]) && |Data(c[..])| + |Opening(rich) + Written(val, divisor) + Closing(rich)| <= MAX_LABEL
    modifies c
    ensures IsLabel(c[..])
    ensures Data(c[..]) == Data(old(c[..])) + (Opening(rich) + Written(val, divisor) + Closing(rich))
  {
    hide Written, Data, IsLabel;
    ghost var stem := Data(c[..]);
    if rich {
      Push(c, ' ' as int);
      Push(c, '(' as int);
    } else {
      Push(c, '-' as int);
    }
    assert Data(c[..]) == stem + Opening(rich);
    PushDigits(c, val, divisor);
    if rich { Push(c, ')' as int); }
    Assemble(stem, Opening(rich), Written(val, divisor), Closing(rich));
  }

  lemma Assemble(a: seq<Byte>, b: seq<Byte>, c: seq<Byte>, d: seq<Byte>)
    ensures a + b + c + d == a + (b + c + d)
    ensures d == [] ==> a + b + c == a + (b + c + d)
  {
  }

  /** `AppendLabelSuffix`, for the numbers for which it ends. */
  method AppendLabelSuffix(c: array<Byte>, val: nat, rich: bool)
    requires IsLabel(c[..]) && val < ENDLESS
    modifies c
    ensures IsLabel(c[..]) && Data(c[..]) == Append(Data(old(c[..])), val, rich)
  {
    hide CutAt, WithoutSpaces, Digits, Written, Divisor, Places, Data, Room, Suffix, Opening, Closing;
    SuffixParts(val, rich);
    if rich { RemoveSpaces(c); }
    var divisor, chars := FindDivisor(val, if rich then 4 else 2);
    if c[0] > MAX_LABEL - chars {
      CutLabel(c, MAX_LABEL - chars);
    }
    PushSuffix(c, val, divisor, rich);
  }

  lemma SuffixParts(val: nat, rich: bool)
    requires val < ENDLESS
    ensures Suffix(val, rich) == Opening(rich) + Digits(val) + Closing(rich)
    ensures Digits(val) == Written(val, Divisor(Places(val, 0)))
    ensures Room(val, rich) == Places(val, 0) + (if rich then 4 else 2) && |Suffix(val, rich)| <= Room(val, rich) <= 26
  {
  }

  /** `IncrementLabelSuffix` */
  method IncrementLabelSuffix(c: array<Byte>, rich: bool, random: Random)
    requires IsLabel(c[..]) && NextNumber(Number(Data(c[..]), rich), random) % U32 < ENDLESS
    modifies c
    ensures IsLabel(c[..]) && Data(c[..]) == Increment(Data(old(c[..])), rich, random)
  {
    hide Append, Contains, Removed, Base, Data;
    var val := 0;
    var contains := LabelContainsSuffix(c, rich);
    if contains {
      val := RemoveLabelSuffix(c, rich);
    }
    if val == 0 {
      val := 2;
    } else if val < 10 {
      val := val + 1;
    } else {
      val := (val + (1 + random)) % U32;
    }
    AppendLabelSuffix(c, val, rich);
  }
}
