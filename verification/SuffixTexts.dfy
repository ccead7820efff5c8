/** Suffixes as they are seen: "name (2)" and "name-2", which labels have one, and which comes next. */
module SuffixTexts {
  import opened Bits
  import opened Characters
  import opened Numerals
  import opened LabelSuffix
  import opened LabelRuns

  /** A space, a parenthesis, the number, a parenthesis; or a dash and the number. */
  function SuffixText(v: nat, rich: bool): seq<Byte> {
    if rich then [32, 40] + Numeral(v, 10) + [41] else [45] + Numeral(v, 10)
  }

  /** A suffix that starts at `k`: a host label of two digits or more must have something before it. */
  predicate HasSuffix(d: seq<Byte>, k: nat, rich: bool) {
    if rich then
      && k + 4 <= |d| && d[k] == 32 && d[k + 1] == 40 && d[|d| - 1] == 41
      && forall i :: k + 2 <= i < |d| - 1 ==> 48 <= d[i] <= 57
    else
      && k + 2 <= |d| && d[k] == 45 && (forall i :: k + 1 <= i < |d| ==> 48 <= d[i] <= 57)
      && (k >= 1 || |d| == 2)
  }

  /** Digits are stripped, as many as there are, or down to the floor. */
  lemma {:induction false} StripDigits(d: seq<Byte>, floor: nat)
    ensures var r := Strip(d, floor);
            && (forall i :: |r| <= i < |d| ==> IsDigit(d[i])) && (|r| <= floor || !IsDigit(d[|r| - 1]))
    decreases |d|
  {
    if |d| > floor && IsDigit(Last(d)) {
      var f := Front(d);
      StripDigits(f, floor);
      var r := Strip(d, floor);
      assert forall i :: 0 <= i < |f| ==> d[i] == f[i];
    }
  }

  lemma StrippedRich(d: seq<Byte>) returns (n: nat)
    requires |d| >= 4
    ensures 2 <= n <= |d| - 2
    ensures Contains(d, true) <==> d[|d| - 1] == 41 && IsDigit(d[|d| - 2]) && d[n - 1] == 40 && d[n - 2] == 32
    ensures (forall i :: n <= i < |d| - 2 ==> IsDigit(d[i])) && (n == 2 || !IsDigit(d[n - 1]))
  {
    var e := Front(Front(d));
    assert e == d[..|d| - 2] && Last(Front(d)) == d[|d| - 2];
    StripDigits(e, 2);
    var r := Strip(e, 2);
    hide Strip;
    n := |r|;
    assert forall i :: 0 <= i < |e| ==> e[i] == d[i];
    assert forall i :: 0 <= i < n ==> r[i] == e[..n][i];
  }

  lemma RecognisedRich(d: seq<Byte>, k: nat)
    ensures Contains(d, true) ==> exists j: nat :: HasSuffix(d, j, true)
    ensures HasSuffix(d, k, true) ==> Contains(d, true)
  {
    if |d| >= 4 {
      var n := StrippedRich(d);
      hide Contains;
      if Contains(d, true) { assert HasSuffix(d, n - 2, true); }
      if HasSuffix(d, k, true) { assert n == k + 2; }
    }
  }

  lemma RecognisedHost(d: seq<Byte>, k: nat)
    ensures Contains(d, false) ==> exists j: nat :: HasSuffix(d, j, false)
    ensures HasSuffix(d, k, false) ==> Contains(d, false)
  {
    if |d| >= 2 {
      var e := Front(d);
      StripDigits(e, 2);
      var r := Strip(e, 2);
      assert forall i :: 0 <= i < |e| ==> e[i] == d[i];
      assert forall i :: 0 <= i < |r| ==> r[i] == e[..|r|][i] == d[i];
      hide Strip;
      if Contains(d, false) {
        assert HasSuffix(d, |r| - 1, false);
      }
      if HasSuffix(d, k, false) {
        assert |r| == k + 1;
      }
    }
  }

  /** A label is taken to have a suffix exactly if it has one. */
  lemma Recognised(d: seq<Byte>, rich: bool)
    ensures Contains(d, rich) <==> exists k: nat :: HasSuffix(d, k, rich)
  {
    hide Contains, HasSuffix;
    if rich { RecognisedRich(d, 0); } else { RecognisedHost(d, 0); }
    if k: nat :| HasSuffix(d, k, rich) {
      if rich { RecognisedRich(d, k); } else { RecognisedHost(d, k); }
    }
  }

  lemma SuffixIsText(val: nat, rich: bool)
    requires val < 1_410_065_408
    ensures Suffix(val, rich) == SuffixText(val, rich) && |SuffixText(val, rich)| == Room(val, rich)
  {
    GoodSuffix(val, rich);
    hide Suffix, Numeral;
    assert [45] + Numeral(val, 10) + [] == [45] + Numeral(val, 10);
  }

  /** If there is room, the label stays as it is, and the suffix comes after it. */
  lemma AppendedText(d: seq<Byte>, val: nat, rich: bool)
    requires val < 1_410_065_408 && |d| + |SuffixText(val, rich)| <= 63
    requires rich && d != [] ==> d[|d| - 1] != 32
    ensures Append(d, val, rich) == d + SuffixText(val, rich)
  {
    SuffixIsText(val, rich);
    hide Suffix, SuffixText, Room;
  }

  /** 2 is the first number; up to ten they go up by one, and from there by 1 to 100. */
  function Following(v: nat, random: Random): nat {
    match v
    case 0 => 2
    case 1 => 2
    case 2 => 3
    case 3 => 4
    case 4 => 5
    case 5 => 6
    case 6 => 7
    case 7 => 8
    case 8 => 9
    case 9 => 10
    case _ => v + 1 + random
  }

  /** A label without a suffix gets the number 2. */
  lemma FirstRenaming(d: seq<Byte>, rich: bool, random: Random)
    requires !Contains(d, rich) && |d| <= (if rich then 59 else 61)
    requires rich && d != [] ==> d[|d| - 1] != 32
    ensures Renames(d, d + if rich then [32, 40, 50, 41] else [45, 50], rich, random)
  {
    hide Contains, Append;
    assert Numeral(2, 10) == [50];
    AppendedText(d, 2, rich);
  }

  /** The number and the stem of a label with a suffix. */
  lemma SuffixFound(stem: seq<Byte>, v: nat, rich: bool)
    requires v < 0x1_0000_0000 && (rich || stem != [] || v < 10)
    ensures Number(stem + SuffixText(v, rich), rich) == v && Stem(stem + SuffixText(v, rich), rich) == stem
  {
    hide Contains, Removed, Base, Numeral;
    if rich { AppendedRich(stem, v); } else { AppendedHost(stem, v); }
    assert SuffixText(v, rich) == Opening(rich) + Numeral(v, 10) + Closing(rich);
  }

  /** A label with one gets the number that follows. */
  lemma NextRenaming(stem: seq<Byte>, v: nat, rich: bool, random: Random)
    requires Following(v, random) < 1_410_065_408 && (rich || stem != [] || v < 10)
    requires |stem| + |SuffixText(Following(v, random), rich)| <= 63
    requires rich && stem != [] ==> stem[|stem| - 1] != 32
    ensures Renames(stem + SuffixText(v, rich), stem + SuffixText(Following(v, random), rich), rich, random)
  {
    hide Number, Stem, Append, SuffixText;
    SuffixFound(stem, v, rich);
    AppendedText(stem, Following(v, random), rich);
  }
}
