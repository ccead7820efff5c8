/** Runs of renamings: what becomes of a label whose name is taken again and again. */
module LabelRuns {
  import opened Bits
  import opened Characters
  import opened Numerals
  import opened SuffixNumbers
  import opened LabelSuffix

  /** How many bytes of a host label are kept at least, in front of the longest suffix that is written right. */
  const KEPT := 52

  /** One renaming. */
  predicate Renames(d: seq<Byte>, next: seq<Byte>, rich: bool, random: Random) {
    NextNumber(Number(d, rich), random) % U32 < ENDLESS && next == Increment(d, rich, random)
  }

  /** A run of renamings, with the random steps it takes. */
  predicate IsRun(labels: seq<seq<Byte>>, rich: bool, randoms: seq<Random>) {
    |labels| == |randoms| + 1 && forall i :: 0 <= i < |randoms| ==> Renames(labels[i], labels[i + 1], rich, randoms[i])
  }

  /** The numbers of a run are small enough to be written right. */
  predicate Within(labels: seq<seq<Byte>>, rich: bool, randoms: seq<Random>) {
    && |labels| == |randoms| + 1
    && forall i :: 0 <= i < |randoms| ==> NextNumber(Number(labels[i], rich), randoms[i]) < SUFFIX_LIMIT
  }

  /** Host labels that are never cut again. */
  predicate Settled(d: seq<Byte>, rich: bool) {
    !rich && 1 <= |Stem(d, false)| <= KEPT
  }

  lemma RoomLeft(val: nat)
    requires val < SUFFIX_LIMIT
    ensures KEPT <= MAX_LABEL - Room(val, false) && (val >= 1_000_000_000 ==> KEPT == MAX_LABEL - Room(val, false))
  {
    hide Divisor, Places, Pow10;
    PlacesPower(val);
    Divisors();
    var n := Places(val, 0);
    if n < 9 { SmallDivisors(n + 1); }
  }

  lemma BareLabel(d: seq<Byte>, v: nat, rich: bool)
    requires v < SUFFIX_LIMIT && Shortened(d, MAX_LABEL - Room(v, rich), rich) == []
    ensures 1 <= |Append(d, v, rich)| <= KEPT
  {
    hide Shortened, Room, Digits, Numeral;
    GoodSuffix(v, rich);
  }

  /** What a renamed label consists of: its stem and its number, or nothing but itself. */
  ghost predicate Consists(r: seq<Byte>, stem: seq<Byte>, v: nat, rich: bool) {
    if rich || stem != [] || v < 10 then Number(r, rich) == v && Stem(r, rich) == stem
    else Number(r, rich) == 0 && Stem(r, rich) == r && 1 <= |r| <= KEPT
  }

  lemma AppendConsists(d: seq<Byte>, v: nat, rich: bool)
    requires v < SUFFIX_LIMIT
    ensures Consists(Append(d, v, rich), Shortened(d, MAX_LABEL - Room(v, rich), rich), v, rich)
  {
    hide Contains, Removed, Base, Shortened, Append, Room;
    Appended(d, v, rich);
    if Shortened(d, MAX_LABEL - Room(v, rich), rich) == [] { BareLabel(d, v, rich); }
  }

  lemma RenamesAppend(d: seq<Byte>, next: seq<Byte>, rich: bool, random: Random)
    requires Renames(d, next, rich, random) && NextNumber(Number(d, rich), random) < SUFFIX_LIMIT
    ensures next == Append(Stem(d, rich), NextNumber(Number(d, rich), random), rich)
  {
    hide Number, Stem, Append, NextNumber;
  }

  /** The label after a renaming. */
  lemma NextLabel(d: seq<Byte>, next: seq<Byte>, rich: bool, random: Random)
    requires Renames(d, next, rich, random) && NextNumber(Number(d, rich), random) < SUFFIX_LIMIT
    ensures |next| <= MAX_LABEL
    ensures var v := NextNumber(Number(d, rich), random);
            Consists(next, Shortened(Stem(d, rich), MAX_LABEL - Room(v, rich), rich), v, rich)
  {
    hide Number, Stem, Append, NextNumber, Renames, Consists, Shortened, Room;
    RenamesAppend(d, next, rich, random);
    AppendConsists(Stem(d, rich), NextNumber(Number(d, rich), random), rich);
  }

  /** The number grows, but for one case: then the label is settled, and was not before. */
  lemma Step(d: seq<Byte>, next: seq<Byte>, rich: bool, random: Random)
    requires Renames(d, next, rich, random) && NextNumber(Number(d, rich), random) < SUFFIX_LIMIT
    ensures |next| <= MAX_LABEL && (Settled(d, rich) ==> Settled(next, rich))
    ensures Number(next, rich) > Number(d, rich) || (!Settled(d, rich) && Settled(next, rich))
  {
    hide Number, Stem, Renames, Room, CutAt, WithoutSpaces;
    NextLabel(d, next, rich, random);
    RoomLeft(NextNumber(Number(d, rich), random));
  }

  /** Whatever the label, and however often it is renamed: it never gets a name that it has had, and stays a legal label. */
  lemma {:induction false} NeverRepeats(labels: seq<seq<Byte>>, rich: bool, randoms: seq<Random>, i: nat, j: nat)
    requires IsRun(labels, rich, randoms) && Within(labels, rich, randoms) && i < j < |labels|
    ensures labels[i] != labels[j] && |labels[j]| <= MAX_LABEL
    ensures Settled(labels[i], rich) ==> Settled(labels[j], rich)
    ensures Settled(labels[i], rich) == Settled(labels[j], rich) ==> Number(labels[i], rich) < Number(labels[j], rich)
  {
    hide Settled, Renames, Number;
    Step(labels[j - 1], labels[j], rich, randoms[j - 1]);
    if i < j - 1 {
      NeverRepeats(labels, rich, randoms, i, j - 1);
    }
  }

  /** Labels of which something is left in front of every suffix. */
  predicate Lasting(d: seq<Byte>, rich: bool) {
    rich || Shortened(Stem(d, false), KEPT, false) != []
  }

  ghost predicate Grows(labels: seq<seq<Byte>>, rich: bool) {
    forall i :: 0 < i < |labels| ==> Number(labels[i - 1], rich) < Number(labels[i], rich)
  }

  /** Cutting twice is cutting once. */
  lemma {:induction false} CutTwice(d: seq<Byte>, a: nat, b: nat)
    requires b <= a
    ensures Shortened(Shortened(d, a, false), b, false) == Shortened(d, b, false)
  {
    var s := Shortened(d, a, false);
    if |s| < |d| {
      var t := CutAt(d, b);
      if |s| > b {
        CutPrefix(d, |s|, b);
      } else {
        CutStops(d, |s|, b);
      }
    }
  }

  lemma {:induction false} CutPrefix(d: seq<Byte>, m: nat, n: nat)
    requires n < m <= |d|
    ensures CutAt(d[..m], n) == CutAt(d, n)
  {
    if n > 0 && Continuation(d[n]) { CutPrefix(d, m, n - 1); } else { assert d[..m][..n] == d[..n]; }
  }

  lemma {:induction false} CutStops(d: seq<Byte>, m: nat, n: nat)
    requires m <= n < |d| && (m == 0 || !Continuation(d[m])) && forall k :: m < k <= n ==> Continuation(d[k])
    ensures CutAt(d, n) == d[..m]
    decreases n
  {
    if n > m { CutStops(d, m, n - 1); }
  }

  lemma LastingStays(d: seq<Byte>, next: seq<Byte>, rich: bool, random: Random)
    requires Renames(d, next, rich, random) && NextNumber(Number(d, rich), random) < SUFFIX_LIMIT && Lasting(d, rich)
    ensures Lasting(next, rich) && Number(next, rich) > Number(d, rich)
  {
    hide Number, Stem, Renames, Room, Shortened;
    NextLabel(d, next, rich, random);
    if !rich {
      var v := NextNumber(Number(d, rich), random);
      RoomLeft(v);
      CutTwice(Stem(d, rich), MAX_LABEL - Room(v, rich), KEPT);
      assert Shortened([], KEPT, false) == [] by { ShortenNothing(); }
    }
  }

  lemma ShortenNothing()
    ensures Shortened([], KEPT, false) == []
  {
  }

  lemma {:induction false} LastingGrows(labels: seq<seq<Byte>>, rich: bool, randoms: seq<Random>, n: nat)
    requires IsRun(labels, rich, randoms) && Within(labels, rich, randoms) && Lasting(labels[0], rich) && n < |labels|
    ensures Lasting(labels[n], rich) && Grows(labels[..n + 1], rich)
  {
    hide Lasting, Renames, Number;
    if n > 0 {
      LastingGrows(labels, rich, randoms, n - 1);
      LastingStays(labels[n - 1], labels[n], rich, randoms[n - 1]);
      assert forall i :: 0 <= i < n ==> labels[..n][i] == labels[..n + 1][i];
    }
  }

  /** A run from a label that is not lasting, with the smallest steps, comes to a bare suffix. */
  lemma {:induction false} Drops(d: seq<Byte>) returns (labels: seq<seq<Byte>>, randoms: seq<Random>)
    requires !Lasting(d, false) && Number(d, false) < 1_000_000_000
    ensures IsRun(labels, false, randoms) && Within(labels, false, randoms) && labels[0] == d && !Grows(labels, false)
    decreases 1_000_000_000 - Number(d, false)
  {
    hide Number, Stem, Room, Shortened, Increment;
    var v := NextNumber(Number(d, false), 0);
    var next := Increment(d, false, 0);
    assert Renames(d, next, false, 0);
    NextLabel(d, next, false, 0);
    RoomLeft(v);
    if Number(next, false) == 0 {
      labels, randoms := [d, next], [0];
      assert Number(labels[0], false) >= Number(labels[1], false);
    } else {
      CutTwice(Stem(d, false), MAX_LABEL - Room(v, false), KEPT);
      var more, steps := Drops(next);
      labels, randoms := [d] + more, [0] + steps;
      DropsLater(d, more, steps);
    }
  }

  lemma DropsLater(d: seq<Byte>, more: seq<seq<Byte>>, steps: seq<Random>)
    requires IsRun(more, false, steps) && Within(more, false, steps) && !Grows(more, false) && Renames(d, more[0], false, 0)
    requires NextNumber(Number(d, false), 0) < SUFFIX_LIMIT
    ensures IsRun([d] + more, false, [0] + steps) && Within([d] + more, false, [0] + steps) && !Grows([d] + more, false)
  {
    hide Renames, Number;
    var labels := [d] + more;
    var i :| 0 < i < |more| && Number(more[i - 1], false) >= Number(more[i], false);
    assert labels[i] == more[i - 1] && labels[i + 1] == more[i];
  }

  lemma {:induction false} TailSize(d: seq<Byte>)
    ensures TailNumber(d) < Pow10(|d| - |Strip(d, 0)|)
  {
    if d != [] && IsDigit(Last(d)) { TailSize(Front(d)); }
  }

  lemma {:induction false} StripFurther(d: seq<Byte>, floor: nat)
    ensures Strip(d, 0) == Strip(Strip(d, floor), 0)
  {
    if |d| > floor && IsDigit(Last(d)) { StripFurther(Front(d), floor); }
  }

  /** The parts of a host label that ends in a suffix. */
  lemma Parts(d: seq<Byte>)
    requires Contains(d, false)
    ensures var b := Base(d, false); |b| < |d| && d[|b|] == '-' as int && Removed(d, false) < Pow10(|d| - |b| - 1)
    ensures Base(d, false) == [] ==> |d| == 2 && IsDigit(d[1])
  {
    var f, g := Strip(d, 0), Strip(Front(d), 2);
    StripFurther(Front(d), 2);
    StripStops(g);
    assert f == g;
    assert d[|f| - 1] == f[|f| - 1];
    TailSize(d);
  }

  /** A label that is cut to nothing has few digits. */
  lemma FewDigits(d: seq<Byte>)
    requires !Lasting(d, false) && |d| <= MAX_LABEL
    ensures Number(d, false) < 1_000_000_000
  {
    hide Pow10, Removed, Base;
    if Contains(d, false) {
      Parts(d);
      MorePowers(|d| - |Base(d, false)| - 1, 9);
      Billion();
    }
  }

  /** The number grows in every run from a label if and only if the label is lasting. */
  lemma GrowsAlways(d: seq<Byte>, rich: bool)
    requires |d| <= MAX_LABEL
    ensures (forall labels, randoms ::
              IsRun(labels, rich, randoms) && Within(labels, rich, randoms) && labels[0] == d ==> Grows(labels, rich))
            <==> Lasting(d, rich)
  {
    hide Lasting, Number;
    if Lasting(d, rich) {
      forall labels, randoms | IsRun(labels, rich, randoms) && Within(labels, rich, randoms) && labels[0] == d
        ensures Grows(labels, rich)
      {
        LastingGrows(labels, rich, randoms, |labels| - 1);
        assert labels[..|labels|] == labels;
      }
    } else {
      RichLasts(d, rich);
      FewDigits(d);
      var labels, randoms := Drops(d);
    }
  }

  lemma RichLasts(d: seq<Byte>, rich: bool)
    ensures rich ==> Lasting(d, rich)
  {
  }

  /** A host label of ASCII characters is lasting unless it is empty or a dash and one digit. */
  lemma AsciiLasts(d: seq<Byte>)
    requires forall c :: c in d ==> c < 0x80
    ensures Lasting(d, false) <==> d != [] && !(|d| == 2 && d[0] == '-' as int && IsDigit(d[1]))
  {
    var b := Stem(d, false);
    if Contains(d, false) { Parts(d); }
    if |b| > KEPT {
      assert b[KEPT] == d[..|b|][KEPT] && d[KEPT] in d;
      assert !Continuation(b[KEPT]);
    }
    if |d| == 2 && d[0] == '-' as int && IsDigit(d[1]) {
      assert Front(d) == [d[0]];
      StripStops(Front(d));
    }
  }

  /** The label "-9" is renamed to "-10", which is not recognised. */
  lemma DashNine()
    ensures Number(['-' as int, '9' as int], false) == 9
    ensures var next := Increment(['-' as int, '9' as int], false, 0);
            next == ['-' as int, '1' as int, '0' as int] && Number(next, false) == 0
  {
    var none: seq<Byte> := [];
    NineAndTen();
    hide Numeral, Contains, Removed, Base, Shortened, Room, Suffix;
    AppendedHost(none, 9);
    AppendedHost(none, 10);
    GoodSuffix(10, false);
    assert none + (Opening(false) + Numeral(9, 10) + Closing(false)) == ['-' as int, '9' as int];
    assert none + (Opening(false) + Numeral(10, 10) + Closing(false)) == ['-' as int, '1' as int, '0' as int];
    ShortenNone(10);
  }

  lemma NineAndTen()
    ensures Numeral(9, 10) == ['9' as int] && Numeral(10, 10) == ['1' as int, '0' as int]
  {
    assert Numeral(10, 10) == Numeral(1, 10) + ['0' as int];
  }

  lemma ShortenNone(v: nat)
    requires v < ENDLESS
    ensures Shortened([], MAX_LABEL - Room(v, false), false) == []
  {
    hide Room;
  }

  /** What is written instead of the first number that is too large. */
  const WRITTEN_INSTEAD := 1_159_829_641

  lemma SameDigit(v: nat, d: nat, w: nat, p: nat)
    requires d > 0 && p > 0 && v / d == w / p && Written(v % d, d / 10) == Written(w % p, p / 10)
    ensures Written(v, d) == Written(w, p)
  {
  }

  lemma FirstTooLarge()
    ensures Digits(SUFFIX_LIMIT) == Numeral(WRITTEN_INSTEAD, 10)
  {
    hide Written, Numeral, Fixed, Pow10, Divisor;
    Divisors();
    Billion();
    assert Places(SUFFIX_LIMIT, 0) == 11 by { AtLeastTen(SUFFIX_LIMIT); }
    assert Written(0, 0) == [] by { WrittenStep(0, 0); }
    assert Written(SUFFIX_LIMIT, 1_215_752_192) == Written(WRITTEN_INSTEAD, 1_000_000_000) by {
      SameDigit(1, 1, 1, 1);
      SameDigit(49, 12, 41, 10);
      SameDigit(775, 121, 641, 100);
      SameDigit(11_710, 1_215, 9_641, 1_000);
      SameDigit(36_024, 12_157, 29_641, 10_000);
      SameDigit(1_008_624, 121_575, 829_641, 100_000);
      SameDigit(11_950_392, 1_215_752, 9_829_641, 1_000_000);
      SameDigit(72_737_997, 12_157_521, 59_829_641, 10_000_000);
      SameDigit(194_313_216, 121_575_219, 159_829_641, 100_000_000);
      SameDigit(1_410_065_408, 1_215_752_192, 1_159_829_641, 1_000_000_000);
    }
    WrittenFixed(WRITTEN_INSTEAD, 10);
    FixedNumeral(WRITTEN_INSTEAD, 10);
  }

  /** A host label with a stem and a number. */
  function Named(stem: seq<Byte>, v: nat): seq<Byte> {
    stem + (Opening(false) + Numeral(v, 10) + Closing(false))
  }

  lemma NamedNumber(stem: seq<Byte>, v: nat)
    requires 1 <= |stem| <= 30 && v < SUFFIX_LIMIT
    ensures Number(Named(stem, v), false) == v && Stem(Named(stem, v), false) == stem
  {
    hide Numeral, Contains, Removed, Base;
    AppendedHost(stem, v);
  }

  lemma NamedAppend(stem: seq<Byte>, v: nat)
    requires 1 <= |stem| <= 30 && v <= SUFFIX_LIMIT
    ensures Append(stem, v, false) == Named(stem, if v == SUFFIX_LIMIT then WRITTEN_INSTEAD else v)
  {
    hide Numeral, Digits, Places;
    if v == SUFFIX_LIMIT { FirstTooLarge(); } else { WrittenRight(v); }
  }

  lemma NamedNext(stem: seq<Byte>, v: nat)
    requires 1 <= |stem| <= 30 && 10 <= v < SUFFIX_LIMIT
    ensures Renames(Named(stem, v), Named(stem, if v + 1 == SUFFIX_LIMIT then WRITTEN_INSTEAD else v + 1), false, 0)
  {
    hide Named, Number, Stem, Append;
    NamedNumber(stem, v);
    NamedAppend(stem, v + 1);
  }

  /** Beyond that limit labels do come back: from the first number that is too large, a host counts up to it again. */
  lemma ComesBack(stem: seq<Byte>) returns (labels: seq<seq<Byte>>, randoms: seq<Random>)
    requires 1 <= |stem| <= 30
    ensures IsRun(labels, false, randoms) && |randoms| > 0 && labels[0] == labels[|randoms|]
  {
    hide Named, Renames;
    var n := SUFFIX_LIMIT - WRITTEN_INSTEAD;
    labels := seq(n + 1, k requires 0 <= k <= n => Named(stem, if k == n then WRITTEN_INSTEAD else WRITTEN_INSTEAD + k));
    randoms := seq(n, k => 0);
    forall i | 0 <= i < n ensures Renames(labels[i], labels[i + 1], false, randoms[i]) {
      NamedNext(stem, WRITTEN_INSTEAD + i);
    }
  }
}
