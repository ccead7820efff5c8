/** Comparing names, and the hash that is compared first. */
module NameHash {
  import opened Bits
  import opened Characters
  import opened DomainNames

  /** `SameDomainLabel`, for the labels that two names start with. */
  predicate SameLabel(a: seq<Byte>, b: seq<Byte>)
    requires Wire(a) && Wire(b)
  {
    a[0] <= MAX_DOMAIN_LABEL && a[0] == b[0] && Fold(Label(a)[1..]) == Fold(Label(b)[1..])
  }

  /** `SameDomainName`, after `used` bytes. */
  predicate SameFrom(a: seq<Byte>, b: seq<Byte>, used: nat)
    requires Wire(a) && Wire(b)
    decreases |a|
  {
    if a[0] == 0 && b[0] == 0 then true
    else used + 1 + a[0] < MAX_DOMAIN_NAME && SameLabel(a, b) && SameFrom(Parent(a), Parent(b), used + 1 + a[0])
  }

  /** Two bytes of a name go into the hash. */
  function Mix(sum: bv32, first: int, second: int): bv32
    requires 0 <= first < 256 && 0 <= second < 256
  {
    var s := sum + ((first * 256 + second) as bv32);
    (s << 3) | (s >> 29)
  }

  /** A last single byte. */
  function MixLast(sum: bv32, last: int): bv32
    requires 0 <= last < 256
  {
    sum + ((last * 256) as bv32)
  }

  /** `DomainNameHashValue`: two bytes at a time, until one of them is zero, be it in a label or at the end. */
  function HashOf(name: seq<Byte>, sum: bv32): bv32 {
    if name == [] || name[0] == 0 then sum
    else if |name| == 1 || name[1] == 0 then MixLast(sum, ToLower(name[0]))
    else HashOf(name[2..], Mix(sum, ToLower(name[0]), ToLower(name[1])))
  }

  lemma Mixed()
    ensures Mix(0x2000_0000, 1, 'a' as int) == 2825
  {
    var one: bv32 := 353;
    assert (1 * 256 + 97) as bv32 == one;
  }

  lemma MixedLast()
    ensures MixLast(7, 1) == 263
  {
    var last: bv32 := 256;
    assert (1 * 256) as bv32 == last;
  }

  /** What goes on from a sum: with a pair of bytes, all turned left by three bits; and with a last single byte. */
  lemma HashesOfNames()
    ensures HashOf([1, 'A' as int, 0], 0x2000_0000) == 2825 && HashOf([1, 0], 7) == 263
  {
    Mixed();
    MixedLast();
    hide Mix, MixLast;
    assert [1, 'A' as int, 0][2..] == [0];
    assert HashOf([0], 2825) == 2825;
  }

  /** One label of two names. */
  lemma LabelsFolded(a: seq<Byte>, b: seq<Byte>)
    requires Wire(a) && Wire(b) && ShortLabels(a) && ShortLabels(b) && a[0] != 0 && b[0] != 0
    ensures Fold(a) == Fold(b) <==> SameLabel(a, b) && Fold(Parent(a)) == Fold(Parent(b))
  {
    hide Fold, Wire, ShortLabels, Label;
    Head(a);
    Head(b);
    FoldConcat(Label(a), Parent(a));
    FoldConcat(Label(b), Parent(b));
    if a[0] == b[0] {
      LabelFold(a, b);
      Split(Fold(Label(a)), Fold(Parent(a)), Fold(Label(b)), Fold(Parent(b)));
    }
  }

  /** Names are the same exactly when their bytes are the same up to case: a length byte is no letter. */
  lemma {:induction false} SameIsFolded(a: seq<Byte>, b: seq<Byte>, used: nat)
    requires Wire(a) && Wire(b) && ShortLabels(a) && ShortLabels(b) && used + |a| <= MAX_DOMAIN_NAME
    ensures SameFrom(a, b, used) <==> Fold(a) == Fold(b)
    decreases |a|
  {
    hide Fold, Wire, ShortLabels, SameLabel, SameFrom, Label;
    SameOnce(a, b, used);
    Head(a);
    Head(b);
    if a[0] != 0 && b[0] != 0 {
      var p, q := Parent(a), Parent(b);
      assert p != [];
      Short(a);
      Short(b);
      LabelsFolded(a, b);
      if SameLabel(a, b) {
        SameIsFolded(p, q, used + 1 + a[0]);
      }
    } else if a[0] == 0 && b[0] == 0 {
      Root(a);
      Root(b);
    } else {
      DifferentLabels(a, b);
    }
  }

  lemma DifferentLabels(a: seq<Byte>, b: seq<Byte>)
    requires Wire(a) && Wire(b) && a[0] != b[0]
    ensures !SameLabel(a, b)
  {
  }

  lemma Split(a: seq<int>, b: seq<int>, c: seq<int>, d: seq<int>)
    requires |a| == |c|
    ensures a + b == c + d <==> a == c && b == d
  {
    assert (a + b)[..|a|] == a && (a + b)[|a|..] == b;
    assert (c + d)[..|c|] == c && (c + d)[|c|..] == d;
  }

  /** The first byte of a name is a length. */
  lemma Head(a: seq<Byte>)
    requires Wire(a) && ShortLabels(a)
    ensures |Fold(a)| > 0 && Fold(a)[0] == a[0] <= MAX_DOMAIN_LABEL
  {
  }

  lemma Root(a: seq<Byte>)
    requires Wire(a) && a[0] == 0
    ensures a == [0]
  {
  }

  lemma Short(a: seq<Byte>)
    requires Wire(a) && ShortLabels(a) && a[0] != 0
    ensures ShortLabels(Parent(a)) && a[0] <= MAX_DOMAIN_LABEL
  {
  }

  lemma LabelFold(a: seq<Byte>, b: seq<Byte>)
    requires Wire(a) && Wire(b) && a[0] == b[0] <= MAX_DOMAIN_LABEL
    ensures Fold(Label(a)) == Fold(Label(b)) <==> Fold(Label(a)[1..]) == Fold(Label(b)[1..])
  {
    hide Fold;
    var s, t := Label(a), Label(b);
    FoldConcat(s[..1], s[1..]);
    FoldConcat(t[..1], t[1..]);
    assert s[..1] + s[1..] == s && t[..1] + t[1..] == t;
    assert s[..1] == t[..1];
    Split(Fold(s[..1]), Fold(s[1..]), Fold(t[..1]), Fold(t[1..]));
  }

  /** The hash does not see case. */
  lemma {:induction false} HashIsFolded(a: seq<Byte>, b: seq<Byte>, sum: bv32)
    requires Fold(a) == Fold(b)
    ensures HashOf(a, sum) == HashOf(b, sum)
  {
    hide Mix, MixLast, Fold;
    assert |Fold(a)| == |a| && |Fold(b)| == |b|;
    if a != [] {
      assert Fold(a)[0] == Fold(b)[0];
      if |a| >= 2 {
        assert Fold(a)[1] == Fold(b)[1];
        FoldConcat(a[..2], a[2..]);
        FoldConcat(b[..2], b[2..]);
        assert a[..2] + a[2..] == a && b[..2] + b[2..] == b;
        Split(Fold(a[..2]), Fold(a[2..]), Fold(b[..2]), Fold(b[2..]));
        HashIsFolded(a[2..], b[2..], Mix(sum, ToLower(a[0]), ToLower(a[1])));
      }
    }
  }

  /** The name test of `ResourceRecordAnswersQuestion`. */
  predicate SameHashAndName(a: seq<Byte>, b: seq<Byte>)
    requires Legal(a) && Legal(b)
  {
    HashOf(a, 0) == HashOf(b, 0) && SameFrom(a, b, 0)
  }

  /** Comparing hashes first loses no answer. */
  lemma HashLosesNothing(a: seq<Byte>, b: seq<Byte>)
    requires Legal(a) && Legal(b)
    ensures SameHashAndName(a, b) <==> Fold(a) == Fold(b)
    ensures SameFrom(a, b, 0) ==> HashOf(a, 0) == HashOf(b, 0)
  {
    hide HashOf, Fold;
    SameIsFolded(a, b, 0);
    if Fold(a) == Fold(b) { HashIsFolded(a, b, 0); }
  }

  /** `SameDomainLabel` */
  method SameDomainLabel(a: seq<Byte>, i: nat, b: seq<Byte>, j: nat) returns (same: bool)
    requires i < |a| && j < |b| && Wire(a[i..]) && Wire(b[j..])
    ensures same == SameLabel(a[i..], b[j..])
  {
    hide Wire, Fold, Label, ToLower;
    var len: int := a[i];
    if len > MAX_DOMAIN_LABEL { return false; }
    if len != b[j] { return false; }
    LabelBytes(a, i);
    LabelBytes(b, j);
    ghost var s, t := Label(a[i..])[1..], Label(b[j..])[1..];
    var k := 0;
    while k < len
      invariant 0 <= k <= len && |s| == |t| == len
      invariant forall l :: 0 <= l < k ==> Fold(s)[l] == Fold(t)[l]
    {
      assert s[k] == a[i + 1 + k] && t[k] == b[j + 1 + k];
      if ToLower(a[i + 1 + k]) != ToLower(b[j + 1 + k]) {
        assert Fold(s)[k] != Fold(t)[k];
        return false;
      }
      k := k + 1;
    }
    same := true;
  }

  lemma LabelBytes(a: seq<Byte>, i: nat)
    requires i < |a| && Wire(a[i..])
    ensures i + 1 + a[i] <= |a| && Label(a[i..])[1..] == a[i + 1..i + 1 + a[i]]
  {
  }

  lemma NextLabel(a: seq<Byte>, i: nat)
    requires i < |a| && Wire(a[i..]) && a[i] != 0
    ensures i + 1 + a[i] < |a| && a[i + 1 + a[i]..] == Parent(a[i..])
  {
  }

  /** `SameDomainName` */
  method SameDomainName(d1: seq<Byte>, d2: seq<Byte>) returns (same: bool)
    requires Wire(d1) && Wire(d2)
    ensures same == SameFrom(d1, d2, 0)
  {
    hide Wire, SameLabel, SameFrom;
    var a: nat, b: nat := 0, 0;
    assert d1[0..] == d1 && d2[0..] == d2;
    while d1[a] != 0 || d2[b] != 0
      invariant a < |d1| && b < |d2| && Wire(d1[a..]) && Wire(d2[b..])
      invariant SameFrom(d1, d2, 0) == SameFrom(d1[a..], d2[b..], a)
      decreases |d1| - a
    {
      SameOnce(d1[a..], d2[b..], a);
      if a + 1 + d1[a] >= MAX_DOMAIN_NAME { return false; }
      var sameLabel := SameDomainLabel(d1, a, d2, b);
      if !sameLabel { return false; }
      SameLength(d1[a..], d2[b..]);
      NextLabel(d1, a);
      NextLabel(d2, b);
      a := a + 1 + d1[a];
      b := b + 1 + d2[b];
    }
    SameOnce(d1[a..], d2[b..], a);
    same := true;
  }

  lemma SameOnce(a: seq<Byte>, b: seq<Byte>, used: nat)
    requires Wire(a) && Wire(b)
    ensures a[0] == 0 && b[0] == 0 ==> SameFrom(a, b, used)
    ensures a[0] != 0 || b[0] != 0 ==>
            if used + 1 + a[0] >= MAX_DOMAIN_NAME || !SameLabel(a, b) then !SameFrom(a, b, used)
            else a[0] != 0 && b[0] != 0 && SameFrom(a, b, used) == SameFrom(Parent(a), Parent(b), used + 1 + a[0])
  {
    hide Wire, Fold, Label;
  }

  lemma SameLength(a: seq<Byte>, b: seq<Byte>)
    requires Wire(a) && Wire(b) && SameLabel(a, b)
    ensures a[0] == b[0]
  {
  }

  /** `DomainNameHashValue` */
  method DomainNameHashValue(name: seq<Byte>) returns (sum: bv32)
    requires Wire(name)
    ensures sum == HashOf(name, 0)
  {
    hide Mix, MixLast;
    sum := 0;
    var c := 0;
    LastIsRoot(name);
    assert name[0..] == name;
    while name[c] != 0 && name[c + 1] != 0
      invariant 0 <= c < |name| && HashOf(name, 0) == HashOf(name[c..], sum)
      decreases |name| - c
    {
      assert name[c..][2..] == name[c + 2..];
      sum := Mix(sum, ToLower(name[c]), ToLower(name[c + 1]));
      c := c + 2;
    }
    if name[c] != 0 {
      sum := MixLast(sum, ToLower(name[c]));
    }
  }

  lemma {:induction false} LastIsRoot(name: seq<Byte>)
    requires Wire(name)
    ensures name[|name| - 1] == 0
    decreases |name|
  {
    if name[0] != 0 {
      LastIsRoot(Parent(name));
    }
  }
}
