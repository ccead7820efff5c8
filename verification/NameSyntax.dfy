/**
 What any text spells: letters between unescaped dots, the last label with or without a dot after it. The reader takes
 one character too many when a name is full.
 */
module NameSyntax {
  import opened Wrappers
  import opened Slices
  import opened Bits
  import opened DomainNames
  import opened NameText

  /** A dot between labels, a character that stands for itself, and an escape for a byte. */
  datatype Letter = Separator | Plain(c: Byte) | Escape(c: Byte)

  /** A backslash and three digits, for 255 at most. */
  predicate IsDecimal(text: seq<Byte>) {
    && |text| >= 4 && text[0] == 92
    && 48 <= text[1] <= 57 && 48 <= text[2] <= 57 && 48 <= text[3] <= 57
    && Hundreds(text[1] - 48, text[2] - 48, text[3] - 48) <= 255
  }

  function Hundreds(a: int, b: int, c: int): int {
    100 * a + 10 * b + c
  }

  function Letters(text: seq<Byte>): (l: seq<Letter>)
    ensures l == [] <==> text == []
    decreases |text|
  {
    if text == [] then []
    else if text[0] == 46 then [Separator] + Letters(text[1..])
    else if text[0] == 92 && |text| >= 2 && (text[1] == 92 || text[1] == 46) then [Escape(text[1])] + Letters(text[2..])
    else if IsDecimal(text) then
      [Escape(Hundreds(text[1] - 48, text[2] - 48, text[3] - 48))] + Letters(text[4..])
    else [Plain(text[0])] + Letters(text[1..])
  }

  /** The first letters of a label, and no dot. */
  predicate Inner(l: seq<Letter>) {
    forall i :: 0 <= i < |l| ==> !l[i].Separator?
  }

  function Bytes(l: seq<Letter>): (s: seq<Byte>)
    requires Inner(l)
    ensures |s| == |l|
  {
    seq(|l|, i requires 0 <= i < |l| => l[i].c)
  }

  /** Where the first label ends. */
  function FirstEnd(l: seq<Letter>): (k: nat)
    ensures k <= |l| && Inner(l[..k]) && (k < |l| ==> l[k].Separator?)
  {
    if l == [] || l[0].Separator? then 0
    else
      var k := 1 + FirstEnd(l[1..]);
      assert forall i :: 1 <= i < k ==> l[i] == l[1..][..k - 1][i - 1];
      k
  }

  /** The labels, with an empty one after a dot at the end. */
  function Split(l: seq<Letter>): (s: seq<seq<Byte>>)
    ensures s != []
    decreases |l|
  {
    var k := FirstEnd(l);
    if k == |l| then [Bytes(l[..k])] else [Bytes(l[..k])] + Split(l[k + 1..])
  }

  /** The labels of a text: a dot at its end is no label. */
  function Labels(l: seq<Letter>): (s: seq<seq<Byte>>)
    ensures s == [] ==> l == []
  {
    var s := Split(l);
    assert l != [] ==> |s| > 1 || s[0] != [] by { SplitOnce(l); }
    if s[|s| - 1] == [] then s[..|s| - 1] else s
  }

  lemma SplitOnce(l: seq<Letter>)
    ensures var k := FirstEnd(l);
            Split(l) == if k == |l| then [Bytes(l[..k])] else [Bytes(l[..k])] + Split(l[k + 1..])
  {
  }

  predicate Short(labels: seq<seq<Byte>>) {
    forall i :: 0 <= i < |labels| ==> |labels[i]| <= 63
  }

  /** The bytes that labels take, each with a length in front. */
  function SizeOf(labels: seq<seq<Byte>>): nat {
    if labels == [] then 0 else 1 + |labels[0]| + SizeOf(labels[1..])
  }

  function Encoded(labels: seq<seq<Byte>>): (s: seq<Byte>)
    requires Short(labels)
    ensures |s| == SizeOf(labels)
  {
    if labels == [] then [] else [|labels[0]|] + labels[0] + Encoded(labels[1..])
  }

  /** The name is full when all letters but the last are in it, and the last is written as itself. */
  predicate OneTooMany(l: seq<Letter>, used: nat) {
    && l != [] && l[|l| - 1].Plain?
    && Short(Split(l[..|l| - 1])) && used + SizeOf(Split(l[..|l| - 1])) == 254
  }

  /** A name of these labels after the bytes of others. */
  function Named(before: seq<Byte>, labels: seq<seq<Byte>>): seq<Byte>
    requires Short(labels)
  {
    before + Encoded(labels) + [0]
  }

  /** What is made of letters, after the bytes of other labels. */
  function Spelt(l: seq<Letter>, before: seq<Byte>): Option<seq<Byte>> {
    if Short(Labels(l)) && |before| + SizeOf(Labels(l)) <= 254 then Some(Named(before, Labels(l)))
    else if OneTooMany(l, |before|) then Some(Named(before, Split(l[..|l| - 1])))
    else None
  }

  /** The first letter of a label, and what is left of the text. */
  lemma FirstLetter(text: seq<Byte>)
    requires text != [] && text[0] != 46
    ensures var b := ReadByte(text);
            var l := Letters(text);
            && !l[0].Separator? && l[0].c == b.value && l[1..] == Letters(b.rest)
            && (l[0].Plain? ==> b.rest == text[1..])
  {
  }

  /** What is read of a label, in letters. */
  lemma {:induction false} LabelLetters(text: seq<Byte>, room: nat)
    ensures var r, l := ReadLabel(text, room), Letters(text);
            var k := |r.value|;
            && k <= |l| && Inner(l[..k]) && r.value == Bytes(l[..k]) && Letters(r.rest) == l[k..]
            && (k == room || k == |l| || l[k].Separator?)
    decreases |text|
  {
    hide Letters, ReadByte;
    if text != [] && text[0] != DOT && room > 0 {
      FirstLetter(text);
      var b := ReadByte(text);
      LabelLetters(b.rest, room - 1);
      var r, l := ReadLabel(text, room), Letters(text);
      assert r.value == [b.value] + ReadLabel(b.rest, room - 1).value;
      var k := |r.value|;
      assert l[1..][..k - 1] == l[1..k];
      assert l[1..][k - 1..] == l[k..];
      assert forall i :: 1 <= i < k ==> l[i] == l[1..][..k - 1][i - 1];
    } else {
      FirstDot(text);
      assert Bytes(Letters(text)[..0]) == [];
      assert Letters(text)[0..] == Letters(text);
    }
  }

  lemma FirstDot(text: seq<Byte>)
    ensures text != [] && text[0] == 46 ==> Letters(text)[0] == Separator && Letters(text)[1..] == Letters(text[1..])
  {
  }

  lemma InnerFront(l: seq<Letter>, k: nat)
    requires k <= FirstEnd(l)
    ensures Inner(l[..k])
  {
    assert forall i :: 0 <= i < k ==> l[..k][i] == l[..FirstEnd(l)][i];
  }

  /** The reader, letter by letter. */
  function Filled(l: seq<Letter>, before: seq<Byte>): Option<seq<Byte>>
    requires |before| <= 254
    decreases |l|
  {
    if l == [] then Some(before + [0])
    else if |before| == 254 then None
    else
      var room := 253 - |before|;
      var k := if FirstEnd(l) <= room then FirstEnd(l) else room;
      InnerFront(l, k);
      if k > 63 then None
      else
        var next := before + [k] + Bytes(l[..k]);
        if k == |l| then Some(next + [0])
        else if l[k].Separator? then Filled(l[k + 1..], next)
        else if l[k].Plain? && |l| == k + 1 then Some(next + [0])
        else None
  }

  lemma InnerAt(l: seq<Letter>, k: nat, i: nat)
    requires i < k <= |l| && Inner(l[..k])
    ensures !l[i].Separator?
  {
    assert l[..k][i] == l[i];
  }

  /** No label reaches past its dot. */
  lemma EndIsFirst(l: seq<Letter>, k: nat)
    requires k <= |l| && Inner(l[..k])
    ensures k <= FirstEnd(l)
    ensures k < |l| && l[k].Separator? ==> FirstEnd(l) == k
  {
    hide Inner;
    var e := FirstEnd(l);
    hide FirstEnd;
    if e < k { InnerAt(l, k, e); }
    if k < e { InnerAt(l, e, k); }
  }

  lemma {:induction false} ParseFilled(text: seq<Byte>, before: seq<Byte>)
    requires |before| <= 254
    ensures Parse(text, before) == Filled(Letters(text), before)
    decreases |text|
  {
    hide Letters, ReadLabel, FirstEnd, Bytes;
    var l := Letters(text);
    if text != [] && |before| < 254 {
      var room := 253 - |before|;
      LabelLetters(text, room);
      var r := ReadLabel(text, room);
      var k := |r.value|;
      EndIsFirst(l, k);
      assert k == if FirstEnd(l) <= room then FirstEnd(l) else room;
      if k <= 63 && k < |l| {
        LastLetter(r.rest);
        if l[k].Separator? { assert l[k + 1..] == l[k..][1..]; }
        ParseFilled(r.rest[1..], before + [k] + r.value);
      }
    }
  }

  /** Where reading a label stopped. */
  lemma LastLetter(rest: seq<Byte>)
    requires rest != []
    ensures Letters(rest)[0].Separator? ==> Letters(rest)[1..] == Letters(rest[1..])
    ensures !Letters(rest)[0].Separator? ==> (Letters(rest)[0].Plain? && |Letters(rest)| == 1 <==> |rest| == 1)
  {
  }

  // The letters one by one, and the labels as a whole, come to the same.

  lemma {:induction false} SplitFront(l: seq<Letter>)
    requires l != []
    ensures var k, f := FirstEnd(l), l[..|l| - 1];
            && (k < |l| - 1 ==> FirstEnd(f) == k && f[..k] == l[..k] && f[k + 1..] == l[k + 1..][..|l| - k - 2])
            && (k == |l| ==> FirstEnd(f) == k - 1 && Split(f) == [Bytes(f)])
  {
    var k, f := FirstEnd(l), l[..|l| - 1];
    if k < |l| - 1 {
      assert f[..k] == l[..k];
      EndIsFirst(f, k);
    } else if k == |l| {
      assert forall i :: 0 <= i < |f| ==> f[i] == l[..k][i];
      assert f[..|f|] == f;
      EndIsFirst(f, |f|);
    }
  }

  lemma LabelsAfter(l: seq<Letter>, a: seq<Byte>, rest: seq<Letter>)
    requires Split(l) == [a] + Split(rest)
    ensures Labels(l) == [a] + Labels(rest)
  {
    hide Split;
    var s, q := Split(l), Split(rest);
    assert s[|s| - 1] == q[|q| - 1];
    assert s[..|s| - 1] == [a] + q[..|q| - 1];
  }

  /** The labels of letters in which there is a dot. */
  lemma LabelsOn(l: seq<Letter>)
    requires FirstEnd(l) < |l|
    ensures var k := FirstEnd(l); Labels(l) == [Bytes(l[..k])] + Labels(l[k + 1..])
  {
    SplitOnce(l);
    hide Split, Labels, Bytes, FirstEnd, Inner;
    LabelsAfter(l, Bytes(l[..FirstEnd(l)]), l[FirstEnd(l) + 1..]);
  }

  lemma Cons(first: seq<Byte>, rest: seq<seq<Byte>>)
    ensures var s := [first] + rest;
            && (Short(s) <==> |first| <= 63 && Short(rest))
            && SizeOf(s) == 1 + |first| + SizeOf(rest)
            && (Short(s) ==> Encoded(s) == [|first|] + first + Encoded(rest))
  {
    var s := [first] + rest;
    assert s[0] == first && s[1..] == rest;
    assert forall i :: 0 <= i < |rest| ==> rest[i] == s[i + 1];
  }

  lemma NamedCons(before: seq<Byte>, first: seq<Byte>, rest: seq<seq<Byte>>)
    requires |first| <= 63 && Short(rest)
    ensures Short([first] + rest) && Named(before, [first] + rest) == Named(before + [|first|] + first, rest)
  {
    Cons(first, rest);
    hide Encoded, Short;
    var n: seq<Byte> := [|first|];
    Associate(before, n, first);
    Associate(before, n + first, Encoded(rest));
  }

  /** The last label without a dot after it. */
  lemma LabelsEnd(l: seq<Letter>)
    requires l != [] && FirstEnd(l) == |l|
    ensures Inner(l) && Labels(l) == [Bytes(l)] && SizeOf(Labels(l)) == 1 + |l| && (Short(Labels(l)) <==> |l| <= 63)
    ensures |l| <= 63 ==> Encoded(Labels(l)) == [|l|] + Bytes(l)
  {
    assert l[..|l|] == l;
    Cons(Bytes(l), []);
  }

  /** Whether one letter is too many is settled in the last label. */
  lemma OneTooManyOn(l: seq<Letter>, used: nat)
    requires FirstEnd(l) < |l|
    ensures var k := FirstEnd(l);
            && (OneTooMany(l, used) <==> k <= 63 && OneTooMany(l[k + 1..], used + 1 + k))
            && (OneTooMany(l, used) ==>
                var rest := l[k + 1..]; Split(l[..|l| - 1]) == [Bytes(l[..k])] + Split(rest[..|rest| - 1]))
  {
    hide Bytes, FirstEnd, Inner, Split, Short, SizeOf;
    var k, rest := FirstEnd(l), l[FirstEnd(l) + 1..];
    if rest != [] {
      SplitFront(l);
      SplitOnce(l[..|l| - 1]);
      Cons(Bytes(l[..k]), Split(rest[..|rest| - 1]));
    }
  }

  lemma EndInner(l: seq<Letter>)
    requires l != [] && FirstEnd(l) == |l|
    ensures Inner(l) && Inner(l[..|l| - 1])
  {
    assert l[..|l|] == l;
  }

  lemma NoLabels()
    ensures Short([]) && SizeOf([]) == 0 && Encoded([]) == []
  {
  }

  lemma OneTooManyEnd(l: seq<Letter>, used: nat)
    requires l != [] && FirstEnd(l) == |l|
    ensures Inner(l[..|l| - 1])
    ensures OneTooMany(l, used) <==> l[|l| - 1].Plain? && |l| <= 64 && used + |l| == 254
    ensures OneTooMany(l, used) ==> Encoded(Split(l[..|l| - 1])) == [|l| - 1] + Bytes(l[..|l| - 1])
  {
    SplitFront(l);
    var f := l[..|l| - 1];
    assert Inner(f) by { EndInner(l); }
    hide Split, Bytes, FirstEnd, Inner, Short, SizeOf, Encoded;
    Cons(Bytes(f), []);
    assert [Bytes(f)] + [] == [Bytes(f)];
    NoLabels();
  }

  lemma FilledWithin(l: seq<Letter>, before: seq<Byte>)
    requires FirstEnd(l) < |l| && |before| + 1 + FirstEnd(l) <= 254
    ensures var k := FirstEnd(l);
            Filled(l, before) == if k > 63 then None else Filled(l[k + 1..], before + [k] + Bytes(l[..k]))
  {
    hide Bytes, FirstEnd, Inner;
  }

  lemma FilledBeyond(l: seq<Letter>, before: seq<Byte>)
    requires |before| <= 254 && FirstEnd(l) < |l| && |before| + 1 + FirstEnd(l) > 254
    ensures Filled(l, before) == None
  {
    hide Bytes, FirstEnd, Inner;
    var k, room := FirstEnd(l), 253 - |before|;
    if room >= 0 { InnerAt(l, k, room); }
  }

  lemma FilledDot(l: seq<Letter>, before: seq<Byte>)
    requires |before| <= 254 && FirstEnd(l) < |l|
    ensures var k := FirstEnd(l);
            Filled(l, before) == if |before| + 1 + k > 254 || k > 63 then None
                                 else Filled(l[k + 1..], before + [k] + Bytes(l[..k]))
  {
    hide Bytes, FirstEnd, Inner, Filled;
    if |before| + 1 + FirstEnd(l) <= 254 { FilledWithin(l, before); } else { FilledBeyond(l, before); }
  }

  lemma SpeltDot(l: seq<Letter>, before: seq<Byte>)
    requires |before| <= 254 && FirstEnd(l) < |l|
    ensures var k := FirstEnd(l);
            Spelt(l, before) == if |before| + 1 + k > 254 || k > 63 then None
                                else Spelt(l[k + 1..], before + [k] + Bytes(l[..k]))
  {
    hide Bytes, FirstEnd, Inner, Spelt, Labels, Split, OneTooMany;
    var k, rest := FirstEnd(l), l[FirstEnd(l) + 1..];
    var a := Bytes(l[..k]);
    LabelsOn(l);
    OneTooManyOn(l, |before|);
    if |before| + 1 + k > 254 || k > 63 {
      SpeltNone(l, before, a, rest);
    } else {
      SpeltOn(l, before, a, rest);
    }
  }

  /** The first label is too long. */
  lemma SpeltNone(l: seq<Letter>, before: seq<Byte>, a: seq<Byte>, rest: seq<Letter>)
    requires |before| <= 254 && Labels(l) == [a] + Labels(rest)
    requires OneTooMany(l, |before|) <==> |a| <= 63 && OneTooMany(rest, |before| + 1 + |a|)
    requires |before| + 1 + |a| > 254 || |a| > 63
    ensures Spelt(l, before) == None
  {
    hide Split, Labels, OneTooMany, Short, SizeOf, Named;
    Cons(a, Labels(rest));
    if OneTooMany(rest, |before| + 1 + |a|) { TooManyAtMost(rest, |before| + 1 + |a|); }
  }

  lemma SpeltOn(l: seq<Letter>, before: seq<Byte>, a: seq<Byte>, rest: seq<Letter>)
    requires |before| + 1 + |a| <= 254 && |a| <= 63 && Labels(l) == [a] + Labels(rest)
    requires OneTooMany(l, |before|) <==> OneTooMany(rest, |before| + 1 + |a|)
    requires OneTooMany(l, |before|) ==> Split(l[..|l| - 1]) == [a] + Split(rest[..|rest| - 1])
    ensures Spelt(l, before) == Spelt(rest, before + [|a|] + a)
  {
    hide Split, Labels, OneTooMany, Short, SizeOf, Named;
    Cons(a, Labels(rest));
    if Short(Labels(rest)) { NamedCons(before, a, Labels(rest)); }
    if OneTooMany(rest, |before| + 1 + |a|) {
      TooManyAtMost(rest, |before| + 1 + |a|);
      NamedCons(before, a, Split(rest[..|rest| - 1]));
    }
  }

  lemma TooManyAtMost(l: seq<Letter>, used: nat)
    requires OneTooMany(l, used)
    ensures used <= 254 && l != [] && Short(Split(l[..|l| - 1]))
  {
  }

  /** The last label, and what is made of it: it fits, or it is one letter too long, or it is refused. */
  lemma FilledEnd(l: seq<Letter>, before: seq<Byte>)
    requires |before| <= 254 && l != [] && FirstEnd(l) == |l|
    ensures Inner(l) && Inner(l[..|l| - 1])
    ensures Filled(l, before)
            == if |before| + 1 + |l| <= 254 && |l| <= 63 then Some(before + [|l|] + Bytes(l) + [0])
               else if |before| + |l| == 254 && |l| <= 64 && l[|l| - 1].Plain? then
                 Some(before + [|l| - 1] + Bytes(l[..|l| - 1]) + [0])
               else None
  {
    assert l[..|l|] == l;
    hide Bytes;
  }

  lemma SpeltEnd(l: seq<Letter>, before: seq<Byte>)
    requires |before| <= 254 && l != [] && FirstEnd(l) == |l|
    ensures Inner(l) && Inner(l[..|l| - 1])
    ensures Spelt(l, before)
            == if |before| + 1 + |l| <= 254 && |l| <= 63 then Some(before + [|l|] + Bytes(l) + [0])
               else if |before| + |l| == 254 && |l| <= 64 && l[|l| - 1].Plain? then
                 Some(before + [|l| - 1] + Bytes(l[..|l| - 1]) + [0])
               else None
  {
    LabelsEnd(l);
    OneTooManyEnd(l, |before|);
    hide Bytes, Split, Labels, Short, SizeOf, Encoded, FirstEnd, Inner, OneTooMany;
    if |l| <= 63 { Associate(before, [|l|], Bytes(l)); }
    if |l| <= 64 { Associate(before, [|l| - 1], Bytes(l[..|l| - 1])); }
  }

  lemma {:induction false} FilledSpelt(l: seq<Letter>, before: seq<Byte>)
    requires |before| <= 254
    ensures Filled(l, before) == Spelt(l, before)
    decreases |l|
  {
    hide Filled, Spelt, Bytes;
    if l == [] {
      NothingSpelt(before);
    } else if FirstEnd(l) < |l| {
      var k := FirstEnd(l);
      FilledDot(l, before);
      SpeltDot(l, before);
      if |before| + 1 + k <= 254 && k <= 63 { FilledSpelt(l[k + 1..], before + [k] + Bytes(l[..k])); }
    } else {
      FilledEnd(l, before);
      SpeltEnd(l, before);
    }
  }

  lemma NothingSpelt(before: seq<Byte>)
    requires |before| <= 254
    ensures Filled([], before) == Spelt([], before) == Some(before + [0])
  {
    assert Labels([]) == [];
    assert before + [] == before;
  }

  /** Whatever the text and the labels before it, this is what the reader makes of it. */
  lemma AnyTextIsRead(text: seq<Byte>, before: seq<Byte>)
    requires |before| <= 254
    ensures Parse(text, before) == Spelt(Letters(text), before)
  {
    hide Letters, Parse, Spelt, Filled;
    ParseFilled(text, before);
    FilledSpelt(Letters(text), before);
  }

  predicate NoneEmpty(labels: seq<seq<Byte>>) {
    forall i :: 0 <= i < |labels| ==> labels[i] != []
  }

  /** Labels of 1 to 63 bytes, no more than 254 with their lengths, make a legal name. */
  lemma {:induction false} EncodedIsLegal(labels: seq<seq<Byte>>)
    requires Short(labels) && NoneEmpty(labels)
    ensures var n := Encoded(labels) + [0];
            Wire(n) && ShortLabels(n) && (|n| <= 255 <==> Legal(n))
  {
    var n := Encoded(labels) + [0];
    if labels != [] {
      var rest := labels[1..];
      assert forall i :: 0 <= i < |rest| ==> rest[i] == labels[i + 1];
      EncodedIsLegal(rest);
      assert n[1 + |labels[0]|..] == Encoded(rest) + [0];
    }
  }

  /** And every legal name is made so. */
  lemma {:induction false} LegalIsEncoded(name: seq<Byte>) returns (labels: seq<seq<Byte>>)
    requires Wire(name) && ShortLabels(name)
    ensures Short(labels) && NoneEmpty(labels) && name == Encoded(labels) + [0]
    ensures Legal(name) ==> SizeOf(labels) <= 254
    decreases |name|
  {
    labels := [];
    if name[0] == 0 {
      assert name == Encoded([]) + [0];
    } else {
      var rest := LegalIsEncoded(Parent(name));
      var first := Label(name)[1..];
      labels := [first] + rest;
      Cons(first, rest);
      assert [|first|] + first == Label(name);
    }
  }
}
