/**
 Domain names as text, with the escapes of section 5.1 of RFC 1035: a backslash before a dot or a backslash,
 and before three decimal digits that stand for any byte.
 */
module NameText {
  import opened Wrappers
  import opened Slices
  import opened Bits
  import opened Characters
  import opened DomainNames

  const DOT: Byte := '.' as int
  const ESCAPE: Byte := '\\' as int
  const SPACE: Byte := ' ' as int

  /** With the NUL character at the end. */
  const MAX_ESCAPED_DOMAIN_NAME := 1005

  /** The labels of a name must end before this place. */
  const NAME_LIMIT := 254

  function Digit(d: int): (c: Byte)
    requires 0 <= d < 10
    ensures IsDigit(c)
  {
    '0' as int + d
  }

  /** What is written for one byte of a label. */
  function Escaped(c: Byte): (s: seq<Byte>)
    ensures 1 <= |s| <= 4 && 0 !in s && s[0] != DOT
  {
    if c == DOT || c == ESCAPE then [ESCAPE, c]
    else if c <= SPACE then [ESCAPE, Digit(c / 100), Digit(c / 10 % 10), Digit(c % 10)]
    else [c]
  }

  function EscapedAll(data: seq<Byte>): (s: seq<Byte>)
    ensures |data| <= |s| <= 4 * |data| && 0 !in s
  {
    if data == [] then [] else EscapedAll(data[..|data|-1]) + Escaped(data[|data|-1])
  }

  /** The text of the labels of a name, each with a dot after it. */
  function LabelText(name: seq<Byte>): (s: seq<Byte>)
    requires Wire(name)
    ensures 0 !in s
    decreases |name|
  {
    if name[0] == 0 then [] else EscapedAll(Label(name)[1..]) + [DOT] + LabelText(Parent(name))
  }

  /** The root is written as one dot. */
  function Text(name: seq<Byte>): (s: seq<Byte>)
    requires Wire(name)
    ensures 0 !in s
  {
    if name[0] == 0 then [DOT] else LabelText(name)
  }

  datatype Read<T> = Read(value: T, rest: seq<Byte>)

  /** One byte of a label, and the text after it. */
  function ReadByte(text: seq<Byte>): (r: Read<Byte>)
    requires text != []
    ensures |r.rest| < |text|
  {
    var c, rest := text[0], text[1..];
    if c != ESCAPE || rest == [] then Read(c, rest)
    else if rest[0] == ESCAPE || rest[0] == DOT then Read(rest[0], rest[1..])
    else if |rest| >= 3 && IsDigit(rest[0]) && IsDigit(rest[1]) && IsDigit(rest[2])
            && Decimal(rest[0], rest[1], rest[2]) <= 255
    then Read(Decimal(rest[0], rest[1], rest[2]), rest[3..])
    else Read(c, rest)
  }

  function Decimal(a: int, b: int, c: int): (v: int)
    requires IsDigit(a) && IsDigit(b) && IsDigit(c)
    ensures v >= 0
  {
    (a - 48) * 100 + (b - 48) * 10 + (c - 48)
  }

  /** The bytes up to a dot, the end, or the end of the room for them. */
  function ReadLabel(text: seq<Byte>, room: nat): (r: Read<seq<Byte>>)
    ensures |r.value| <= room && |r.rest| <= |text|
    decreases |text|
  {
    if text == [] || text[0] == DOT || room == 0 then Read([], text)
    else
      var b := ReadByte(text);
      var r := ReadLabel(b.rest, room - 1);
      Read([b.value] + r.value, r.rest)
  }

  /** The bytes of a name in its buffer with its root label, or `None` if there is an illegal label or too much text. */
  function Parse(text: seq<Byte>, name: seq<Byte>): (r: Option<seq<Byte>>)
    requires |name| <= NAME_LIMIT
    ensures r.Some? ==> |name| < |r.value| <= MAX_DOMAIN_NAME
    decreases |text|
  {
    if text == [] then Some(name + [0])
    else if |name| >= NAME_LIMIT then None
    else
      var r := ReadLabel(text, NAME_LIMIT - |name| - 1);
      if |r.value| > MAX_DOMAIN_LABEL then None
      else if r.rest == [] then Some(name + [|r.value|] + r.value + [0])
      else Parse(r.rest[1..], name + [|r.value|] + r.value)
  }

  /** An escaped byte is read back. */
  lemma EscapedIsRead(c: Byte, rest: seq<Byte>)
    ensures ReadByte(Escaped(c) + rest) == Read(c, rest)
  {
    var s := Escaped(c) + rest;
    if c == DOT || c == ESCAPE {
      assert s[1..][1..] == rest;
    } else if c <= SPACE {
      assert s[1..][3..] == rest;
    } else {
      assert s[1..] == rest;
    }
  }

  /** An escaped label is read back, up to a dot or the end of the text, or as far as there is room. */
  lemma {:induction false} LabelIsRead(data: seq<Byte>, tail: seq<Byte>, room: nat)
    requires |data| <= room && (tail == [] || tail[0] == DOT || |data| == room)
    ensures ReadLabel(EscapedAll(data) + tail, room) == Read(data, tail)
  {
    hide Escaped, ReadByte;
    if data == [] {
      assert EscapedAll(data) + tail == tail;
    } else {
      hide EscapedAll;
      EscapedFirst(data);
      var more := EscapedAll(data[1..]);
      var s := Escaped(data[0]) + (more + tail);
      Associate(Escaped(data[0]), more, tail);
      EscapedIsRead(data[0], more + tail);
      LabelIsRead(data[1..], tail, room - 1);
      assert s[0] == Escaped(data[0])[0];
      assert [data[0]] + data[1..] == data;
    }
  }

  lemma {:induction false} EscapedFirst(data: seq<Byte>)
    requires data != []
    ensures EscapedAll(data) == Escaped(data[0]) + EscapedAll(data[1..])
  {
    hide Escaped;
    var n := |data| - 1;
    if n == 0 {
      assert data[..0] == [] && data[1..] == [];
    } else {
      EscapedFirst(data[..n]);
      assert data[..n][1..] == data[1..][..n - 1];
      Associate(Escaped(data[0]), EscapedAll(data[1..][..n - 1]), Escaped(data[n]));
    }
  }

  /** The text of a legal name, read into a buffer that holds labels already, adds the name. */
  lemma {:induction false} LabelsAreRead(name: seq<Byte>, before: seq<Byte>)
    requires Wire(name) && ShortLabels(name) && |before| + |name| <= MAX_DOMAIN_NAME
    ensures Parse(LabelText(name), before) == Some(before + name)
    decreases |name|
  {
    hide EscapedAll, ReadLabel, Parse, LabelText;
    if name[0] == 0 {
      assert name == [0];
      NothingToParse(before);
      NoLabels(name);
    } else {
      var data, rest := Label(name)[1..], Parent(name);
      var more := LabelText(rest);
      assert rest != [];
      LabelIsRead(data, [DOT] + more, NAME_LIMIT - |before| - 1);
      LabelTextStep(name);
      ParseLabel(LabelText(name), before, data, more);
      assert [|data|] + data == Label(name);
      Associate(before, [|data|], data);
      LabelsAreRead(rest, before + Label(name));
      Associate(before, Label(name), rest);
    }
  }

  lemma LabelTextStep(name: seq<Byte>)
    requires Wire(name) && name[0] != 0
    ensures LabelText(name) == EscapedAll(Label(name)[1..]) + ([DOT] + LabelText(Parent(name)))
    ensures LabelText(name) != []
  {
    hide EscapedAll, Wire;
    Associate(EscapedAll(Label(name)[1..]), [DOT], LabelText(Parent(name)));
  }

  lemma NoLabels(name: seq<Byte>)
    requires Wire(name) && name[0] == 0
    ensures LabelText(name) == []
  {
  }

  lemma NothingToParse(name: seq<Byte>)
    requires |name| <= NAME_LIMIT
    ensures Parse([], name) == Some(name + [0])
  {
  }

  lemma ParseLabel(text: seq<Byte>, name: seq<Byte>, data: seq<Byte>, rest: seq<Byte>)
    requires text != [] && |name| + 1 + |data| <= NAME_LIMIT && |data| <= MAX_DOMAIN_LABEL
    requires ReadLabel(text, NAME_LIMIT - |name| - 1) == Read(data, [DOT] + rest)
    ensures Parse(text, name) == Parse(rest, name + [|data|] + data)
  {
    hide ReadLabel;
    assert ([DOT] + rest)[1..] == rest;
  }

  /** The text of every legal name, whatever its bytes, is read back as that name. */
  lemma TextIsRead(name: seq<Byte>)
    requires Legal(name)
    ensures var r := Parse(Text(name), []);
            && r.Some? && |name| <= |r.value| && r.value[..|name|] == name
            && (name[0] != 0 ==> r.value == name)
  {
    if name[0] == 0 {
      assert name == [0];
      assert ReadLabel([DOT], NAME_LIMIT - 1) == Read([], [DOT]);
      assert [DOT][1..] == [];
      var none: seq<Byte> := [];
      assert Parse([], none + [0] + none) == Some(none + [0] + none + [0]);
    } else {
      LabelsAreRead(name, []);
      assert [] + name == name;
    }
  }

  /** The text of a name other than the root, without the dot at its end. */
  function Dotless(name: seq<Byte>): (s: seq<Byte>)
    requires Wire(name) && name[0] != 0
    ensures s + [DOT] == Text(name)
  {
    LastDot(name);
    var t := Text(name);
    assert t[..|t| - 1] + [t[|t| - 1]] == t;
    t[..|t| - 1]
  }

  lemma {:induction false} LastDot(name: seq<Byte>)
    requires Wire(name) && name[0] != 0
    ensures LabelText(name) != [] && LabelText(name)[|LabelText(name)| - 1] == DOT
    decreases |name|
  {
    hide EscapedAll;
    LabelTextStep(name);
    var rest := Parent(name);
    if rest[0] != 0 { LastDot(rest); } else { NoLabels(rest); }
  }

  /** One label and the text of the labels after it, without a dot at the end. */
  lemma DotlessStep(name: seq<Byte>)
    requires Wire(name) && name[0] != 0
    ensures var data, rest := Label(name)[1..], Parent(name);
            Dotless(name) == EscapedAll(data) + if rest[0] == 0 then [] else [DOT] + Dotless(rest)
  {
    LabelTextStep(name);
    hide EscapedAll, LabelText;
    var data, rest := Label(name)[1..], Parent(name);
    if rest[0] == 0 {
      NoLabels(rest);
      assert EscapedAll(data) + ([DOT] + []) == EscapedAll(data) + [DOT];
    } else {
      assert EscapedAll(data) + ([DOT] + (Dotless(rest) + [DOT])) == EscapedAll(data) + ([DOT] + Dotless(rest)) + [DOT];
    }
  }

  /**
   The text of a legal name without the dot at its end is read, too. If the name fills the buffer, so is that text with
   one more character, which is lost.
   */
  lemma {:induction false} DotlessIsRead(name: seq<Byte>, before: seq<Byte>, tail: seq<Byte>)
    requires Wire(name) && ShortLabels(name) && name[0] != 0 && |before| + |name| <= MAX_DOMAIN_NAME
    requires tail == [] || (|before| + |name| == MAX_DOMAIN_NAME && |tail| == 1 && tail[0] != DOT)
    ensures Parse(Dotless(name) + tail, before) == Some(before + name)
    decreases |name|
  {
    hide Parse, LabelText, Dotless, Wire, ShortLabels, Label;
    ShortHead(name);
    if Parent(name)[0] == 0 { DotlessEnd(name, before, tail); } else {
      DotlessOn(name, before, tail);
      DotlessIsRead(Parent(name), before + Label(name), tail);
    }
  }

  lemma ShortHead(name: seq<Byte>)
    requires Wire(name) && ShortLabels(name) && name[0] != 0
    ensures Parent(name) != [] && name[0] <= MAX_DOMAIN_LABEL && ShortLabels(Parent(name))
    ensures Label(name)[0] == name[0] && |Label(name)| == 1 + name[0] && Label(name) + Parent(name) == name
    ensures Parent(name)[0] == 0 ==> Parent(name) == [0]
  {
  }

  /** The last label, in letters. */
  lemma LastLabelIsRead(data: seq<Byte>, before: seq<Byte>, tail: seq<Byte>)
    requires 0 < |data| <= MAX_DOMAIN_LABEL && |before| + 1 + |data| <= NAME_LIMIT
    requires tail == [] || (|before| + 1 + |data| == NAME_LIMIT && |tail| == 1 && tail[0] != DOT)
    ensures Parse(EscapedAll(data) + tail, before) == Some(before + [|data|] + data + [0])
  {
    hide EscapedAll, ReadLabel, Parse;
    LabelIsRead(data, tail, NAME_LIMIT - |before| - 1);
    ParseLast(EscapedAll(data) + tail, before, data, tail);
  }

  lemma DotlessEnd(name: seq<Byte>, before: seq<Byte>, tail: seq<Byte>)
    requires Wire(name) && ShortLabels(name) && name[0] != 0 && |before| + |name| <= MAX_DOMAIN_NAME
    requires Parent(name) == [0]
    requires tail == [] || (|before| + |name| == MAX_DOMAIN_NAME && |tail| == 1 && tail[0] != DOT)
    ensures Parse(Dotless(name) + tail, before) == Some(before + name)
  {
    hide EscapedAll, Parse, LabelText, Dotless, Wire, ShortLabels, Label;
    ShortHead(name);
    var data: seq<Byte> := Label(name)[1..];
    assert Dotless(name) == EscapedAll(data) by {
      DotlessStep(name);
      assert EscapedAll(data) + [] == EscapedAll(data);
    }
    LastLabelIsRead(data, before, tail);
    assert before + [|data|] + data + [0] == before + name by { Rejoined(before, Label(name)); }
  }

  lemma Rejoined(before: seq<Byte>, l: seq<Byte>)
    requires l != [] && l[0] == |l| - 1
    ensures before + [|l[1..]|] + l[1..] + [0] == before + (l + [0])
  {
  }

  lemma DotlessOn(name: seq<Byte>, before: seq<Byte>, tail: seq<Byte>)
    requires Wire(name) && ShortLabels(name) && name[0] != 0 && |before| + |name| <= MAX_DOMAIN_NAME
    requires Parent(name) != [] && Wire(Parent(name)) && Parent(name)[0] != 0
    ensures |before + Label(name)| <= NAME_LIMIT && before + Label(name) + Parent(name) == before + name
    ensures Parse(Dotless(name) + tail, before) == Parse(Dotless(Parent(name)) + tail, before + Label(name))
  {
    hide EscapedAll, ReadLabel, Parse, LabelText, Dotless, Wire, ShortLabels, Label;
    ShortHead(name);
    var data, rest := Label(name)[1..], Parent(name);
    DotlessStep(name);
    var more := Dotless(rest) + tail;
    Associate(EscapedAll(data), [DOT] + Dotless(rest), tail);
    Associate([DOT], Dotless(rest), tail);
    LabelIsRead(data, [DOT] + more, NAME_LIMIT - |before| - 1);
    ParseLabel(Dotless(name) + tail, before, data, more);
    assert [|data|] + data == Label(name);
    Associate(before, [|data|], data);
    Associate(before, Label(name), rest);
  }

  /** The end of the text, or one character for which there is no room. */
  lemma ParseLast(text: seq<Byte>, name: seq<Byte>, data: seq<Byte>, tail: seq<Byte>)
    requires text != [] && |name| + 1 + |data| <= NAME_LIMIT && |data| <= MAX_DOMAIN_LABEL
    requires ReadLabel(text, NAME_LIMIT - |name| - 1) == Read(data, tail)
    requires tail == [] || (|tail| == 1 && |name| + 1 + |data| == NAME_LIMIT)
    ensures Parse(text, name) == Some(name + [|data|] + data + [0])
  {
    hide ReadLabel;
    if tail != [] { NothingToParse(name + [|data|] + data); }
  }

  /** What callers rely on: a name may be given without a dot at its end. */
  lemma TextWithoutDotIsRead(name: seq<Byte>)
    requires Legal(name) && name[0] != 0
    ensures Dotless(name) + [DOT] == Text(name) && Parse(Dotless(name), []) == Some(name)
  {
    DotlessIsRead(name, [], []);
    assert Dotless(name) + [] == Dotless(name);
    assert [] + name == name;
  }

  /** What they do not: one character too many is lost without notice. */
  lemma LastCharacterLost(name: seq<Byte>, c: Byte)
    requires Legal(name) && |name| == 255 && c != DOT
    ensures Parse(Dotless(name) + [c], []) == Some(name)
  {
    DotlessIsRead(name, [], [c]);
    assert [] + name == name;
  }

  /** A byte that is printed as it is. */
  predicate IsPlain(c: Byte) {
    c > 32 && c != 46 && c != 92
  }

  predicate AllPlain(data: seq<Byte>) {
    forall i :: 0 <= i < |data| ==> IsPlain(data[i])
  }

  /** No spaces and no control characters. */
  predicate Printable(s: seq<Byte>) {
    forall i :: 0 <= i < |s| ==> s[i] > 32
  }

  lemma EscapedIsPrintable(c: Byte)
    ensures Printable(Escaped(c)) && (IsPlain(c) ==> Escaped(c) == [c])
  {
  }

  /** Bytes that need no escape are written without one; and all that is written can be printed. */
  lemma {:induction false} PlainIsItself(data: seq<Byte>)
    ensures Printable(EscapedAll(data)) && (AllPlain(data) ==> EscapedAll(data) == data)
  {
    hide Escaped, IsPlain;
    if data != [] {
      var n := |data| - 1;
      PlainIsItself(data[..n]);
      EscapedIsPrintable(data[n]);
      if AllPlain(data) { assert data == data[..n] + [data[n]]; }
    }
  }

  /** Three digits after a backslash are any byte that they spell, and nothing but themselves if they spell more. */
  lemma DecimalIsRead(v: int, rest: seq<Byte>)
    requires 0 <= v <= 999
    ensures var s: seq<Byte> := [92, 48 + v / 100, 48 + v / 10 % 10, 48 + v % 10] + rest;
            ReadByte(s) == if v <= 255 then Read(v, rest) else Read(92, s[1..])
  {
    var s: seq<Byte> := [92, 48 + v / 100, 48 + v / 10 % 10, 48 + v % 10] + rest;
    assert s[1..][3..] == rest;
    assert v == 100 * (v / 100) + 10 * (v / 10 % 10) + v % 10;
  }

  /** The data bytes and the labels of a name. */
  function DataBytes(name: seq<Byte>): (d: nat)
    requires Wire(name)
    ensures d + Labels(name) + 1 == |name|
    ensures ShortLabels(name) ==> d <= MAX_DOMAIN_LABEL * Labels(name)
    decreases |name|
  {
    if name[0] == 0 then 0 else name[0] + DataBytes(Parent(name))
  }

  function Labels(name: seq<Byte>): nat
    requires Wire(name)
    decreases |name|
  {
    if name[0] == 0 then 0 else 1 + Labels(Parent(name))
  }

  lemma {:induction false} LabelTextLength(name: seq<Byte>)
    requires Wire(name)
    ensures |LabelText(name)| <= 4 * DataBytes(name) + Labels(name)
    decreases |name|
  {
    hide EscapedAll;
    if name[0] != 0 { LabelTextLength(Parent(name)); }
  }

  /** The text of a legal name fits into the buffer that callers are told to provide. */
  lemma TextFits(name: seq<Byte>)
    requires Legal(name)
    ensures |Text(name)| + 1 <= 1005
  {
    hide LabelText;
    LabelTextLength(name);
    Bound(DataBytes(name), Labels(name));
  }

  lemma Bound(d: int, labels: int)
    requires d + labels <= NAME_LIMIT && d <= MAX_DOMAIN_LABEL * labels && labels >= 0
    ensures 4 * d + labels <= 1004
  {
  }
}
