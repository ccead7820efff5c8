/** The loops that write a name as text, and read it. */
module NameTextCodec {
  import opened Wrappers
  import opened Slices
  import opened Bits
  import opened Characters
  import opened DomainNames
  import opened NameText

  /** One pass of the loop of `ConvertDomainLabelToCString_withescape`. */
  method PutEscaped(text: array<Byte>, ptr: nat, c: Byte) returns (next: nat)
    requires ptr + 4 < text.Length
    modifies text
    ensures next == ptr + |Escaped(c)| && text[..next] == old(text[..ptr]) + Escaped(c)
  {
    next := ptr;
    var last: Byte := c;
    if c == DOT || c == ESCAPE {
      text[next] := ESCAPE;
      next := next + 1;
    } else if c <= SPACE {
      text[next] := ESCAPE;
      text[next + 1] := Digit(c / 100);
      text[next + 2] := Digit(c / 10 % 10);
      next := next + 3;
      last := Digit(c % 10);
    }
    text[next] := last;
    next := next + 1;
  }

  /** `ConvertDomainLabelToCString_withescape`, with a backslash for the escape, on a legal label. */
  method ConvertLabel(name: seq<Byte>, src: nat, text: array<Byte>, start: nat) returns (ptr: nat)
    requires src < |name| && name[src] <= MAX_DOMAIN_LABEL && src + 1 + name[src] <= |name|
    requires start + 4 * name[src] + 1 < text.Length
    modifies text
    ensures start <= ptr <= start + 4 * name[src] < text.Length && text[ptr] == 0
    ensures text[..ptr] == old(text[..start]) + EscapedAll(name[src + 1..src + 1 + name[src]])
  {
    hide Escaped;
    var len: int := name[src];
    var i := 0;
    ptr := start;
    ghost var data := name[src + 1..src + 1 + len];
    assert data[..0] == [];
    while i < len
      invariant 0 <= i <= len && start <= ptr <= start + 4 * i
      invariant text[..ptr] == old(text[..start]) + EscapedAll(data[..i])
    {
      assert data[..i + 1][..i] == data[..i];
      Associate(old(text[..start]), EscapedAll(data[..i]), Escaped(data[i]));
      ptr := PutEscaped(text, ptr, name[src + 1 + i]);
      i := i + 1;
    }
    assert data[..len] == data;
    ghost var done := text[..ptr];
    text[ptr] := 0;
    assert text[..ptr] == done;
  }

  /** A label and its dot. */
  method ConvertWithDot(name: seq<Byte>, src: nat, text: array<Byte>, start: nat) returns (ptr: nat)
    requires src < |name| && name[src] <= MAX_DOMAIN_LABEL && src + 1 + name[src] <= |name|
    requires start + 4 * name[src] + 1 < text.Length
    modifies text
    ensures start <= ptr <= start + 4 * name[src] + 1 < text.Length
    ensures text[..ptr] == old(text[..start]) + (EscapedAll(name[src + 1..src + 1 + name[src]]) + [DOT])
  {
    hide EscapedAll;
    ptr := ConvertLabel(name, src, text, start);
    text[ptr] := DOT;
    ptr := ptr + 1;
  }

  /** `ConvertDomainNameToCString_withescape`: fails exactly on the names that are not legal. */
  method ConvertDomainNameToCString(name: seq<Byte>, text: array<Byte>) returns (next: Option<nat>)
    requires Wire(name) && text.Length >= MAX_ESCAPED_DOMAIN_NAME
    modifies text
    ensures next.Some? <==> Legal(name)
    ensures next.Some? ==> next.value == |Text(name)| + 1 <= text.Length && text[..next.value] == Text(name) + [0]
  {
    hide Wire, ShortLabels, EscapedAll, Label, LabelText;
    var src: nat, ptr: nat := 0, 0;
    ghost var labels := 0;
    assert name[0..] == name;
    if name[src] == 0 {
      RootHere(name);
      text[0], text[1] := DOT, 0;
      assert text[..2] == [DOT] + [0];
      return Some(2);
    }
    assert text[..0] + LabelText(name) == LabelText(name);
    while name[src] != 0
      invariant src < |name| && Wire(name[src..]) && src <= NAME_LIMIT && ptr <= 4 * (src - labels) + labels
      invariant 0 <= labels && src - labels <= MAX_DOMAIN_LABEL * labels
      invariant ptr <= text.Length && LabelText(name) == text[..ptr] + LabelText(name[src..])
      invariant ShortLabels(name) == ShortLabels(name[src..])
      decreases |name| - src
    {
      Unfold(name, src);
      if src + 1 + name[src] >= MAX_DOMAIN_NAME { return None; }
      if name[src] > MAX_DOMAIN_LABEL { return None; }
      var n: int := name[src];
      Bound(src - labels + n, labels + 1);
      ghost var done, piece := text[..ptr], EscapedAll(name[src + 1..src + 1 + n]) + [DOT];
      ptr := ConvertWithDot(name, src, text, ptr);
      src := src + (1 + n);
      labels := labels + 1;
      Associate(done, piece, LabelText(name[src..]));
    }
    RootHere(name[src..]);
    Bound(src - labels, labels);
    assert text[..ptr] + [] == text[..ptr];
    ghost var done := text[..ptr];
    text[ptr] := 0;
    ptr := ptr + 1;
    assert text[..ptr] == done + [0];
    next := Some(ptr);
  }

  lemma RootHere(name: seq<Byte>)
    requires Wire(name) && name[0] == 0
    ensures name == [0] && LabelText(name) == [] && ShortLabels(name)
  {
  }

  /** The label at a place in a name. */
  lemma Unfold(name: seq<Byte>, src: nat)
    requires src < |name| && Wire(name[src..]) && name[src] != 0
    ensures src + 1 + name[src] < |name| && Wire(name[src + 1 + name[src]..])
    ensures LabelText(name[src..])
            == EscapedAll(name[src + 1..src + 1 + name[src]]) + [DOT] + LabelText(name[src + 1 + name[src]..])
    ensures ShortLabels(name[src..]) <==> name[src] <= MAX_DOMAIN_LABEL && ShortLabels(name[src + 1 + name[src]..])
  {
    hide EscapedAll;
    var here := name[src..];
    assert Label(here)[1..] == name[src + 1..src + 1 + name[src]];
    assert Parent(here) == name[src + 1 + name[src]..];
  }

  /** Reads one byte of a label; there is a NUL character where the text ends. */
  method NextByte(text: seq<Byte>, start: nat) returns (c: Byte, cstr: nat)
    requires start < |text|
    ensures start < cstr <= |text| && ReadByte(text[start..]) == Read(c, text[cstr..])
  {
    c := text[start];
    cstr := start + 1;
    ghost var here, rest := text[start..], text[cstr..];
    assert here[1..] == rest;
    if c == ESCAPE && cstr < |text| {
      assert rest[1..] == text[cstr + 1..];
      if text[cstr] == ESCAPE || text[cstr] == DOT {
        c := text[cstr];
        cstr := cstr + 1;
      } else if cstr + 2 < |text| && IsDigit(text[cstr]) && IsDigit(text[cstr + 1]) && IsDigit(text[cstr + 2]) {
        var val := Decimal(text[cstr], text[cstr + 1], text[cstr + 2]);
        assert rest[3..] == text[cstr + 3..];
        if val <= 255 {
          c := val;
          cstr := cstr + 3;
        }
      }
    }
  }

  /** The inner loop of `AppendDNSNameString`. */
  method AppendLabel(name: array<Byte>, first: nat, text: seq<Byte>, start: nat) returns (ptr: nat, cstr: nat)
    requires name.Length == MAX_DOMAIN_NAME + 1 && first <= NAME_LIMIT && start <= |text|
    modifies name
    ensures first <= ptr <= NAME_LIMIT && start <= cstr <= |text|
    ensures name[..first] == old(name[..first])
    ensures ReadLabel(text[start..], NAME_LIMIT - first) == Read(name[first..ptr], text[cstr..])
  {
    hide ReadByte;
    ptr, cstr := first, start;
    assert name[first..ptr] == [];
    assert [] + ReadLabel(text[cstr..], NAME_LIMIT - ptr).value == ReadLabel(text[cstr..], NAME_LIMIT - ptr).value;
    while cstr < |text| && text[cstr] != DOT && ptr < NAME_LIMIT
      invariant first <= ptr <= NAME_LIMIT && start <= cstr <= |text|
      invariant name[..first] == old(name[..first])
      invariant var r := ReadLabel(text[cstr..], NAME_LIMIT - ptr);
                ReadLabel(text[start..], NAME_LIMIT - first) == Read(name[first..ptr] + r.value, r.rest)
      decreases |text| - cstr
    {
      ghost var here, done := text[cstr..], name[first..ptr];
      var c;
      c, cstr := NextByte(text, cstr);
      name[ptr] := c;
      ptr := ptr + 1;
      assert name[first..ptr] == done + [c];
      Associate(done, [c], ReadLabel(text[cstr..], NAME_LIMIT - ptr).value);
    }
    assert name[first..ptr] + [] == name[first..ptr];
  }

  /** `AppendDNSNameString`, to a name whose root label stands at `start`. */
  method AppendDNSNameString(name: array<Byte>, start: nat, text: seq<Byte>) returns (next: Option<nat>)
    requires name.Length == MAX_DOMAIN_NAME + 1 && start <= NAME_LIMIT && 0 !in text
    modifies name
    ensures match Parse(text, old(name[..start]))
            case None => next == None
            case Some(n) => next == Some(|n|) && name[..|n|] == n
  {
    hide ReadLabel;
    var ptr: nat, cstr: nat := start, 0;
    ghost var result := Parse(text, name[..start]);
    assert text[0..] == text;
    while cstr < |text| && ptr < NAME_LIMIT
      invariant ptr <= NAME_LIMIT && cstr <= |text| && Parse(text[cstr..], name[..ptr]) == result
      decreases |text| - cstr, NAME_LIMIT - ptr
    {
      ghost var before, here := name[..ptr], text[cstr..];
      var lengthByte := ptr;
      ptr, cstr := AppendLabel(name, ptr + 1, text, cstr);
      ghost var data := name[lengthByte + 1..ptr];
      assert name[..lengthByte] == before by { SameSlice(before + [name[lengthByte]], name[..], lengthByte, 0, lengthByte); }
      ghost var rest := text[cstr..];
      if cstr < |text| {
        cstr := cstr + 1;
        assert rest[1..] == text[cstr..];
      }
      if ptr - lengthByte - 1 > MAX_DOMAIN_LABEL { return None; }
      name[lengthByte] := ptr - lengthByte - 1;
      assert name[..ptr] == before + [|data|] + data;
    }
    ghost var done := name[..ptr];
    name[ptr] := 0;
    assert name[..ptr + 1] == done + [0];
    next := if cstr < |text| then None else Some(ptr + 1);
  }
}
