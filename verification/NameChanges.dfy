/** What is read back of a name when bytes of the message have changed since it was put: counts in the header, or the
    length of a record's data, that the search for pointers had looked at. */
module NameChanges {
  import opened Wrappers
  import opened Slices
  import opened Bits
  import opened DomainNames
  import opened NameRoundTrip

  /** The name that is read at a place. */
  predicate Spells(m: seq<Byte>, at: nat, end: nat, name: seq<Byte>)
    requires at < end < |m|
  {
    GetName(m, at, end, []) == Some(name)
  }

  /** Reading does not depend on what has been read before, as long as there is room for the name. */
  lemma {:induction false} ReadAfter(m: seq<Byte>, at: nat, end: nat, a: seq<Byte>, b: seq<Byte>, s: seq<Byte>)
    requires at < end < |m| && |a| < MAX_DOMAIN_NAME && |b| < MAX_DOMAIN_NAME && |b| + |s| <= MAX_DOMAIN_NAME
    requires GetName(m, at, end, a) == Some(a + s)
    ensures GetName(m, at, end, b) == Some(b + s)
    decreases MAX_DOMAIN_NAME - |a|, m[at] >= POINTER_BITS
  {
    hide GetName, Legal;
    GetOnce(m, at, end, a);
    GetOnce(m, at, end, b);
    var len := m[at];
    if len == 0 {
      assert (a + s)[|a|..] == (a + [0])[|a|..];
    } else if len < LABEL_LIMIT {
      var l := m[at..at + 1 + len];
      AcceptedIsLegal(m, at + 1 + len, end, a + l);
      var s' := (a + s)[|a + l|..];
      assert a + s == a + l + s';
      assert s == l + s' by { assert (a + s)[|a|..] == s && (a + l + s')[|a|..] == l + s'; }
      Associate(a, l, s');
      Associate(b, l, s');
      ReadAfter(m, at + 1 + len, end, a + l, b + l, s');
    } else if len >= POINTER_BITS {
      PointerAhead(len, m[at + 1]);
      ReadAfter(m, Offset(len, m[at + 1]), end, a, b, s);
    }
  }

  /** Reading after a label. */
  lemma SpellsAfter(m: seq<Byte>, t: nat, end: nat, l: seq<Byte>, rest: seq<Byte>)
    requires t < end < |m| && rest != [] && |l| + |rest| <= MAX_DOMAIN_NAME
    ensures GetName(m, t, end, l) == Some(l + rest) <==> Spells(m, t, end, rest)
  {
    hide GetName;
    var none: seq<Byte> := [];
    assert none + rest == rest;
    if GetName(m, t, end, l) == Some(l + rest) { ReadAfter(m, t, end, l, none, rest); }
    if Spells(m, t, end, rest) { ReadAfter(m, t, end, none, l, rest); }
  }

  /** Where a label stands, the name is read if and only if the rest of it is read after the label. */
  lemma SpellsLabel(m: seq<Byte>, at: nat, end: nat, name: seq<Byte>)
    requires Wire(name) && 0 < name[0] <= MAX_DOMAIN_LABEL && |name| <= MAX_DOMAIN_NAME
    requires at + 1 + name[0] < end < |m| && m[at..at + 1 + name[0]] == Label(name)
    ensures Spells(m, at, end, name) <==> Spells(m, at + 1 + name[0], end, Parent(name))
  {
    hide GetName, Wire, Label, Parent, ShortLabels;
    GetLabel(m, at, end, name, []);
    assert [] + Label(name) == Label(name);
    SpellsAfter(m, at + 1 + name[0], end, Label(name), Parent(name));
  }

  /** A name that is read starts with the label that stands there. */
  lemma StartsWithLabel(m: seq<Byte>, at: nat, end: nat, name: seq<Byte>)
    requires at < end < |m| && m[at] < LABEL_LIMIT && Spells(m, at, end, name)
    ensures m[at] == 0 ==> name == [0]
    ensures at + 1 + m[at] <= |m| && 1 + m[at] <= |name| && name[..1 + m[at]] == m[at..at + 1 + m[at]]
  {
    hide GetName, Legal;
    GetOnce(m, at, end, []);
    var none: seq<Byte> := [];
    if m[at] == 0 {
      assert none + [0] == [0];
    } else {
      var l := none + m[at..at + 1 + m[at]];
      assert l == m[at..at + 1 + m[at]];
      AcceptedIsLegal(m, at + 1 + m[at], end, l);
    }
  }

  /** No other label gives the name. */
  lemma OtherLabel(m: seq<Byte>, at: nat, end: nat, name: seq<Byte>)
    requires Wire(name) && 0 < name[0] <= MAX_DOMAIN_LABEL && |name| <= MAX_DOMAIN_NAME
    requires at + 1 + name[0] < end < |m| && m[at] < LABEL_LIMIT && m[at..at + 1 + name[0]] != Label(name)
    ensures !Spells(m, at, end, name)
  {
    hide GetName, Wire, Spells;
    if Spells(m, at, end, name) {
      StartsWithLabel(m, at, end, name);
    }
  }

  /**
   The match of a name in `g` holds in `f` as well: each label is as it was; and so is what follows it, or there is
   something else now that spells the rest of the name too.
   */
  predicate Survives(g: seq<Byte>, at: nat, name: seq<Byte>, f: seq<Byte>, fend: nat)
    requires Wire(name) && name[0] != 0 && fend < |f|
    decreases |name|
  {
    var t, rest := at + 1 + name[0], Parent(name);
    && t < |g| && t < fend && f[at..t] == g[at..t]
    && if rest[0] != 0 && Unchanged(g, f, t) then Survives(g, NextLabel(g, t), rest, f, fend) else Spells(f, t, fend, rest)
  }

  lemma SurvivesStep(g: seq<Byte>, end: nat, at: nat, name: seq<Byte>, f: seq<Byte>, fend: nat)
    requires Wire(name) && name[0] != 0 && end < |g| && Match(g, end, at, name).Some? && end < fend < |f|
    ensures var t, rest := at + 1 + name[0], Parent(name);
            && t <= end && (rest[0] != 0 ==> t + 1 < end && (g[t] >= LABEL_LIMIT ==> g[t] >= POINTER_BITS))
            && (rest[0] != 0 ==> NextLabel(g, t) <= t && g[NextLabel(g, t)] < LABEL_LIMIT
                                 && Match(g, end, NextLabel(g, t), rest) == Match(g, end, at, name))
            && (Survives(g, at, name, f, fend) <==>
                && f[at..t] == g[at..t]
                && if rest[0] != 0 && Unchanged(g, f, t) then Survives(g, NextLabel(g, t), rest, f, fend)
                   else Spells(f, t, fend, rest))
  {
    hide Match, Wire, Label, Spells;
    MatchStep(g, end, at, name);
  }

  /** At a label, the name is read if and only if the match survives. */
  lemma {:induction false} SurvivesRead(g: seq<Byte>, end: nat, at: nat, name: seq<Byte>, f: seq<Byte>, fend: nat)
    requires Wire(name) && name[0] != 0 && end < |g| && Match(g, end, at, name).Some? && end < fend < |f|
    requires ShortLabels(name) && |name| <= MAX_DOMAIN_NAME && g[at] < LABEL_LIMIT
    ensures at < end
    ensures Survives(g, at, name, f, fend) ==> f[at] < LABEL_LIMIT
    ensures f[at] < LABEL_LIMIT ==> (Spells(f, at, fend, name) <==> Survives(g, at, name, f, fend))
    decreases |name|
  {
    hide Match, Wire, Label, Spells, Survives;
    MatchStep(g, end, at, name);
    SurvivesStep(g, end, at, name, f, fend);
    Shorter(name);
    var t, rest := at + 1 + name[0], Parent(name);
    if f[at..t] != g[at..t] {
      if f[at] < LABEL_LIMIT { OtherLabel(f, at, fend, name); }
    } else {
      LabelHead(g, at, name);
      LabelHead(f, at, name);
      SpellsLabel(f, at, fend, name);
      if rest[0] != 0 && Unchanged(g, f, t) {
        SurvivesRead(g, end, NextLabel(g, t), rest, f, fend);
        SpellsNext(g, f, t, fend, rest);
      }
    }
  }

  lemma SpellsNext(g: seq<Byte>, f: seq<Byte>, t: nat, fend: nat, rest: seq<Byte>)
    requires t + 1 < fend < |f| && t + 1 < |g| && (g[t] >= LABEL_LIMIT ==> g[t] >= POINTER_BITS) && Unchanged(g, f, t)
    requires NextLabel(g, t) <= t
    ensures Spells(f, t, fend, rest) <==> f[NextLabel(g, t)] < LABEL_LIMIT && Spells(f, NextLabel(g, t), fend, rest)
  {
    hide GetName;
    GetOnce(f, t, fend, []);
  }

  /** What a name comes to in a message: a pointer for the last part of it, or labels only. */
  datatype Compressed = Labels | Via(before: seq<Byte>, place: nat, tail: seq<Byte>)

  /** The pointer that is written, what it is written for, and the message at that time. */
  function Pointed(m: seq<Byte>, compress: bool, searchLimit: nat, ptr: nat, limit: nat, name: seq<Byte>): (c: Compressed)
    requires searchLimit <= ptr && limit <= |m| && Wire(name)
    ensures c.Via? ==> |c.before| == |m| && searchLimit < |m| && Wire(c.tail) && c.tail[0] != 0
    ensures c.Via? ==> Match(c.before, searchLimit, c.place, c.tail).Some?
    decreases |name|
  {
    if name[0] == 0 || ptr >= limit - 1 then Labels
    else if UsesPointer(m, compress, searchLimit, ptr, limit, name) then
      FoundMatches(m, searchLimit, name);
      Via(m, Found(m, searchLimit, name).value, name)
    else if ptr + 1 + name[0] >= limit then Labels
    else Pointed(Splice(m, ptr, Label(name)), compress, searchLimit, ptr + 1 + name[0], limit, Parent(name))
  }

  /** The name that the pointer was written for is still spelt where it leads. */
  predicate Intact(m: seq<Byte>, compress: bool, searchLimit: nat, ptr: nat, limit: nat, name: seq<Byte>,
                   later: seq<Byte>, laterEnd: nat)
    requires searchLimit <= ptr && limit <= |m| && Wire(name) && searchLimit < laterEnd < |later|
  {
    match Pointed(m, compress, searchLimit, ptr, limit, name)
    case Labels => true
    case Via(g, r, tail) => Survives(g, r, tail, later, laterEnd)
  }

  lemma IntactCopied(m: seq<Byte>, compress: bool, searchLimit: nat, ptr: nat, limit: nat, name: seq<Byte>, used: nat,
                     later: seq<Byte>, laterEnd: nat)
    requires searchLimit <= ptr && limit <= |m| && Wire(name) && searchLimit < laterEnd < |later|
    requires CopiesLabel(m, compress, searchLimit, ptr, limit, name, used)
    ensures var m1, t, rest := Splice(m, ptr, Label(name)), ptr + 1 + name[0], Parent(name);
            && Pointed(m, compress, searchLimit, ptr, limit, name) == Pointed(m1, compress, searchLimit, t, limit, rest)
            && (Cut(m, compress, searchLimit, ptr, limit, name) <==> Cut(m1, compress, searchLimit, t, limit, rest))
            && (Intact(m, compress, searchLimit, ptr, limit, name, later, laterEnd)
                <==> Intact(m1, compress, searchLimit, t, limit, rest, later, laterEnd))
  {
    hide Wire, Label, Splice, Found, Survives;
  }

  /** What was put is read back, whatever has changed but its own bytes: if and only if it was not cut and is intact. */
  lemma {:induction false} ChangedRead(m: seq<Byte>, compress: bool, searchLimit: nat, ptr: nat, limit: nat,
                                       name: seq<Byte>, later: seq<Byte>, laterEnd: nat, used: nat)
    requires searchLimit <= ptr && limit <= |m| && limit <= MESSAGE_LIMIT && Wire(name)
    requires ShortLabels(name) && used + |name| <= MAX_DOMAIN_NAME
    requires var w := PutName(m, compress, searchLimit, ptr, limit, name, used);
             w.Put? && w.next <= laterEnd < |later| && |m| <= |later| && later[ptr..w.next] == w.message[ptr..w.next]
    ensures Spells(later, ptr, laterEnd, name)
            <==> !Cut(m, compress, searchLimit, ptr, limit, name)
                 && Intact(m, compress, searchLimit, ptr, limit, name, later, laterEnd)
    decreases |name|, 1
  {
    hide Match, Wire, Label, Found, Splice, PutName, PointerTo, Spells, Intact, Cut;
    PutCases(m, compress, searchLimit, ptr, limit, name, used);
    var w := PutName(m, compress, searchLimit, ptr, limit, name, used);
    if CopiesLabel(m, compress, searchLimit, ptr, limit, name, used) {
      CopiedChanged(m, compress, searchLimit, ptr, limit, name, later, laterEnd, used);
    } else if UsesPointer(m, compress, searchLimit, ptr, limit, name) {
      PointerChanged(m, compress, searchLimit, ptr, limit, name, later, laterEnd);
    } else {
      RootChanged(m, compress, searchLimit, ptr, limit, name, later, laterEnd);
    }
  }

  lemma CopiedChanged(m: seq<Byte>, compress: bool, searchLimit: nat, ptr: nat, limit: nat,
                      name: seq<Byte>, later: seq<Byte>, laterEnd: nat, used: nat)
    requires searchLimit <= ptr && limit <= |m| && limit <= MESSAGE_LIMIT && Wire(name)
    requires ShortLabels(name) && used + |name| <= MAX_DOMAIN_NAME
    requires CopiesLabel(m, compress, searchLimit, ptr, limit, name, used)
    requires var w := PutName(m, compress, searchLimit, ptr, limit, name, used);
             w.Put? && w.next <= laterEnd < |later| && |m| <= |later| && later[ptr..w.next] == w.message[ptr..w.next]
    ensures Spells(later, ptr, laterEnd, name)
            <==> !Cut(m, compress, searchLimit, ptr, limit, name)
                 && Intact(m, compress, searchLimit, ptr, limit, name, later, laterEnd)
    decreases |name|, 0
  {
    hide Match, Wire, ShortLabels, Label, Found, Splice, PutName, Spells, Intact, Cut;
    PutCases(m, compress, searchLimit, ptr, limit, name, used);
    var w := PutName(m, compress, searchLimit, ptr, limit, name, used);
    var m1, t, rest := Splice(m, ptr, Label(name)), ptr + 1 + name[0], Parent(name);
    Shorter(name);
    Narrower(w.message, later, ptr, w.next, t, w.next);
    ChangedRead(m1, compress, searchLimit, t, limit, rest, later, laterEnd, used + 1 + name[0]);
    PutKeeps(m1, compress, searchLimit, t, limit, rest, used + 1 + name[0]);
    Narrower(w.message, later, ptr, w.next, ptr, t);
    SameSlice(m1, w.message, t, ptr, t);
    SpellsLabel(later, ptr, laterEnd, name);
    IntactCopied(m, compress, searchLimit, ptr, limit, name, used, later, laterEnd);
  }

  lemma PointerChanged(m: seq<Byte>, compress: bool, searchLimit: nat, ptr: nat, limit: nat, name: seq<Byte>,
                       later: seq<Byte>, laterEnd: nat)
    requires searchLimit <= ptr && limit <= |m| && limit <= MESSAGE_LIMIT && Wire(name)
    requires ShortLabels(name) && |name| <= MAX_DOMAIN_NAME && UsesPointer(m, compress, searchLimit, ptr, limit, name)
    requires ptr + 2 <= laterEnd < |later| && |m| <= |later|
    requires later[ptr..ptr + 2] == Splice(m, ptr, PointerTo(Found(m, searchLimit, name).value))[ptr..ptr + 2]
    ensures !Cut(m, compress, searchLimit, ptr, limit, name)
    ensures Spells(later, ptr, laterEnd, name) <==> Intact(m, compress, searchLimit, ptr, limit, name, later, laterEnd)
  {
    hide Match, Wire, Label, Found, Splice, PutName, PointerTo, Survives, GetName, Offset;
    var r := Found(m, searchLimit, name).value;
    FoundMatches(m, searchLimit, name);
    MatchStep(m, searchLimit, r, name);
    Shorter(name);
    LabelHead(m, r, name);
    SurvivesRead(m, searchLimit, r, name, later, laterEnd);
    assert later[ptr] == later[ptr..ptr + 2][0] && later[ptr + 1] == later[ptr..ptr + 2][1];
    assert later[ptr..ptr + 2] == PointerTo(r);
    PointerParts(r);
    GetOnce(later, ptr, laterEnd, []);
  }

  lemma PointerParts(r: nat)
    requires r < MESSAGE_LIMIT
    ensures var p := PointerTo(r); Offset(p[0], p[1]) == r && p[0] >= POINTER_BITS
  {
  }

  lemma RootChanged(m: seq<Byte>, compress: bool, searchLimit: nat, ptr: nat, limit: nat, name: seq<Byte>,
                    later: seq<Byte>, laterEnd: nat)
    requires searchLimit <= ptr < limit <= |m| && Wire(name) && (name[0] == 0 || ptr == limit - 1)
    requires ptr < laterEnd < |later| && later[ptr..ptr + 1] == Splice(m, ptr, [0])[ptr..ptr + 1]
    ensures Intact(m, compress, searchLimit, ptr, limit, name, later, laterEnd)
    ensures Spells(later, ptr, laterEnd, name) <==> !Cut(m, compress, searchLimit, ptr, limit, name)
  {
    hide GetName;
    if name[0] == 0 { RootOnly(name); }
    assert later[ptr] == later[ptr..ptr + 1][0];
    GetOnce(later, ptr, laterEnd, []);
    assert [] + [0] == [0];
  }

  /** A legal name that was put is read back at any later time if and only if it was not cut and its pointer is intact. */
  lemma PutThenGetChanged(m: seq<Byte>, compress: bool, ptr: nat, limit: nat, name: seq<Byte>,
                          later: seq<Byte>, laterEnd: nat)
    requires limit <= |m| && limit <= MESSAGE_LIMIT && Legal(name)
    requires var w := PutName(m, compress, ptr, ptr, limit, name, 0);
             w.Put? && w.next <= laterEnd < |later| && |m| <= |later| && later[ptr..w.next] == w.message[ptr..w.next]
    ensures GetName(later, ptr, laterEnd, []) == Some(name)
            <==> !Cut(m, compress, ptr, ptr, limit, name) && Intact(m, compress, ptr, ptr, limit, name, later, laterEnd)
    ensures SkipName(later, ptr, laterEnd, 0) == Some(PutName(m, compress, ptr, ptr, limit, name, 0).next)
  {
    hide GetName, PutName, SkipName, Cut, Intact;
    ChangedRead(m, compress, ptr, ptr, limit, name, later, laterEnd, 0);
    var w := PutName(m, compress, ptr, ptr, limit, name, 0);
    var before := w.message[..ptr] + later[ptr..];
    assert before[ptr..] == later[ptr..];
    assert before[..w.next] == w.message[..ptr] + later[ptr..w.next];
    assert w.message[..w.next] == w.message[..ptr] + w.message[ptr..w.next];
    SkipPut(m, compress, ptr, ptr, limit, name, before, laterEnd, 0);
    SkipAbove(later, before, ptr, laterEnd, 0, ptr);
  }

  /** A match within the message survives if nothing has changed of what it looked at. */
  lemma {:induction false} KeptSurvives(g: seq<Byte>, end: nat, at: nat, name: seq<Byte>, f: seq<Byte>, fend: nat)
    requires Wire(name) && name[0] != 0 && end < |g| && Match(g, end, at, name).Some? && end < fend < |f|
    requires Match(g, end, at, name).value < end && Kept(g, end, at, name, f)
    ensures Survives(g, at, name, f, fend)
    decreases |name|
  {
    hide Match, Wire, Label, Spells, Survives;
    MatchStep(g, end, at, name);
    SurvivesStep(g, end, at, name, f, fend);
    var t, rest := at + 1 + name[0], Parent(name);
    if rest[0] != 0 {
      KeptSurvives(g, end, NextLabel(g, t), rest, f, fend);
    } else {
      RootSpelt(f, t, fend, rest);
    }
  }

  lemma RootSpelt(f: seq<Byte>, t: nat, fend: nat, rest: seq<Byte>)
    requires t < fend < |f| && f[t] == 0 && Wire(rest) && rest[0] == 0
    ensures Spells(f, t, fend, rest)
  {
    RootOnly(rest);
    assert [] + [0] == [0];
  }

  /** Only the match of a whole name can end with the stale byte: after a label it is the length of that label. */
  lemma {:induction false} PointedWithin(m: seq<Byte>, compress: bool, searchLimit: nat, ptr: nat, limit: nat, name: seq<Byte>)
    requires searchLimit < ptr && limit <= |m| && Wire(name) && searchLimit < |m| && m[searchLimit] != 0
    ensures var c := Pointed(m, compress, searchLimit, ptr, limit, name);
            c.Via? ==> Match(c.before, searchLimit, c.place, c.tail).value < searchLimit
    decreases |name|
  {
    hide Match, Wire, Label, Found, Splice;
    if name[0] != 0 && ptr < limit - 1 && !UsesPointer(m, compress, searchLimit, ptr, limit, name)
       && ptr + 1 + name[0] < limit {
      var m1 := Splice(m, ptr, Label(name));
      SameElement(m, m1, ptr, searchLimit);
      PointedWithin(m1, compress, searchLimit, ptr + 1 + name[0], limit, Parent(name));
    }
  }

  /** All that the match of the pointer looked at is as it was. */
  predicate AllKept(m: seq<Byte>, compress: bool, ptr: nat, limit: nat, name: seq<Byte>, later: seq<Byte>)
    requires limit <= |m| && Wire(name)
  {
    match Pointed(m, compress, ptr, ptr, limit, name)
    case Labels => true
    case Via(g, r, tail) => Kept(g, ptr, r, tail, later)
  }

  lemma KeptIntact(m: seq<Byte>, compress: bool, ptr: nat, limit: nat, name: seq<Byte>, later: seq<Byte>, laterEnd: nat)
    requires limit <= |m| && limit <= MESSAGE_LIMIT && Wire(name) && ptr < laterEnd < |later|
    requires AllKept(m, compress, ptr, limit, name, later) && !Stale(m, compress, ptr, limit, name)
    ensures Intact(m, compress, ptr, ptr, limit, name, later, laterEnd)
  {
    hide Match, Wire, Pointed, Survives, Kept, Stale;
    match Pointed(m, compress, ptr, ptr, limit, name)
    case Labels =>
    case Via(g, r, tail) =>
      FreshWithin(m, compress, ptr, limit, name);
      KeptSurvives(g, ptr, r, tail, later, laterEnd);
  }

  lemma FreshWithin(m: seq<Byte>, compress: bool, ptr: nat, limit: nat, name: seq<Byte>)
    requires limit <= |m| && Wire(name) && !Stale(m, compress, ptr, limit, name)
    ensures var c := Pointed(m, compress, ptr, ptr, limit, name);
            c.Via? ==> Match(c.before, ptr, c.place, c.tail).value < ptr
  {
    hide Match, Wire, Label, Found, Splice;
    if name[0] != 0 && ptr < limit - 1 && !UsesPointer(m, compress, ptr, ptr, limit, name) && ptr + 1 + name[0] < limit {
      var m1 := Splice(m, ptr, Label(name));
      LabelStands(m, ptr, name);
      PointedWithin(m1, compress, ptr, ptr + 1 + name[0], limit, Parent(name));
    }
  }

  lemma LabelStands(m: seq<Byte>, ptr: nat, name: seq<Byte>)
    requires Wire(name) && name[0] != 0 && ptr + 1 + name[0] <= |m|
    ensures Splice(m, ptr, Label(name))[ptr] != 0
  {
    hide Label, Wire;
    LabelHead(Splice(m, ptr, Label(name)), ptr, name);
  }

  /** If nothing has changed of what the match looked at, the name is read back unless it was stale or cut. */
  lemma PutThenGetKept(m: seq<Byte>, compress: bool, ptr: nat, limit: nat, name: seq<Byte>,
                       later: seq<Byte>, laterEnd: nat)
    requires limit <= |m| && limit <= MESSAGE_LIMIT && Legal(name)
    requires var w := PutName(m, compress, ptr, ptr, limit, name, 0);
             w.Put? && w.next <= laterEnd < |later| && |m| <= |later| && later[ptr..w.next] == w.message[ptr..w.next]
    requires AllKept(m, compress, ptr, limit, name, later)
    ensures GetName(later, ptr, laterEnd, []) == Some(name)
            <==> !Stale(m, compress, ptr, limit, name) && !Cut(m, compress, ptr, ptr, limit, name)
  {
    hide GetName, PutName, Stale, Cut, Intact, AllKept;
    if Stale(m, compress, ptr, limit, name) {
      StalePointed(m, compress, ptr, limit, name, later);
      StaleLost(m, compress, ptr, limit, name, later, laterEnd);
    } else {
      PutThenGetChanged(m, compress, ptr, limit, name, later, laterEnd);
      KeptIntact(m, compress, ptr, limit, name, later, laterEnd);
    }
  }

  lemma StalePointed(m: seq<Byte>, compress: bool, ptr: nat, limit: nat, name: seq<Byte>, later: seq<Byte>)
    requires limit <= |m| && Wire(name) && Stale(m, compress, ptr, limit, name) && AllKept(m, compress, ptr, limit, name, later)
    ensures Kept(m, ptr, Found(m, ptr, name).value, name, later)
  {
    hide Match, Wire, Found, Kept;
  }

  /** The match does not look at the bytes from `lo` to `hi`. */
  predicate Clear(g: seq<Byte>, at: nat, name: seq<Byte>, lo: nat, hi: nat)
    requires Wire(name) && name[0] != 0
    decreases |name|
  {
    var t, rest := at + 1 + name[0], Parent(name);
    && (t <= lo || hi <= at) && !(lo <= t < hi)
    && (rest[0] != 0 && t < |g| ==>
        && (g[t] >= POINTER_BITS ==> !(lo <= t + 1 < hi))
        && Clear(g, NextLabel(g, t), rest, lo, hi))
  }

  lemma {:induction false} ClearKept(g: seq<Byte>, end: nat, at: nat, name: seq<Byte>, f: seq<Byte>, lo: nat, hi: nat)
    requires Wire(name) && name[0] != 0 && end < |g| && Match(g, end, at, name).Some? && end < |f|
    requires lo <= hi <= end && f[..lo] == g[..lo] && f[hi..end] == g[hi..end] && Clear(g, at, name, lo, hi)
    ensures Kept(g, end, at, name, f)
    decreases |name|
  {
    hide Match, Wire, Label;
    MatchStep(g, end, at, name);
    var t, rest := at + 1 + name[0], Parent(name);
    if t <= lo { SameSlice(g, f, lo, at, t); } else { Narrower(g, f, hi, end, at, t); }
    if t < end { OneByte(g, f, end, lo, hi, t); }
    if rest[0] != 0 {
      if g[t] >= POINTER_BITS { OneByte(g, f, end, lo, hi, t + 1); }
      ClearKept(g, end, NextLabel(g, t), rest, f, lo, hi);
    }
  }

  lemma OneByte(g: seq<Byte>, f: seq<Byte>, end: nat, lo: nat, hi: nat, i: nat)
    requires end < |g| && end < |f| && lo <= hi <= end && f[..lo] == g[..lo] && f[hi..end] == g[hi..end]
    requires i < end && !(lo <= i < hi)
    ensures f[i] == g[i]
  {
    if i < lo { SameElement(g, f, lo, i); } else { assert f[i] == f[hi..end][i - hi] && g[i] == g[hi..end][i - hi]; }
  }
}
