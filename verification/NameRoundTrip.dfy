/** What is read back of a name put into a message, whatever is written after it. */
module NameRoundTrip {
  import opened Wrappers
  import opened Slices
  import opened Bits
  import opened DomainNames

  lemma LabelHead(m: seq<Byte>, at: nat, name: seq<Byte>)
    requires Wire(name) && name[0] != 0 && at + 1 + name[0] <= |m| && m[at..at + 1 + name[0]] == Label(name)
    ensures m[at] == name[0]
  {
    assert m[at..at + 1 + name[0]][0] == m[at];
  }

  /** Reading one label. */
  lemma GetLabel(m: seq<Byte>, at: nat, end: nat, name: seq<Byte>, read: seq<Byte>)
    requires Wire(name) && 0 < name[0] <= MAX_DOMAIN_LABEL && at + 1 + name[0] < end < |m|
    requires m[at..at + 1 + name[0]] == Label(name) && |read| + |name| <= MAX_DOMAIN_NAME
    ensures GetName(m, at, end, read) == GetName(m, at + 1 + name[0], end, read + Label(name))
  {
    hide Label, Wire;
    LabelHead(m, at, name);
    assert |name| >= 2 + name[0] by { assert Parent(name) != []; }
  }

  /** Following one pointer. */
  lemma GetPointer(m: seq<Byte>, at: nat, end: nat, offset: nat, read: seq<Byte>)
    requires at + 1 < end < |m| && m[at] >= POINTER_BITS && Offset(m[at], m[at + 1]) == offset < end
    requires m[offset] < LABEL_LIMIT && |read| < MAX_DOMAIN_NAME
    ensures GetName(m, at, end, read) == GetName(m, offset, end, read)
  {
  }

  /** A successful match within the message spells the name: read there, at any time later, it is the name. */
  lemma {:induction false} MatchSpells(m: seq<Byte>, end: nat, at: nat, name: seq<Byte>,
                                       later: seq<Byte>, laterEnd: nat, read: seq<Byte>)
    requires end < |m| && Wire(name) && name[0] != 0 && Match(m, end, at, name).Some?
    requires Match(m, end, at, name).value < end <= laterEnd < |later| && later[..end] == m[..end]
    requires ShortLabels(name) && |read| + |name| <= MAX_DOMAIN_NAME
    ensures at < end && GetName(later, at, laterEnd, read) == Some(read + name)
    decreases |name|
  {
    hide GetName, Label, Wire, Match;
    MatchStep(m, end, at, name);
    var t, rest := at + 1 + name[0], Parent(name);
    var read' := read + Label(name);
    Shorter(name);
    assert read + name == read' + rest;
    if rest[0] == 0 {
      RootHere(m, end, t, later, laterEnd, read', rest);
    } else if m[t] < LABEL_LIMIT {
      MatchSpells(m, end, t, rest, later, laterEnd, read');
    } else {
      var p := Offset(m[t], m[t + 1]);
      MatchSpells(m, end, p, rest, later, laterEnd, read');
      SameElement(m, later, end, p);
      SameElement(m, later, end, t);
      SameElement(m, later, end, t + 1);
      GetPointer(later, t, laterEnd, p, read');
    }
    SameSlice(m, later, end, at, t);
    GetLabel(later, at, laterEnd, name, read);
  }

  lemma Shorter(name: seq<Byte>)
    requires Wire(name) && name[0] != 0 && ShortLabels(name)
    ensures ShortLabels(Parent(name)) && name[0] <= MAX_DOMAIN_LABEL
  {
  }

  lemma RootHere(m: seq<Byte>, end: nat, at: nat, later: seq<Byte>, laterEnd: nat, read: seq<Byte>, root: seq<Byte>)
    requires at < end < |m| && m[at] == 0 && Wire(root) && root[0] == 0
    requires end <= laterEnd < |later| && later[..end] == m[..end] && |read| < MAX_DOMAIN_NAME
    ensures GetName(later, at, laterEnd, read) == Some(read + root)
  {
    SameElement(m, later, end, at);
    assert root == [0];
  }

  /** The branch of `PutName` that copies a label and goes on. */
  predicate CopiesLabel(m: seq<Byte>, compress: bool, searchLimit: nat, ptr: nat, limit: nat, name: seq<Byte>, used: nat)
    requires searchLimit <= ptr && limit <= |m| && Wire(name)
  {
    && name[0] != 0 && ptr < limit - 1 && name[0] <= MAX_DOMAIN_LABEL && used + 1 + name[0] < MAX_DOMAIN_NAME
    && !(compress && Found(m, searchLimit, name).Some?) && ptr + 1 + name[0] < limit
  }

  /** A pointer is written for the name at `ptr`. */
  predicate UsesPointer(m: seq<Byte>, compress: bool, searchLimit: nat, ptr: nat, limit: nat, name: seq<Byte>)
    requires searchLimit <= ptr && limit <= |m| && Wire(name)
  {
    compress && name[0] != 0 && ptr < limit - 1 && Found(m, searchLimit, name).Some?
  }

  /** The four ways `PutName` goes. */
  lemma PutCases(m: seq<Byte>, compress: bool, searchLimit: nat, ptr: nat, limit: nat, name: seq<Byte>, used: nat)
    requires searchLimit <= ptr && limit <= |m| && limit <= MESSAGE_LIMIT && Wire(name)
    ensures var w := PutName(m, compress, searchLimit, ptr, limit, name, used);
            if CopiesLabel(m, compress, searchLimit, ptr, limit, name, used) then
              w == PutName(Splice(m, ptr, Label(name)), compress, searchLimit, ptr + 1 + name[0], limit, Parent(name),
                           used + 1 + name[0])
            else if w.Full? then w == Full(m)
            else if UsesPointer(m, compress, searchLimit, ptr, limit, name) then
              w == Put(Splice(m, ptr, PointerTo(Found(m, searchLimit, name).value)), ptr + 2)
            else (name[0] == 0 || ptr == limit - 1) && w == Put(Splice(m, ptr, [0]), ptr + 1)
  {
    hide Wire, Found, Splice, PointerTo;
  }

  /** Nothing before the name is touched, nor anything after it. */
  lemma {:induction false} PutKeeps(m: seq<Byte>, compress: bool, searchLimit: nat, ptr: nat, limit: nat,
                                    name: seq<Byte>, used: nat)
    requires searchLimit <= ptr <= |m| && limit <= |m| && limit <= MESSAGE_LIMIT && Wire(name)
    ensures var w := PutName(m, compress, searchLimit, ptr, limit, name, used);
            w.message[..ptr] == m[..ptr] && (w.Put? ==> w.message[w.next..] == m[w.next..])
    decreases |name|
  {
    hide Wire, Found, PutName, Splice, Label, UsesPointer;
    PutCases(m, compress, searchLimit, ptr, limit, name, used);
    if CopiesLabel(m, compress, searchLimit, ptr, limit, name, used) {
      var m1, t := Splice(m, ptr, Label(name)), ptr + 1 + name[0];
      PutKeeps(m1, compress, searchLimit, t, limit, Parent(name), used + 1 + name[0]);
      var w := PutName(m1, compress, searchLimit, t, limit, Parent(name), used + 1 + name[0]);
      SameSlice(m1, w.message, t, 0, ptr);
      if w.Put? {
        SliceTail(m1, m, t, w.next);
      }
    }
  }

  /** The match found for the first label ends with the byte that stood at `ptr` before anything was put there. */
  predicate Stale(m: seq<Byte>, compress: bool, ptr: nat, limit: nat, name: seq<Byte>)
    requires limit <= |m| && Wire(name)
  {
    && UsesPointer(m, compress, ptr, ptr, limit, name)
    && Match(m, ptr, Found(m, ptr, name).value, name) == Some(ptr)
  }

  /** Room is left for one byte only, with labels still to come. */
  predicate Cut(m: seq<Byte>, compress: bool, searchLimit: nat, ptr: nat, limit: nat, name: seq<Byte>)
    requires searchLimit <= ptr && limit <= |m| && Wire(name)
    decreases |name|
  {
    name[0] != 0 &&
    (ptr >= limit - 1 ||
     (!UsesPointer(m, compress, searchLimit, ptr, limit, name) && ptr + 1 + name[0] < limit &&
      Cut(Splice(m, ptr, Label(name)), compress, searchLimit, ptr + 1 + name[0], limit, Parent(name))))
  }

  /** The name that is really put: labels are lost when the room is used up to the last byte. */
  function Carried(m: seq<Byte>, compress: bool, searchLimit: nat, ptr: nat, limit: nat, name: seq<Byte>): (c: seq<Byte>)
    requires searchLimit <= ptr && limit <= |m| && Wire(name)
    ensures c == name <==> |c| == |name|
    ensures |c| <= |name|
    decreases |name|
  {
    if name[0] == 0 then name
    else if ptr >= limit - 1 then [0]
    else if UsesPointer(m, compress, searchLimit, ptr, limit, name) then name
    else if ptr + 1 + name[0] >= limit then name
    else Label(name) +
         Carried(Splice(m, ptr, Label(name)), compress, searchLimit, ptr + 1 + name[0], limit, Parent(name))
  }

  lemma {:induction false} CarriedWhole(m: seq<Byte>, compress: bool, searchLimit: nat, ptr: nat, limit: nat, name: seq<Byte>)
    requires searchLimit <= ptr && limit <= |m| && Wire(name)
    ensures Carried(m, compress, searchLimit, ptr, limit, name) == name
            <==> !Cut(m, compress, searchLimit, ptr, limit, name)
    decreases |name|
  {
    hide UsesPointer, Wire, Splice, Label;
    if name[0] != 0 && ptr < limit - 1 && !UsesPointer(m, compress, searchLimit, ptr, limit, name)
       && ptr + 1 + name[0] < limit {
      CarriedWhole(Splice(m, ptr, Label(name)), compress, searchLimit, ptr + 1 + name[0], limit, Parent(name));
    } else if name[0] != 0 {
      assert Parent(name) != [];
    }
  }

  /** A name takes no more room than without compression. */
  lemma {:induction false} PutSize(m: seq<Byte>, compress: bool, searchLimit: nat, ptr: nat, limit: nat,
                                   name: seq<Byte>, used: nat)
    requires searchLimit <= ptr && limit <= |m| && limit <= MESSAGE_LIMIT && Wire(name)
    ensures var w := PutName(m, compress, searchLimit, ptr, limit, name, used);
            w.Put? ==> w.next - ptr <= |name|
    decreases |name|
  {
    hide Wire, PutName, Found, Splice, Label, PointerTo;
    PutCases(m, compress, searchLimit, ptr, limit, name, used);
    if CopiesLabel(m, compress, searchLimit, ptr, limit, name, used) {
      PutSize(Splice(m, ptr, Label(name)), compress, searchLimit, ptr + 1 + name[0], limit, Parent(name),
              used + 1 + name[0]);
    } else if name[0] != 0 {
      assert Parent(name) != [];
    }
  }

  /** A legal name is put whole if there is room for it without compression. */
  lemma {:induction false} PutFits(m: seq<Byte>, compress: bool, searchLimit: nat, ptr: nat, limit: nat,
                                   name: seq<Byte>, used: nat)
    requires searchLimit <= ptr && limit <= |m| && limit <= MESSAGE_LIMIT && Wire(name)
    requires ShortLabels(name) && used + |name| <= MAX_DOMAIN_NAME && ptr + |name| <= limit
    ensures PutName(m, compress, searchLimit, ptr, limit, name, used).Put?
    ensures !Cut(m, compress, searchLimit, ptr, limit, name)
    decreases |name|
  {
    hide Wire, PutName, Found, Splice, Label, PointerTo;
    PutOnce(m, compress, searchLimit, ptr, limit, name, used);
    if name[0] != 0 {
      assert Parent(name) != [];
      Shorter(name);
      if CopiesLabel(m, compress, searchLimit, ptr, limit, name, used) {
        PutFits(Splice(m, ptr, Label(name)), compress, searchLimit, ptr + 1 + name[0], limit, Parent(name),
                used + 1 + name[0]);
      }
    }
  }

  /** Labels are only lost when the name ends exactly at the limit. */
  lemma {:induction false} CutEndsAtLimit(m: seq<Byte>, compress: bool, searchLimit: nat, ptr: nat, limit: nat,
                                          name: seq<Byte>, used: nat)
    requires searchLimit <= ptr && limit <= |m| && limit <= MESSAGE_LIMIT && Wire(name)
    requires Cut(m, compress, searchLimit, ptr, limit, name)
    ensures var w := PutName(m, compress, searchLimit, ptr, limit, name, used);
            w.Put? ==> w.next == limit
    decreases |name|
  {
    hide Wire, PutName, Found, Splice, Label, PointerTo;
    PutCases(m, compress, searchLimit, ptr, limit, name, used);
    if CopiesLabel(m, compress, searchLimit, ptr, limit, name, used) {
      CutEndsAtLimit(Splice(m, ptr, Label(name)), compress, searchLimit, ptr + 1 + name[0], limit, Parent(name),
                     used + 1 + name[0]);
    }
  }

  /** The pointer in a message that has got longer since. */
  lemma PointerRead(m: seq<Byte>, searchLimit: nat, ptr: nat, name: seq<Byte>, later: seq<Byte>, laterEnd: nat,
                    read: seq<Byte>)
    requires searchLimit <= ptr && ptr + 2 <= |m| <= |later| && searchLimit < MESSAGE_LIMIT && Wire(name) && name[0] != 0
    requires ShortLabels(name) && |read| + |name| <= MAX_DOMAIN_NAME
    requires Found(m, searchLimit, name).Some?
    requires Match(m, searchLimit, Found(m, searchLimit, name).value, name) != Some(searchLimit)
    requires ptr + 2 <= laterEnd < |later|
    requires later[..ptr + 2] == Splice(m, ptr, PointerTo(Found(m, searchLimit, name).value))[..ptr + 2]
    ensures GetName(later, ptr, laterEnd, read) == Some(read + name)
  {
    hide GetName, Match, Wire, ShortLabels, Label, Found, Splice, PointerTo, Offset;
    FoundMatches(m, searchLimit, name);
    PointerLeads(m, searchLimit, ptr, Found(m, searchLimit, name).value, name, later, laterEnd, read);
  }

  lemma PointerLeads(m: seq<Byte>, searchLimit: nat, ptr: nat, r: nat, name: seq<Byte>, later: seq<Byte>, laterEnd: nat,
                     read: seq<Byte>)
    requires searchLimit <= ptr && ptr + 2 <= |m| <= |later| && searchLimit < MESSAGE_LIMIT && Wire(name) && name[0] != 0
    requires ShortLabels(name) && |read| + |name| <= MAX_DOMAIN_NAME && r < searchLimit
    requires Match(m, searchLimit, r, name).Some? && Match(m, searchLimit, r, name) != Some(searchLimit)
    requires ptr + 2 <= laterEnd < |later| && later[..ptr + 2] == Splice(m, ptr, PointerTo(r))[..ptr + 2]
    ensures GetName(later, ptr, laterEnd, read) == Some(read + name)
  {
    hide GetName, Match, Wire, ShortLabels, Label, Splice, PointerTo, Offset;
    PointerBytes(m, searchLimit, ptr, r, later);
    FoundLabel(m, searchLimit, r, name, later);
    GetPointer(later, ptr, laterEnd, r, read);
    MatchSpells(m, searchLimit, r, name, later, laterEnd, read);
  }

  lemma FoundLabel(m: seq<Byte>, end: nat, r: nat, name: seq<Byte>, later: seq<Byte>)
    requires end < |m| && end <= |later| && later[..end] == m[..end] && Wire(name) && name[0] != 0 && ShortLabels(name)
    requires Match(m, end, r, name).Some?
    ensures r < end && later[r] < LABEL_LIMIT
  {
    hide Match, Wire, ShortLabels, Label;
    MatchStep(m, end, r, name);
    Shorter(name);
    LabelHead(m, r, name);
    SameElement(m, later, end, r);
  }

  lemma PointerBytes(m: seq<Byte>, searchLimit: nat, ptr: nat, r: nat, later: seq<Byte>)
    requires searchLimit <= ptr && ptr + 2 <= |m| <= |later| && r < MESSAGE_LIMIT
    requires later[..ptr + 2] == Splice(m, ptr, PointerTo(r))[..ptr + 2]
    ensures later[..searchLimit] == m[..searchLimit]
    ensures later[ptr] >= POINTER_BITS && Offset(later[ptr], later[ptr + 1]) == r
  {
    hide PointerTo, Offset;
    var m' := Splice(m, ptr, PointerTo(r));
    SameSlice(m', later, ptr + 2, 0, searchLimit);
    SameSlice(m, m', ptr, 0, searchLimit);
    SameElement(m', later, ptr + 2, ptr);
    SameElement(m', later, ptr + 2, ptr + 1);
    assert m'[ptr..ptr + 2] == PointerTo(r);
    assert m'[ptr] == PointerTo(r)[0] && m'[ptr + 1] == PointerTo(r)[1];
  }

  lemma {:induction false} FindMatches(m: seq<Byte>, end: nat, at: int, name: seq<Byte>)
    requires end < |m| && Wire(name) && name[0] != 0
    ensures match Find(m, end, at, name)
            case Some(r) => Match(m, end, r, name).Some? && forall k: nat :: r < k <= at ==> Match(m, end, k, name) == None
            case None => forall k: nat :: k <= at ==> Match(m, end, k, name) == None
    decreases at
  {
    hide Match;
    if at >= 0 && Match(m, end, at, name) == None {
      FindMatches(m, end, at - 1, name);
    }
  }

  /** The place found is the last one where the name is matched, if there is any. */
  lemma FoundMatches(m: seq<Byte>, end: nat, name: seq<Byte>)
    requires end < |m| && Wire(name) && name[0] != 0
    ensures match Found(m, end, name)
            case Some(r) => Match(m, end, r, name).Some? && forall k: nat :: r < k ==> Match(m, end, k, name) == None
            case None => forall k: nat :: Match(m, end, k, name) == None
  {
    hide Match, Wire;
    FindMatches(m, end, end - name[0] - 1, name);
    forall k: nat | k + 1 + name[0] > end ensures Match(m, end, k, name) == None { MatchesNowhere(m, end, k, name); }
  }

  lemma MatchesNowhere(m: seq<Byte>, end: nat, k: nat, name: seq<Byte>)
    requires end < |m| && Wire(name) && name[0] != 0 && k + 1 + name[0] > end
    ensures Match(m, end, k, name) == None
  {
    hide Match, Wire, Label;
    MatchOnce(m, end, k, name);
  }

  /** What was put is read back as the labels it carries. */
  lemma {:induction false} CarriedRead(m: seq<Byte>, compress: bool, searchLimit: nat, ptr: nat, limit: nat,
                                       name: seq<Byte>, later: seq<Byte>, laterEnd: nat, read: seq<Byte>)
    requires searchLimit <= ptr && limit <= |m| && limit <= MESSAGE_LIMIT && Wire(name)
    requires ShortLabels(name) && |read| + |name| <= MAX_DOMAIN_NAME
    requires if searchLimit == ptr then !Stale(m, compress, ptr, limit, name) else searchLimit < |m| && m[searchLimit] != 0
    requires var w := PutName(m, compress, searchLimit, ptr, limit, name, |read|);
             w.Put? && w.next <= laterEnd < |later| && |m| <= |later| && later[..w.next] == w.message[..w.next]
    ensures GetName(later, ptr, laterEnd, read)
            == Some(read + Carried(m, compress, searchLimit, ptr, limit, name))
    decreases |name|, 1
  {
    hide GetName, Match, Wire, ShortLabels, Label, Found, Splice, PutName, PointerTo;
    PutCases(m, compress, searchLimit, ptr, limit, name, |read|);
    var w := PutName(m, compress, searchLimit, ptr, limit, name, |read|);
    if CopiesLabel(m, compress, searchLimit, ptr, limit, name, |read|) {
      CopiedRead(m, compress, searchLimit, ptr, limit, name, later, laterEnd, read);
    } else if UsesPointer(m, compress, searchLimit, ptr, limit, name) {
      FoundMatches(m, searchLimit, name);
      PointerRead(m, searchLimit, ptr, name, later, laterEnd, read);
    } else {
      RootRead(m, ptr, later, laterEnd, read);
      if name[0] == 0 { RootOnly(name); }
    }
  }

  /** The case of a label that was copied. */
  lemma {:induction false} CopiedRead(m: seq<Byte>, compress: bool, searchLimit: nat, ptr: nat, limit: nat,
                                      name: seq<Byte>, later: seq<Byte>, laterEnd: nat, read: seq<Byte>)
    requires searchLimit <= ptr && limit <= |m| && limit <= MESSAGE_LIMIT && Wire(name)
    requires ShortLabels(name) && |read| + |name| <= MAX_DOMAIN_NAME
    requires CopiesLabel(m, compress, searchLimit, ptr, limit, name, |read|)
    requires searchLimit < ptr ==> m[searchLimit] != 0
    requires var w := PutName(m, compress, searchLimit, ptr, limit, name, |read|);
             w.Put? && w.next <= laterEnd < |later| && |m| <= |later| && later[..w.next] == w.message[..w.next]
    ensures GetName(later, ptr, laterEnd, read)
            == Some(read + Carried(m, compress, searchLimit, ptr, limit, name))
    decreases |name|, 0
  {
    hide GetName, Match, Wire, ShortLabels, Label, Found, Splice, PutName, Carried;
    PutCases(m, compress, searchLimit, ptr, limit, name, |read|);
    var w := PutName(m, compress, searchLimit, ptr, limit, name, |read|);
    var m1, t, rest, read' := Splice(m, ptr, Label(name)), ptr + 1 + name[0], Parent(name), read + Label(name);
    LabelHead(m1, ptr, name);
    if searchLimit < ptr { SameElement(m, m1, ptr, searchLimit); }
    Shorter(name);
    CarriedRead(m1, compress, searchLimit, t, limit, rest, later, laterEnd, read');
    PutKeeps(m1, compress, searchLimit, t, limit, rest, |read'|);
    SameSlice(w.message, later, w.next, ptr, t);
    SameSlice(m1, w.message, t, ptr, t);
    GetLabel(later, ptr, laterEnd, name, read);
    CarriedStep(m, compress, searchLimit, ptr, limit, name, |read|);
    Associate(read, Label(name), Carried(m1, compress, searchLimit, t, limit, rest));
  }

  lemma CarriedStep(m: seq<Byte>, compress: bool, searchLimit: nat, ptr: nat, limit: nat, name: seq<Byte>, used: nat)
    requires searchLimit <= ptr && limit <= |m| && Wire(name)
    requires CopiesLabel(m, compress, searchLimit, ptr, limit, name, used)
    ensures Carried(m, compress, searchLimit, ptr, limit, name)
            == Label(name) + Carried(Splice(m, ptr, Label(name)), compress, searchLimit, ptr + 1 + name[0], limit, Parent(name))
  {
    hide Wire, Label, Splice, Found;
  }

  lemma RootOnly(name: seq<Byte>)
    requires Wire(name) && name[0] == 0
    ensures name == [0]
  {
  }

  lemma RootRead(m: seq<Byte>, ptr: nat, later: seq<Byte>, laterEnd: nat, read: seq<Byte>)
    requires ptr < |m| && ptr < laterEnd < |later| && |read| < MAX_DOMAIN_NAME
    requires later[..ptr + 1] == Splice(m, ptr, [0])[..ptr + 1]
    ensures GetName(later, ptr, laterEnd, read) == Some(read + [0])
  {
    assert later[ptr] == later[..ptr + 1][ptr] == 0;
  }

  lemma PointerAhead(high: Byte, low: Byte)
    requires high >= POINTER_BITS
    ensures Offset(high, low) >= 0
  {
  }

  /** The branch or label at `t` is as it was. */
  predicate Unchanged(g: seq<Byte>, f: seq<Byte>, t: nat)
    requires t < |g| && t < |f|
  {
    f[t] == g[t] && (g[t] >= POINTER_BITS ==> t + 1 < |g| && t + 1 < |f| && f[t + 1] == g[t + 1])
  }

  /** Where the next label of a match is. */
  function NextLabel(g: seq<Byte>, t: nat): (p: nat)
    requires t < |g|
  {
    if g[t] >= POINTER_BITS && t + 1 < |g| then
      PointerAhead(g[t], g[t + 1]);
      Offset(g[t], g[t + 1])
    else t
  }

  /** All that the match of a name looked at is as it was; its root label, if it is the byte at `end`, is left out. */
  predicate Kept(g: seq<Byte>, end: nat, at: nat, name: seq<Byte>, f: seq<Byte>)
    requires Wire(name) && name[0] != 0
    decreases |name|
  {
    var t, rest := at + 1 + name[0], Parent(name);
    && t < |g| && t < |f| && f[at..t] == g[at..t]
    && (rest[0] == 0 ==> t == end || f[t] == g[t])
    && (rest[0] != 0 ==> Unchanged(g, f, t) && Kept(g, end, NextLabel(g, t), rest, f))
  }

  /** Where a match goes on after a label. */
  lemma MatchNext(g: seq<Byte>, end: nat, at: nat, name: seq<Byte>)
    requires Wire(name) && name[0] != 0 && end < |g| && Match(g, end, at, name).Some?
    ensures var t, rest := at + 1 + name[0], Parent(name);
            && t <= end && g[at..t] == Label(name)
            && (rest[0] == 0 ==> Match(g, end, at, name) == Some(t))
            && (rest[0] != 0 ==> t + 1 < end && (g[t] >= LABEL_LIMIT ==> g[t] >= POINTER_BITS))
            && (rest[0] != 0 ==> NextLabel(g, t) <= t && g[NextLabel(g, t)] < LABEL_LIMIT
                                 && Match(g, end, NextLabel(g, t), rest) == Match(g, end, at, name))
  {
    hide Match, Wire, Label;
    MatchStep(g, end, at, name);
  }

  lemma UnchangedBelow(g: seq<Byte>, f: seq<Byte>, end: nat, t: nat)
    requires t + 1 < end <= |g| && end <= |f| && f[..end] == g[..end]
    ensures Unchanged(g, f, t)
  {
    SameElement(g, f, end, t);
    SameElement(g, f, end, t + 1);
  }

  lemma {:induction false} KeptBelow(g: seq<Byte>, end: nat, at: nat, name: seq<Byte>, f: seq<Byte>)
    requires Wire(name) && name[0] != 0 && end < |g| && Match(g, end, at, name).Some? && end < |f| && f[..end] == g[..end]
    ensures Kept(g, end, at, name, f)
    decreases |name|
  {
    hide Match, Wire, Label, NextLabel, Unchanged;
    MatchNext(g, end, at, name);
    var t, rest := at + 1 + name[0], Parent(name);
    SameSlice(g, f, end, at, t);
    if rest[0] != 0 {
      UnchangedBelow(g, f, end, t);
      KeptBelow(g, end, NextLabel(g, t), rest, f);
    } else if t < end {
      SameElement(g, f, end, t);
    }
  }

  /** A match that ends one byte past the message leads the reader there, if the name has not got too long by then. */
  lemma {:induction false} MatchToEnd(m: seq<Byte>, end: nat, at: nat, name: seq<Byte>,
                                      later: seq<Byte>, laterEnd: nat, read: seq<Byte>)
    requires end < |m| && Wire(name) && name[0] != 0 && ShortLabels(name) && Match(m, end, at, name) == Some(end)
    requires end < laterEnd < |later| && Kept(m, end, at, name, later) && |read| < MAX_DOMAIN_NAME
    ensures at < end
    ensures GetName(later, at, laterEnd, read) == None
            || exists longer :: |read| < |longer| < MAX_DOMAIN_NAME
                                && GetName(later, at, laterEnd, read) == GetName(later, end, laterEnd, longer)
    decreases |name|
  {
    hide GetName, Label, Wire, Match, Kept, NextLabel, Unchanged;
    MatchNext(m, end, at, name);
    KeptStep(m, end, at, name, later);
    var t, rest := at + 1 + name[0], Parent(name);
    Shorter(name);
    LabelHead(m, at, name);
    LabelHead(later, at, name);
    GetOneLabel(later, at, laterEnd, read);
    if |read| + 1 + name[0] < MAX_DOMAIN_NAME && rest[0] != 0 {
      var read', p := read + later[at..t], NextLabel(m, t);
      MatchToEnd(m, end, p, rest, later, laterEnd, read');
      KeptHead(m, end, p, rest, later);
      GetNext(m, later, t, laterEnd, read');
    }
  }

  lemma KeptStep(g: seq<Byte>, end: nat, at: nat, name: seq<Byte>, f: seq<Byte>)
    requires Wire(name) && name[0] != 0 && Kept(g, end, at, name, f)
    ensures var t, rest := at + 1 + name[0], Parent(name);
            && t < |g| && t < |f| && f[at..t] == g[at..t]
            && (rest[0] != 0 ==> Unchanged(g, f, t) && Kept(g, end, NextLabel(g, t), rest, f))
  {
  }

  /** Where the bytes are as they were, reading goes on where the match did. */
  lemma GetNext(g: seq<Byte>, f: seq<Byte>, t: nat, fend: nat, read: seq<Byte>)
    requires t + 1 < fend < |f| && t < |g| && Unchanged(g, f, t) && |read| < MAX_DOMAIN_NAME
    requires NextLabel(g, t) <= t && f[NextLabel(g, t)] < LABEL_LIMIT
    ensures GetName(f, t, fend, read) == GetName(f, NextLabel(g, t), fend, read)
  {
    hide GetName;
    GetOnce(f, t, fend, read);
  }

  lemma KeptHead(g: seq<Byte>, end: nat, at: nat, name: seq<Byte>, f: seq<Byte>)
    requires Wire(name) && name[0] != 0 && Kept(g, end, at, name, f)
    ensures at < |g| && at < |f| && f[at] == g[at]
  {
    hide Wire, Label;
    var t := at + 1 + name[0];
    assert f[at] == f[at..t][0] && g[at] == g[at..t][0];
  }

  lemma GetOneLabel(m: seq<Byte>, at: nat, end: nat, read: seq<Byte>)
    requires at < end < |m| && |read| < MAX_DOMAIN_NAME && 0 < m[at] < LABEL_LIMIT
    ensures at + 1 + m[at] >= end || |read| + 1 + m[at] >= MAX_DOMAIN_NAME ==> GetName(m, at, end, read) == None
    ensures at + 1 + m[at] < end && |read| + 1 + m[at] < MAX_DOMAIN_NAME ==>
            GetName(m, at, end, read) == GetName(m, at + 1 + m[at], end, read + m[at..at + 1 + m[at]])
  {
  }

  /** A pointer whose match ended at the pointer itself is followed in circles. */
  lemma {:induction false} Circles(m: seq<Byte>, end: nat, at: nat, name: seq<Byte>,
                                   later: seq<Byte>, laterEnd: nat, read: seq<Byte>)
    requires end < |m| && Wire(name) && name[0] != 0 && ShortLabels(name) && Match(m, end, at, name) == Some(end)
    requires end + 1 < laterEnd < |later| && Kept(m, end, at, name, later) && |read| < MAX_DOMAIN_NAME
    requires later[end] >= POINTER_BITS && Offset(later[end], later[end + 1]) == at
    ensures GetName(later, end, laterEnd, read) == None
    decreases MAX_DOMAIN_NAME - |read|
  {
    hide GetName, Label, Wire, Match, Offset, Kept;
    MatchToEnd(m, end, at, name, later, laterEnd, read);
    MatchStep(m, end, at, name);
    Shorter(name);
    LabelHead(m, at, name);
    KeptHead(m, end, at, name, later);
    GetPointer(later, end, laterEnd, at, read);
    if GetName(later, at, laterEnd, read) != None {
      var longer :| |read| < |longer| < MAX_DOMAIN_NAME
                    && GetName(later, at, laterEnd, read) == GetName(later, end, laterEnd, longer);
      Circles(m, end, at, name, later, laterEnd, longer);
    }
  }

  /** A name that was matched with the stale byte is lost: its pointer is followed in circles, unless what the match
      looked at has changed. */
  lemma StaleLost(m: seq<Byte>, compress: bool, ptr: nat, limit: nat, name: seq<Byte>, later: seq<Byte>, laterEnd: nat)
    requires limit <= |m| && limit <= MESSAGE_LIMIT && Legal(name) && Stale(m, compress, ptr, limit, name)
    requires var w := PutName(m, compress, ptr, ptr, limit, name, 0);
             w.Put? && w.next <= laterEnd < |later| && |m| <= |later| && later[ptr..w.next] == w.message[ptr..w.next]
    requires Kept(m, ptr, Found(m, ptr, name).value, name, later)
    ensures GetName(later, ptr, laterEnd, []) == None
  {
    hide GetName, Match, Wire, ShortLabels, Label, Found, Splice, PutName, PointerTo, Offset, Kept;
    PutCases(m, compress, ptr, ptr, limit, name, 0);
    var r := Found(m, ptr, name).value;
    PointerHere(m, ptr, r, later);
    Circles(m, ptr, r, name, later, laterEnd, []);
  }

  lemma PointerHere(m: seq<Byte>, ptr: nat, r: nat, later: seq<Byte>)
    requires ptr + 2 <= |m| <= |later| && r < MESSAGE_LIMIT
    requires later[ptr..ptr + 2] == Splice(m, ptr, PointerTo(r))[ptr..ptr + 2]
    ensures later[ptr] >= POINTER_BITS && Offset(later[ptr], later[ptr + 1]) == r
  {
    hide PointerTo, Offset;
    assert later[ptr..ptr + 2] == PointerTo(r);
    assert later[ptr] == later[ptr..ptr + 2][0] && later[ptr + 1] == later[ptr..ptr + 2][1];
  }

  lemma StaleKept(m: seq<Byte>, compress: bool, ptr: nat, limit: nat, name: seq<Byte>, later: seq<Byte>)
    requires limit <= |m| && Wire(name) && Stale(m, compress, ptr, limit, name) && limit <= MESSAGE_LIMIT
    requires |m| <= |later| && later[..ptr] == m[..ptr]
    ensures Kept(m, ptr, Found(m, ptr, name).value, name, later)
  {
    hide Match, Wire, Found;
    KeptBelow(m, ptr, Found(m, ptr, name).value, name, later);
  }

  lemma Unaltered(m: seq<Byte>, compress: bool, ptr: nat, limit: nat, name: seq<Byte>, later: seq<Byte>)
    requires limit <= |m| && limit <= MESSAGE_LIMIT && ptr <= |m| && Wire(name)
    requires var w := PutName(m, compress, ptr, ptr, limit, name, 0);
             w.Put? && w.next <= |later| && later[..w.next] == w.message[..w.next]
    ensures var w := PutName(m, compress, ptr, ptr, limit, name, 0);
            later[..ptr] == m[..ptr] && later[ptr..w.next] == w.message[ptr..w.next]
  {
    hide PutName, Wire;
    var w := PutName(m, compress, ptr, ptr, limit, name, 0);
    PutKeeps(m, compress, ptr, ptr, limit, name, 0);
    SameSlice(w.message, later, w.next, 0, ptr);
    SameSlice(w.message, later, w.next, ptr, w.next);
  }

  /** A legal name that was put is read back, now or at any later time, unless it met one of two faults of the writer. */
  lemma PutThenGet(m: seq<Byte>, compress: bool, ptr: nat, limit: nat, name: seq<Byte>, later: seq<Byte>, laterEnd: nat)
    requires limit <= |m| && limit <= MESSAGE_LIMIT && Legal(name)
    requires var w := PutName(m, compress, ptr, ptr, limit, name, 0);
             w.Put? && w.next <= laterEnd < |later| && |m| <= |later| && later[..w.next] == w.message[..w.next]
    ensures GetName(later, ptr, laterEnd, []) == Some(name)
            <==> !Stale(m, compress, ptr, limit, name) && !Cut(m, compress, ptr, ptr, limit, name)
    ensures SkipName(later, ptr, laterEnd, 0) == Some(PutName(m, compress, ptr, ptr, limit, name, 0).next)
  {
    hide GetName, PutName, SkipName, Stale, Cut, Carried;
    SkipPut(m, compress, ptr, ptr, limit, name, later, laterEnd, 0);
    if Stale(m, compress, ptr, limit, name) {
      Unaltered(m, compress, ptr, limit, name, later);
      StaleKept(m, compress, ptr, limit, name, later);
      StaleLost(m, compress, ptr, limit, name, later, laterEnd);
    } else {
      CarriedRead(m, compress, ptr, ptr, limit, name, later, laterEnd, []);
      CarriedWhole(m, compress, ptr, ptr, limit, name);
      assert [] + Carried(m, compress, ptr, ptr, limit, name) == Carried(m, compress, ptr, ptr, limit, name);
    }
  }

  /** The lowest place that reading a name looks at. */
  function LowestRead(m: seq<Byte>, ptr: nat, end: nat, name: seq<Byte>): (low: nat)
    requires ptr < end < |m| && |name| < MAX_DOMAIN_NAME
    ensures low <= ptr
    decreases MAX_DOMAIN_NAME - |name|, m[ptr] >= POINTER_BITS
  {
    var len := m[ptr];
    var rest :=
      if 0 < len < LABEL_LIMIT && ptr + 1 + len < end && |name| + 1 + len < MAX_DOMAIN_NAME then
        LowestRead(m, ptr + 1 + len, end, name + m[ptr..ptr + 1 + len])
      else if len >= POINTER_BITS && Offset(len, m[ptr + 1]) < end then
        var offset := Offset(len, m[ptr + 1]);
        if m[offset] >= LABEL_LIMIT then offset else LowestRead(m, offset, end, name)
      else ptr;
    if rest < ptr then rest else ptr
  }

  /** What stands below that place does not matter. */
  lemma {:induction false} LowBytesUnread(m: seq<Byte>, later: seq<Byte>, ptr: nat, end: nat, name: seq<Byte>, low: nat)
    requires ptr < end < |m| == |later| && |name| < MAX_DOMAIN_NAME && low <= LowestRead(m, ptr, end, name)
    requires later[low..] == m[low..]
    ensures GetName(later, ptr, end, name) == GetName(m, ptr, end, name)
    decreases MAX_DOMAIN_NAME - |name|, m[ptr] >= POINTER_BITS
  {
    hide GetName, LowestRead, SkipName, Offset;
    GetOnce(m, ptr, end, name);
    GetOnce(later, ptr, end, name);
    LowestOnce(m, ptr, end, name);
    SameAbove(m, later, low, ptr);
    SameAbove(m, later, low, ptr + 1);
    var len := m[ptr];
    if 0 < len < LABEL_LIMIT {
      if ptr + 1 + len < end && |name| + 1 + len < MAX_DOMAIN_NAME {
        Narrower(m, later, low, |m|, ptr, ptr + 1 + len);
        LowBytesUnread(m, later, ptr + 1 + len, end, name + m[ptr..ptr + 1 + len], low);
      }
    } else if len >= POINTER_BITS {
      PointerAhead(len, m[ptr + 1]);
      var offset := Offset(len, m[ptr + 1]);
      if offset < end {
        SameAbove(m, later, low, offset);
        if m[offset] < LABEL_LIMIT { LowBytesUnread(m, later, offset, end, name, low); }
      }
    }
  }

  lemma LowestOnce(m: seq<Byte>, ptr: nat, end: nat, name: seq<Byte>)
    requires ptr < end < |m| && |name| < MAX_DOMAIN_NAME
    ensures var len := m[ptr];
            && (0 < len < LABEL_LIMIT && ptr + 1 + len < end && |name| + 1 + len < MAX_DOMAIN_NAME ==>
                LowestRead(m, ptr, end, name) <= LowestRead(m, ptr + 1 + len, end, name + m[ptr..ptr + 1 + len]))
            && (len >= POINTER_BITS && Offset(len, m[ptr + 1]) < end ==>
                var offset := Offset(len, m[ptr + 1]);
                LowestRead(m, ptr, end, name) <= if m[offset] >= LABEL_LIMIT then offset else LowestRead(m, offset, end, name))
  {
  }

  lemma SameAbove(m: seq<Byte>, later: seq<Byte>, low: nat, i: nat)
    requires low <= i < |m| == |later| && later[low..] == m[low..]
    ensures later[i] == m[i]
  {
    assert m[low..][i - low] == m[i] && later[low..][i - low] == later[i];
  }

  /** A name that is put whole is read back also when bytes have changed below `low`, if reading does not get there. */
  lemma PutThenGetAbove(m: seq<Byte>, compress: bool, ptr: nat, limit: nat, name: seq<Byte>, later: seq<Byte>,
                        laterEnd: nat, low: nat)
    requires limit <= |m| && limit <= MESSAGE_LIMIT && Legal(name) && !Cut(m, compress, ptr, ptr, limit, name)
    requires var w := PutName(m, compress, ptr, ptr, limit, name, 0);
             && w.Put? && w.next <= laterEnd < |later| && |m| <= |later| && low <= ptr
             && later[low..w.next] == w.message[low..w.next]
    requires LowestRead(later, ptr, laterEnd, []) >= low
    ensures GetName(later, ptr, laterEnd, []) == Some(name) <==> !Stale(m, compress, ptr, limit, name)
    ensures SkipName(later, ptr, laterEnd, 0) == Some(PutName(m, compress, ptr, ptr, limit, name, 0).next)
  {
    hide GetName, PutName, SkipName, Stale, Cut, LowestRead, Legal;
    var w := PutName(m, compress, ptr, ptr, limit, name, 0);
    var before := w.message[..low] + later[low..];
    assert before[low..] == later[low..];
    assert before[..w.next] == w.message[..low] + later[low..w.next];
    assert w.message[..w.next] == w.message[..low] + w.message[low..w.next];
    LowBytesUnread(later, before, ptr, laterEnd, [], low);
    PutThenGet(m, compress, ptr, limit, name, before, laterEnd);
    SkipAbove(later, before, ptr, laterEnd, 0, low);
  }

  /** Skipping only goes up. */
  lemma {:induction false} SkipAbove(m: seq<Byte>, later: seq<Byte>, ptr: nat, end: nat, total: nat, low: nat)
    requires low <= ptr < end < |m| == |later| && total < MAX_DOMAIN_NAME && later[low..] == m[low..]
    ensures SkipName(later, ptr, end, total) == SkipName(m, ptr, end, total)
    decreases end - ptr
  {
    SameAbove(m, later, low, ptr);
    var len := m[ptr];
    if 0 < len < LABEL_LIMIT && ptr + 1 + len < end && total + 1 + len < MAX_DOMAIN_NAME {
      SkipAbove(m, later, ptr + 1 + len, end, total + 1 + len, low);
    }
  }

  /** Skipping what was put ends where the writer ended. */
  lemma {:induction false} SkipPut(m: seq<Byte>, compress: bool, searchLimit: nat, ptr: nat, limit: nat,
                                   name: seq<Byte>, later: seq<Byte>, laterEnd: nat, used: nat)
    requires searchLimit <= ptr && limit <= |m| && limit <= MESSAGE_LIMIT && Wire(name) && used < MAX_DOMAIN_NAME
    requires var w := PutName(m, compress, searchLimit, ptr, limit, name, used);
             w.Put? && w.next <= laterEnd < |later| && |m| <= |later| && later[..w.next] == w.message[..w.next]
    ensures SkipName(later, ptr, laterEnd, used)
            == Some(PutName(m, compress, searchLimit, ptr, limit, name, used).next)
    decreases |name|
  {
    hide Match, Wire, Label, Found, Splice, PutName, PointerTo;
    PutCases(m, compress, searchLimit, ptr, limit, name, used);
    var w := PutName(m, compress, searchLimit, ptr, limit, name, used);
    if CopiesLabel(m, compress, searchLimit, ptr, limit, name, used) {
      var m1, t, rest := Splice(m, ptr, Label(name)), ptr + 1 + name[0], Parent(name);
      SkipPut(m1, compress, searchLimit, t, limit, rest, later, laterEnd, used + 1 + name[0]);
      PutKeeps(m1, compress, searchLimit, t, limit, rest, used + 1 + name[0]);
      SameSlice(w.message, later, w.next, ptr, t);
      SameSlice(m1, w.message, t, ptr, t);
      LabelHead(later, ptr, name);
    } else if UsesPointer(m, compress, searchLimit, ptr, limit, name) {
      PointerBytes(m, searchLimit, ptr, Found(m, searchLimit, name).value, later);
    } else {
      RootByte(m, ptr, later);
    }
  }

  lemma RootByte(m: seq<Byte>, ptr: nat, later: seq<Byte>)
    requires ptr < |m| && ptr < |later| && later[..ptr + 1] == Splice(m, ptr, [0])[..ptr + 1]
    ensures later[ptr] == 0
  {
    assert later[ptr] == later[..ptr + 1][ptr];
  }

  /** Whatever the bytes, a name that is accepted is legal. */
  lemma {:induction false} AcceptedIsLegal(m: seq<Byte>, ptr: nat, end: nat, read: seq<Byte>)
    requires ptr < end < |m| && |read| < MAX_DOMAIN_NAME && GetName(m, ptr, end, read).Some?
    ensures var n := GetName(m, ptr, end, read).value;
            && |read| < |n| <= MAX_DOMAIN_NAME && n[..|read|] == read && Legal(n[|read|..])
    decreases MAX_DOMAIN_NAME - |read|, m[ptr] >= POINTER_BITS
  {
    var len := m[ptr];
    if 0 < len < LABEL_LIMIT {
      var read' := read + m[ptr..ptr + 1 + len];
      AcceptedIsLegal(m, ptr + 1 + len, end, read');
      LegalLabel(GetName(m, ptr, end, read).value, |read|, |read'|, m[ptr..ptr + 1 + len]);
    } else if len >= POINTER_BITS {
      AcceptedIsLegal(m, Offset(len, m[ptr + 1]), end, read);
    }
  }

  lemma LegalLabel(n: seq<Byte>, i: nat, j: nat, l: seq<Byte>)
    requires i < j < |n| <= MAX_DOMAIN_NAME && Legal(n[j..]) && n[i..j] == l
    requires |l| >= 1 && 0 < l[0] < LABEL_LIMIT && |l| == l[0] + 1
    ensures Legal(n[i..])
  {
    var w := n[i..];
    assert w[0] == n[i..j][0];
    assert w[1 + w[0]..] == n[j..];
  }

  /** A name that can be read can be skipped. */
  lemma {:induction false} SkipAgrees(m: seq<Byte>, ptr: nat, end: nat, read: seq<Byte>)
    requires ptr < end < |m| && |read| < MAX_DOMAIN_NAME && GetName(m, ptr, end, read).Some?
    ensures SkipName(m, ptr, end, |read|).Some?
    decreases end - ptr
  {
    var len := m[ptr];
    if 0 < len < LABEL_LIMIT {
      SkipAgrees(m, ptr + 1 + len, end, read + m[ptr..ptr + 1 + len]);
    }
  }

  /** A label that happens to stand before the end of the message, with a zero byte left over after it, loses the name. */
  lemma StaleExample(m: seq<Byte>, ptr: nat, limit: nat, c: Byte, later: seq<Byte>, laterEnd: nat)
    requires 2 <= ptr < limit - 2 && limit <= |m| && limit <= MESSAGE_LIMIT
    requires m[ptr - 2] == 1 && m[ptr - 1] == c && m[ptr] == 0
    requires var w := PutName(m, true, ptr, ptr, limit, [1, c, 0], 0);
             w.Put? && w.next <= laterEnd < |later| && |m| <= |later| && later[..w.next] == w.message[..w.next]
    ensures GetName(later, ptr, laterEnd, []) == None
  {
    hide PutName, GetName;
    var name: seq<Byte> := [1, c, 0];
    assert Parent(name) == name[2..] == [0];
    assert ShortLabels([0]);
    assert Legal(name);
    assert m[ptr - 2..ptr] == Label(name);
    assert Match(m, ptr, ptr - 2, name) == Some(ptr);
    Unaltered(m, true, ptr, limit, name, later);
    StaleKept(m, true, ptr, limit, name, later);
    StaleLost(m, true, ptr, limit, name, later, laterEnd);
  }

  /** Two labels in room for one: the second label is lost without notice. */
  lemma CutExample(m: seq<Byte>, ptr: nat, limit: nat, c: Byte, d: Byte)
    requires limit == ptr + 3 <= |m| && limit <= MESSAGE_LIMIT
    ensures var w := PutName(m, false, ptr, ptr, limit, [1, c, 1, d, 0], 0);
            w.Put? && w.next == limit && w.message[ptr..limit] == [1, c, 0]
  {
    var name: seq<Byte> := [1, c, 1, d, 0];
    var m1 := Splice(m, ptr, Label(name));
    assert Parent(name) == [1, d, 0];
    assert Parent([1, d, 0]) == [0];
    var m2 := Splice(m1, ptr + 2, [0]);
    assert m2[ptr..limit] == m1[ptr..ptr + 2] + [0];
  }
}
