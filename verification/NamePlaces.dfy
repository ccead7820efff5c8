/** Names that stand in a message are read and found there, and are put as pointers; illegal ones are not put. */
module NamePlaces {
  import opened Wrappers
  import opened Slices
  import opened Bits
  import opened DomainNames
  import opened NameRoundTrip

  /** The bytes of a name, uncompressed. */
  predicate Stands(m: seq<Byte>, at: nat, name: seq<Byte>) {
    at + |name| <= |m| && m[at..at + |name|] == name
  }

  /** Where the two bytes of a pointer lead. */
  function Place(high: int, low: int): int {
    (high - 0xC0) * 0x100 + low
  }

  /** The labels of a name, from some label on. */
  predicate EndsIn(name: seq<Byte>, suffix: seq<Byte>)
    requires Wire(name)
    decreases |name|
  {
    name == suffix || (name[0] != 0 && EndsIn(Parent(name), suffix))
  }

  /** The first label of a name that stands somewhere, and the rest of it. */
  lemma StandsStep(m: seq<Byte>, at: nat, name: seq<Byte>)
    requires Wire(name) && name[0] != 0 && Stands(m, at, name)
    ensures var t, rest := at + 1 + name[0], Parent(name);
            t < |m| && m[at] == name[0] && m[at..t] == Label(name) && Stands(m, t, rest) && m[t] == rest[0]
  {
    var t, n := at + 1 + name[0], |name|;
    Subslice(m, at, at + n, at, t);
    Subslice(m, at, at + n, t, at + n);
    assert name[..1 + name[0]] == name[0..1 + name[0]] && name[1 + name[0]..] == name[1 + name[0]..n];
    assert m[at..at + n][0] == m[at];
    assert m[t..at + n][0] == m[t];
  }

  lemma SuffixSize(name: seq<Byte>, suffix: seq<Byte>)
    requires Wire(name) && EndsIn(name, suffix)
    ensures |suffix| <= |name| && Wire(suffix) && (ShortLabels(name) ==> ShortLabels(suffix))
    decreases |name|
  {
    if name != suffix { SuffixSize(Parent(name), suffix); }
  }

  /** A name is read where it stands. */
  lemma {:induction false} StandingIsRead(m: seq<Byte>, at: nat, end: nat, read: seq<Byte>, name: seq<Byte>)
    requires Wire(name) && ShortLabels(name) && Stands(m, at, name) && at + |name| <= end < |m| && |read| + |name| <= 255
    ensures GetName(m, at, end, read) == Some(read + name)
    decreases |name|
  {
    hide Wire, ShortLabels, GetName, Label, Stands;
    GetOnce(m, at, end, read);
    StandsHere(m, at, name);
    if name[0] != 0 {
      StandsStep(m, at, name);
      Shorter(name);
      GetLabel(m, at, end, name, read);
      StandingIsRead(m, at + 1 + name[0], end, read + Label(name), Parent(name));
      Associate(read, Label(name), Parent(name));
    }
  }

  lemma StandsHere(m: seq<Byte>, at: nat, name: seq<Byte>)
    requires Wire(name) && Stands(m, at, name)
    ensures at < |m| && m[at] == name[0] && (name[0] == 0 ==> name == [0])
  {
    assert m[at..at + |name|][0] == m[at];
  }

  /** So are labels and then a pointer to any place, before or after it, where the rest of the name is read. */
  lemma {:induction false} PointerIsRead(m: seq<Byte>, at: nat, end: nat, read: seq<Byte>, name: seq<Byte>, suffix: seq<Byte>)
    requires Wire(name) && ShortLabels(name) && EndsIn(name, suffix) && suffix != [] && |read| + |name| <= 255
    requires var n := |name| - |suffix|;
             && n >= 0 && at + n + 1 < end < |m| && m[at..at + n] == name[..n] && m[at + n] >= 0xC0
             && var p := Place(m[at + n], m[at + n + 1]);
             p < end && m[p] < 0x40 && GetName(m, p, end, read + name[..n]) == Some(read + name)
    ensures GetName(m, at, end, read) == Some(read + name)
    decreases |name|
  {
    hide Wire, ShortLabels, GetName, Label, EndsIn;
    SuffixSize(name, suffix);
    var n := |name| - |suffix|;
    EndsInStep(name, suffix);
    if n == 0 {
      assert read + name[..0] == read;
      GetPointer(m, at, end, Offset(m[at], m[at + 1]), read);
    } else {
      var k: int := name[0];
      Shorter(name);
      assert Parent(name) != [];
      LabelSlices(name);
      FrontSlices(m, at, n, name, 1 + k);
      Associate(read, Label(name), Parent(name)[..n - 1 - k]);
      Associate(read, Label(name), Parent(name));
      GetLabel(m, at, end, name, read);
      PointerIsRead(m, at + 1 + k, end, read + Label(name), Parent(name), suffix);
    }
  }

  lemma LabelSlices(name: seq<Byte>)
    requires Wire(name) && name[0] != 0
    ensures var k: int := name[0]; Label(name) == name[..1 + k] && Parent(name) == name[1 + k..]
  {
  }

  lemma FrontSlices(m: seq<Byte>, at: nat, n: nat, name: seq<Byte>, k: nat)
    requires k <= n <= |name| && at + n <= |m| && m[at..at + n] == name[..n]
    ensures m[at..at + k] == name[..k] && m[at + k..at + n] == name[k..][..n - k]
    ensures name[..k] + name[k..][..n - k] == name[..n]
  {
    assert m[at..at + k] == m[at..at + n][..k] && name[..k] == name[..n][..k];
    assert m[at + k..at + n] == m[at..at + n][k..] && name[k..][..n - k] == name[..n][k..];
  }

  lemma EndsInStep(name: seq<Byte>, suffix: seq<Byte>)
    requires Wire(name) && EndsIn(name, suffix)
    ensures |suffix| < |name| ==> name[0] != 0 && EndsIn(Parent(name), suffix) && |suffix| + 1 + name[0] <= |name|
  {
    if name != suffix { SuffixSize(Parent(name), suffix); }
  }

  /** The search for a pointer sees a name that stands before `end`. */
  lemma {:induction false} StandingMatches(m: seq<Byte>, end: nat, at: nat, name: seq<Byte>)
    requires end < |m| && Wire(name) && ShortLabels(name) && name[0] != 0 && Stands(m, at, name) && at + |name| <= end
    ensures Match(m, end, at, name) == Some(at + |name| - 1)
    decreases |name|
  {
    hide Wire, ShortLabels, Label, Match, Stands;
    MatchOnce(m, end, at, name);
    StandsStep(m, at, name);
    Shorter(name);
    var t, rest := at + 1 + name[0], Parent(name);
    assert rest != [];
    StandsHere(m, t, rest);
    if rest[0] != 0 {
      Shorter(rest);
      StandingMatches(m, end, t, rest);
    }
  }

  /** And a name that goes on, after one of its labels, at a place that a pointer leads back to. */
  lemma PointedMatches(m: seq<Byte>, end: nat, at: nat, name: seq<Byte>)
    requires end < |m| && Wire(name) && name[0] != 0 && Parent(name)[0] != 0
    requires var t := at + 1 + name[0];
             && t + 1 < end && m[at..t] == Label(name) && m[t] >= 0xC0
             && var p := Place(m[t], m[t + 1]);
             p <= t && m[p] < 0x40 && Match(m, end, p, Parent(name)).Some?
    ensures Match(m, end, at, name).Some?
  {
    hide Wire, Label, Match;
    MatchOnce(m, end, at, name);
  }

  /** A legal name that stands in the message is put as two bytes: the top bits of a pointer and the last place found. */
  lemma StandingIsPointedTo(m: seq<Byte>, ptr: nat, limit: nat, name: seq<Byte>, at: nat)
    requires ptr + 2 <= limit <= |m| && limit <= MESSAGE_LIMIT && Legal(name) && name[0] != 0 && ptr < |m|
    requires Stands(m, at, name) && at + |name| <= ptr
    ensures var w := PutName(m, true, ptr, ptr, limit, name, 0);
            && w.Put? && w.next == ptr + 2
            && at <= Place(w.message[ptr], w.message[ptr + 1]) < ptr && w.message[ptr] >= 0xC0
            && w.message[..ptr] == m[..ptr] && w.message[ptr + 2..] == m[ptr + 2..]
  {
    hide Wire, ShortLabels, Found, Splice, PointerTo, PutName;
    PutOnce(m, true, ptr, ptr, limit, name, 0);
    LegalSize(name);
    FoundAt(m, ptr, at, name);
    var r := Found(m, ptr, name).value;
    var w := Splice(m, ptr, PointerTo(r));
    assert w[ptr..ptr + 2] == PointerTo(r);
    assert w[ptr] == w[ptr..ptr + 2][0] && w[ptr + 1] == w[ptr..ptr + 2][1];
  }

  lemma LegalSize(name: seq<Byte>)
    requires Legal(name) && name[0] != 0
    ensures name[0] <= MAX_DOMAIN_LABEL && 1 + name[0] < MAX_DOMAIN_NAME
  {
    assert Parent(name) != [];
  }

  lemma FoundAt(m: seq<Byte>, end: nat, at: nat, name: seq<Byte>)
    requires end < |m| && Wire(name) && ShortLabels(name) && name[0] != 0 && Stands(m, at, name) && at + |name| <= end
    ensures Found(m, end, name).Some? && at <= Found(m, end, name).value < end
  {
    hide Wire, ShortLabels, Match, Found, Stands;
    StandingMatches(m, end, at, name);
    FoundMatches(m, end, name);
    assert Parent(name) != [];
  }

  /** A name whose last labels stand in the message takes no more than its other labels and a pointer. */
  lemma {:induction false} SharedSize(m: seq<Byte>, searchLimit: nat, ptr: nat, limit: nat, name: seq<Byte>, used: nat,
                                      suffix: seq<Byte>, at: nat)
    requires searchLimit <= ptr && limit <= |m| && limit <= MESSAGE_LIMIT && searchLimit < |m| && Wire(name)
    requires ShortLabels(name) && used + |name| <= MAX_DOMAIN_NAME && ptr + |name| <= limit
    requires EndsIn(name, suffix) && suffix != [] && suffix[0] != 0 && Stands(m, at, suffix) && at + |suffix| <= searchLimit
    ensures var w := PutName(m, true, searchLimit, ptr, limit, name, used);
            w.Put? && w.next <= ptr + |name| - |suffix| + 2
    decreases |name|
  {
    hide Wire, PutName, Found, Splice, Label, PointerTo, EndsIn, Stands, ShortLabels;
    SuffixSize(name, suffix);
    EndsInStep(name, suffix);
    PutOnce(m, true, searchLimit, ptr, limit, name, used);
    if name[0] != 0 {
      Shorter(name);
      assert Parent(name) != [];
    }
    if |name| == |suffix| {
      SameSuffix(name, suffix);
      FoundAt(m, searchLimit, at, name);
    } else if !Found(m, searchLimit, name).Some? {
      var m1 := Splice(m, ptr, Label(name));
      StillStands(m, m1, ptr, at, suffix);
      SharedSize(m1, searchLimit, ptr + 1 + name[0], limit, Parent(name), used + 1 + name[0], suffix, at);
    }
  }

  lemma SameSuffix(name: seq<Byte>, suffix: seq<Byte>)
    requires Wire(name) && EndsIn(name, suffix) && |name| == |suffix|
    ensures name == suffix
  {
    if name != suffix { SuffixSize(Parent(name), suffix); }
  }

  lemma StillStands(m: seq<Byte>, m1: seq<Byte>, ptr: nat, at: nat, name: seq<Byte>)
    requires Stands(m, at, name) && at + |name| <= ptr <= |m| && |m1| == |m| && m1[..ptr] == m[..ptr]
    ensures Stands(m1, at, name)
  {
    SameSlice(m, m1, ptr, at, at + |name|);
  }

  /** A label of 64 bytes or more matches nowhere but at the start of a search. */
  lemma {:induction false} LongMatchesNot(m: seq<Byte>, end: nat, at: nat, name: seq<Byte>)
    requires end < |m| && Wire(name) && name[0] != 0 && name[0] <= MAX_DOMAIN_LABEL && !ShortLabels(name)
    ensures Match(m, end, at, name) == None
    decreases |name|
  {
    hide Wire, Match, Label;
    MatchOnce(m, end, at, name);
    var t, rest := at + 1 + name[0], Parent(name);
    assert rest != [];
    if t <= end && m[at..t] == Label(name) && rest[0] != 0 {
      if rest[0] > MAX_DOMAIN_LABEL {
        if m[t] < LABEL_LIMIT { LongHead(m, end, t, rest); }
        else if m[t] >= POINTER_BITS && t + 1 < end {
          var p := Offset(m[t], m[t + 1]);
          if p <= t && m[p] < LABEL_LIMIT { LongHead(m, end, p, rest); }
        }
      } else {
        LongMatchesNot(m, end, t, rest);
        if m[t] >= POINTER_BITS && t + 1 < end { LongMatchesNot(m, end, Offset(m[t], m[t + 1]), rest); }
      }
    }
  }

  lemma LongHead(m: seq<Byte>, end: nat, at: nat, name: seq<Byte>)
    requires end < |m| && at <= end && Wire(name) && name[0] > MAX_DOMAIN_LABEL && m[at] < LABEL_LIMIT
    ensures Match(m, end, at, name) == None
  {
    var t := at + 1 + name[0];
    if t <= end && m[at..t] == Label(name) { LabelHead(m, at, name); }
  }

  /** Given room for it, a name with a label of more than 63 bytes is never put. */
  lemma {:induction false} LongIsRefused(m: seq<Byte>, compress: bool, searchLimit: nat, ptr: nat, limit: nat,
                                         name: seq<Byte>, used: nat)
    requires searchLimit <= ptr && limit <= |m| && limit <= MESSAGE_LIMIT && Wire(name) && ptr + |name| <= limit
    requires !ShortLabels(name)
    ensures PutName(m, compress, searchLimit, ptr, limit, name, used).Full?
    decreases |name|
  {
    hide Wire, PutName, Found, Splice, Label, PointerTo;
    PutOnce(m, compress, searchLimit, ptr, limit, name, used);
    assert Parent(name) != [];
    if name[0] <= MAX_DOMAIN_LABEL {
      LongIsRefused(Splice(m, ptr, Label(name)), compress, searchLimit, ptr + 1 + name[0], limit, Parent(name),
                    used + 1 + name[0]);
      if compress && Found(m, searchLimit, name).Some? {
        FoundMatches(m, searchLimit, name);
        LongMatchesNot(m, searchLimit, Found(m, searchLimit, name).value, name);
      }
    }
  }

  /** Without pointers, and given room for it, a name is put exactly if it is legal. */
  lemma {:induction false} LegalIsPut(m: seq<Byte>, searchLimit: nat, ptr: nat, limit: nat, name: seq<Byte>, used: nat)
    requires searchLimit <= ptr && limit <= |m| && limit <= MESSAGE_LIMIT && Wire(name) && ptr + |name| <= limit
    requires name[0] == 0 ==> used + 1 <= MAX_DOMAIN_NAME
    ensures PutName(m, false, searchLimit, ptr, limit, name, used).Put?
            <==> ShortLabels(name) && used + |name| <= MAX_DOMAIN_NAME
    decreases |name|
  {
    hide Wire, PutName, Found, Splice, Label, PointerTo;
    PutOnce(m, false, searchLimit, ptr, limit, name, used);
    if name[0] == 0 {
      StandsRoot(name);
    } else {
      assert Parent(name) != [];
      if name[0] <= MAX_DOMAIN_LABEL && used + 1 + name[0] < MAX_DOMAIN_NAME {
        LegalIsPut(Splice(m, ptr, Label(name)), searchLimit, ptr + 1 + name[0], limit, Parent(name), used + 1 + name[0]);
      }
    }
  }

  lemma StandsRoot(name: seq<Byte>)
    requires Wire(name) && name[0] == 0
    ensures name == [0] && ShortLabels(name)
  {
  }
}
