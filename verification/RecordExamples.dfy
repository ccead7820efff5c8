/**
 Records whose data has a name that is not read back, one for each reason, as `PutResourceRecordTTL` puts them: with
 the limit that the counts in the header call for.
 */
module RecordExamples {
  import opened Wrappers
  import opened Slices
  import opened Bits
  import opened NetworkOrder
  import opened DomainNames
  import opened NameRoundTrip
  import opened NameChanges
  import opened Messages
  import opened Sections
  import opened RecordNames

  /** A record about the root, whose data is a name with a service in front of it if the type says so. */
  function About(rrtype: Unsigned16, name: seq<Byte>, port: seq<Byte>): (rr: Record)
    requires Wire(name) && |port| == 2
    ensures ValidRecord(rr)
  {
    Record(false, [0], rrtype, 1, 0, RData([], name, 0, 0, port))
  }

  /** The fixed part of the record is put in at `at + 1`, so that the length of its data goes to `at + 9`. */
  function FixedIn(m: seq<Byte>, at: nat, rr: Record, ttl: Byte): (f: seq<Byte>)
    requires at + 11 <= |m|
    ensures |f| == |m|
  {
    Splice(Splice(m, at, [0]), at + 1, Fixed(rr, ttl))
  }

  /** The message when the name in the data is put. */
  function Start(m: seq<Byte>, at: nat, rr: Record, ttl: Byte): (g: seq<Byte>)
    requires at + 11 <= |m| && (rr.rrtype == TYPE_SRV ==> at + 17 < |m|) && ValidRecord(rr)
    ensures |g| == |m|
  {
    var f := FixedIn(m, at, rr, ttl);
    if rr.rrtype == TYPE_SRV then Splice(f, at + 11, Service(rr)) else f
  }

  lemma FixedBytes(m: seq<Byte>, at: nat, rr: Record, ttl: Byte)
    requires at + 11 <= |m| && rr.rrclass == 1 && rr.rrtype < 0x100
    ensures var f := FixedIn(m, at, rr, ttl);
            && f[..at] == m[..at] && f[at] == 0 && f[at + 1..at + 9] == [0, rr.rrtype, 0, 1, 0, 0, 0, ttl]
            && f[at + 9..] == m[at + 9..]
  {
    hide Splice;
    var m1 := Splice(m, at, [0]);
    var f := FixedIn(m, at, rr, ttl);
    assert Fixed(rr, ttl) == [0, rr.rrtype, 0, 1, 0, 0, 0, ttl];
    SameSlice(m1, f, at + 1, 0, at);
    SameElement(m1, f, at + 1, at);
    assert m1[at] == m1[at..at + 1][0];
    SliceTail(m1, m, at + 1, at + 9);
  }

  /** The bytes that the search looks at. */
  lemma StartBytes(m: seq<Byte>, at: nat, rr: Record, ttl: Byte)
    requires at + 11 <= |m| && (rr.rrtype == TYPE_SRV ==> at + 17 < |m|)
    requires ValidRecord(rr) && rr.rrclass == 1 && rr.rrtype < 0x100
    ensures var g := Start(m, at, rr, ttl);
            && g[..at] == m[..at] && g[at] == 0 && g[at + 1..at + 9] == [0, rr.rrtype, 0, 1, 0, 0, 0, ttl]
            && g[at + 9] == m[at + 9] && g[at + 10] == m[at + 10]
            && (rr.rrtype == TYPE_SRV ==> g[at + 11..at + 17] == Service(rr) && g[at + 17] == m[at + 17])
  {
    hide Splice, Service, FixedIn;
    FixedBytes(m, at, rr, ttl);
    var f, g := FixedIn(m, at, rr, ttl), Start(m, at, rr, ttl);
    SameAbove(m, f, at + 9, at + 9);
    SameAbove(m, f, at + 9, at + 10);
    if rr.rrtype == TYPE_SRV {
      SameAbove(m, f, at + 9, at + 17);
      SameSlice(f, g, at + 11, 0, at);
      SameSlice(f, g, at + 11, at + 1, at + 9);
      SameElement(f, g, at + 11, at);
      SameElement(f, g, at + 11, at + 9);
      SameElement(f, g, at + 11, at + 10);
      SameAbove(f, g, at + 17, at + 17);
    }
  }

  /** Where the name in the data goes. */
  function DataAt(at: nat, rr: Record): nat {
    if rr.rrtype == TYPE_SRV then at + 17 else at + 11
  }

  /** The whole record, given what becomes of the name in its data. */
  lemma Assembled(m: seq<Byte>, at: nat, limit: nat, rr: Record, ttl: Byte, n: seq<Byte>, e: nat)
    requires at + 14 <= limit && limit < |m| && limit <= MESSAGE_LIMIT
    requires ValidRecord(rr) && rr.name == [0] && HasName(rr)
    requires var d := DataAt(at, rr);
             d < limit && PutName(Start(m, at, rr, ttl), true, d, d, limit, rr.rdata.name, 0) == Put(n, e)
    ensures var w := PutRecord(m, at, limit, rr, ttl);
            && at + 11 <= e < |n| == |m| && w == Put(Splice(n, at + 9, Two(e - at - 11)), e)
            && AfterName(m, at, limit, rr, ttl) == at + 1 && DataName(m, at, limit, rr, ttl) == DataAt(at, rr)
            && BeforeData(m, at, limit, rr, ttl) == Start(m, at, rr, ttl)
  {
    hide Splice, Two, Fixed, PutName, PutRData;
    RootPut(m, at, limit);
    DataOfRecord(FixedIn(m, at, rr, ttl), at, limit, rr, n, e);
  }

  lemma RootPut(m: seq<Byte>, at: nat, limit: nat)
    requires at < limit <= |m| && limit <= MESSAGE_LIMIT
    ensures Wire([0]) && PutName(m, true, at, at, limit, [0], 0) == Put(Splice(m, at, [0]), at + 1)
  {
  }

  lemma DataOfRecord(f: seq<Byte>, at: nat, limit: nat, rr: Record, n: seq<Byte>, e: nat)
    requires at + 14 <= limit && limit < |f| && limit <= MESSAGE_LIMIT && ValidRecord(rr) && HasName(rr)
    requires var d := DataAt(at, rr);
             && d < limit && Wire(rr.rdata.name)
             && PutName(if rr.rrtype == TYPE_SRV then Splice(f, at + 11, Service(rr)) else f, true, d, d, limit,
                        rr.rdata.name, 0) == Put(n, e)
    ensures PutRData(f, at + 11, limit, rr) == Put(n, e) && at + 11 <= e < |n| == |f|
  {
    hide Splice, Two, PutName, Wire;
  }

  lemma OneLabel(c: Byte)
    ensures Legal([1, c, 0]) && Label([1, c, 0]) == [1, c] && Parent([1, c, 0]) == [0]
  {
    assert Parent([1, c, 0]) == [0];
    assert ShortLabels([0]);
  }

  lemma TwoLabels(c: Byte, d: Byte)
    ensures Wire([1, c, 1, d, 0]) && Label([1, c, 1, d, 0]) == [1, c] && Parent([1, c, 1, d, 0]) == [1, d, 0]
  {
    OneLabel(d);
    assert Parent([1, c, 1, d, 0]) == [1, d, 0];
  }

  /**
   A record put fourteen bytes below the limit: at 1438 if an answer is counted, at 8938 otherwise. Its data is a name of
   two labels that does not stand in the message: only the first is put, and success is reported.
   */
  lemma DataCut(host: Host, m: seq<Byte>, at: nat, c: Byte, d: Byte)
    requires Sound(m) && at + 14 == RecordLimit(host, m)
    requires c != 0 && forall i :: 0 <= i < at - 1 ==> m[i] != 1 || m[i + 1] != c
    ensures Wire([1, c, 1, d, 0])
    ensures var rr := About(TYPE_PTR, [1, c, 1, d, 0], [0, 0]);
            var limit := RecordLimit(host, m);
            var w := PutRecord(m, at, limit, rr, 0);
            && w.Put? && w.next == limit && DataName(m, at, limit, rr, 0) == at + 11
            && GetName(w.message, at + 11, w.next, []) == Some([1, c, 0])
  {
    hide RecordLimit;
    TwoLabels(c, d);
    var rr := About(TYPE_PTR, [1, c, 1, d, 0], [0, 0]);
    var g := Start(m, at, rr, 0);
    NotThere(m, at, g, rr, c);
    NoMatch(g, at, c, d);
    CutPut(g, at, c, d);
    hide Splice, PutName, Wire, Start, PutRecord, Two, GetName;
    Assembled(m, at, at + 14, rr, 0, Splice(Splice(g, at + 11, [1, c]), at + 13, [0]), at + 14);
    CutRead(g, at, c);
  }

  lemma CutRead(g: seq<Byte>, at: nat, c: Byte)
    requires at + 14 < |g|
    ensures GetName(Splice(Splice(Splice(g, at + 11, [1, c]), at + 13, [0]), at + 9, Two(3)), at + 11, at + 14, [])
            == Some([1, c, 0])
  {
    hide Splice, Two, GetName;
    var m1 := Splice(g, at + 11, [1, c]);
    var m2 := Splice(m1, at + 13, [0]);
    var r := Splice(m2, at + 9, Two(3));
    SameSlice(m1, m2, at + 13, at + 11, at + 13);
    assert m2[at + 11..at + 14] == m2[at + 11..at + 13] + m2[at + 13..at + 14];
    Narrower(m2, r, at + 11, |m2|, at + 11, at + 14);
    ReadOne(r, at + 11, at + 14, c);
  }

  lemma ReadOne(r: seq<Byte>, at: nat, end: nat, c: Byte)
    requires at + 2 < end < |r| && r[at..at + 3] == [1, c, 0]
    ensures GetName(r, at, end, []) == Some([1, c, 0])
  {
    assert r[at] == r[at..at + 3][0] && r[at + 1] == r[at..at + 3][1] && r[at + 2] == r[at..at + 3][2];
    assert r[at..at + 2] == [1, c] && [] + [1, c] == [1, c] && [1, c] + [0] == [1, c, 0];
    assert GetName(r, at + 2, end, [1, c]) == Some([1, c, 0]);
  }

  lemma NotThere(m: seq<Byte>, at: nat, g: seq<Byte>, rr: Record, c: Byte)
    requires at + 11 <= |m| && c != 0 && ValidRecord(rr) && rr.rrclass == 1 && rr.rrtype == TYPE_PTR
    requires g == Start(m, at, rr, 0) && forall i :: 0 <= i < at - 1 ==> m[i] != 1 || m[i + 1] != c
    ensures forall i :: 0 <= i < at + 8 ==> g[i] != 1 || g[i + 1] != c
  {
    hide Start, ValidRecord;
    StartBytes(m, at, rr, 0);
    assert forall i :: 0 <= i < at ==> g[i] == g[..at][i] == m[..at][i] == m[i];
    assert forall i :: at + 1 <= i < at + 9 ==> g[i] == g[at + 1..at + 9][i - at - 1];
  }

  lemma NoMatch(g: seq<Byte>, at: nat, c: Byte, d: Byte)
    requires at + 11 < |g| && forall i :: 0 <= i < at + 8 ==> g[i] != 1 || g[i + 1] != c
    ensures Wire([1, c, 1, d, 0]) && Found(g, at + 11, [1, c, 1, d, 0]) == None
  {
    TwoLabels(c, d);
    var name: seq<Byte> := [1, c, 1, d, 0];
    FoundMatches(g, at + 11, name);
    hide Found, Match, Wire, Label;
    if Found(g, at + 11, name).Some? {
      MatchHead(g, at + 11, Found(g, at + 11, name).value, name);
    }
  }

  lemma MatchHead(g: seq<Byte>, end: nat, r: nat, name: seq<Byte>)
    requires end < |g| && Wire(name) && name[0] != 0 && Match(g, end, r, name).Some? && Parent(name)[0] != 0
    ensures r + 2 + name[0] < end && g[r] == name[0] && g[r + 1] == name[1]
  {
    hide Match, Wire;
    MatchStep(g, end, r, name);
    var t := r + 1 + name[0];
    assert g[r] == g[r..t][0] && g[r + 1] == g[r..t][1];
  }

  lemma CutPut(g: seq<Byte>, at: nat, c: Byte, d: Byte)
    requires at + 14 <= |g| && at + 14 <= MESSAGE_LIMIT
    requires Wire([1, c, 1, d, 0]) && Found(g, at + 11, [1, c, 1, d, 0]) == None
    ensures PutName(g, true, at + 11, at + 11, at + 14, [1, c, 1, d, 0], 0)
            == Put(Splice(Splice(g, at + 11, [1, c]), at + 13, [0]), at + 14)
  {
    hide Found, Splice, Wire;
    TwoLabels(c, d);
    PutOnce(g, true, at + 11, at + 11, at + 14, [1, c, 1, d, 0], 0);
    PutOnce(Splice(g, at + 11, [1, c]), true, at + 11, at + 13, at + 14, [1, d, 0], 2);
  }

  lemma PointerPut(g: seq<Byte>, at: nat, limit: nat, c: Byte, r: nat)
    requires at + 2 <= limit <= |g| && limit <= MESSAGE_LIMIT && Wire([1, c, 0]) && Found(g, at, [1, c, 0]) == Some(r)
    ensures r < MESSAGE_LIMIT && PutName(g, true, at, at, limit, [1, c, 0], 0) == Put(Splice(g, at, PointerTo(r)), at + 2)
  {
    hide Found, Splice, Wire;
    PutOnce(g, true, at, at, limit, [1, c, 0], 0);
  }

  lemma LegalData(rr: Record, c: Byte)
    requires ValidRecord(rr) && rr.rdata.name == [1, c, 0]
    ensures Legal(rr.rdata.name)
  {
    OneLabel(c);
  }

  /** A service put anywhere, whose port, with a zero byte left over after it, spells its target. */
  lemma DataStale(host: Host, m: seq<Byte>, at: nat, c: Byte)
    requires Sound(m) && at + 19 <= RecordLimit(host, m) && m[at + 17] == 0
    ensures Wire([1, c, 0])
    ensures var rr := About(TYPE_SRV, [1, c, 0], [1, c]);
            var limit := RecordLimit(host, m);
            var w := PutRecord(m, at, limit, rr, 0);
            && w.Put? && DataName(m, at, limit, rr, 0) == at + 17 && w.next == at + 19
            && Stale(BeforeData(m, at, limit, rr, 0), true, at + 17, limit, [1, c, 0])
            && GetName(w.message, at + 17, w.next, []) != Some([1, c, 0])
  {
    hide RecordLimit;
    StaleWithin(m, at, RecordLimit(host, m), c);
  }

  lemma StaleWithin(m: seq<Byte>, at: nat, limit: nat, c: Byte)
    requires at + 19 <= limit && limit < |m| && limit <= MESSAGE_LIMIT && m[at + 17] == 0
    ensures Wire([1, c, 0])
    ensures var rr := About(TYPE_SRV, [1, c, 0], [1, c]);
            var w := PutRecord(m, at, limit, rr, 0);
            && w.Put? && DataName(m, at, limit, rr, 0) == at + 17 && w.next == at + 19
            && Stale(BeforeData(m, at, limit, rr, 0), true, at + 17, limit, [1, c, 0])
            && GetName(w.message, at + 17, w.next, []) != Some([1, c, 0])
  {
    hide Splice, PutName, Found, Wire, GetName, Match, Stale, Cut, Intact, Start, PutRecord, Two, BeforeData, ClearOfLength;
    OneLabel(c);
    var rr := About(TYPE_SRV, [1, c, 0], [1, c]);
    var g := Start(m, at, rr, 0);
    ServiceStart(m, at, limit, rr, c);
    PointerPut(g, at + 17, limit, c, at + 15);
    Assembled(m, at, limit, rr, 0, Splice(g, at + 17, PointerTo(at + 15)), at + 19);
    var w := PutRecord(m, at, limit, rr, 0);
    LegalData(rr, c);
    ServiceClear(g, at, limit, c);
    DataNameRead(m, at, limit, rr, 0, w.message, at + 19);
  }

  lemma ServiceStart(m: seq<Byte>, at: nat, limit: nat, rr: Record, c: Byte)
    requires at + 19 <= limit && limit < |m| && m[at + 17] == 0
    requires ValidRecord(rr) && rr.rrclass == 1 && rr.rrtype == TYPE_SRV && rr.rdata.port == [1, c]
    ensures var g := Start(m, at, rr, 0);
            Wire([1, c, 0]) && Found(g, at + 17, [1, c, 0]) == Some(at + 15) && Stale(g, true, at + 17, limit, [1, c, 0])
  {
    hide Start, ValidRecord, Found, Stale, Wire;
    StartBytes(m, at, rr, 0);
    PortMatches(Start(m, at, rr, 0), at, limit, c, rr);
  }

  lemma PortMatches(g: seq<Byte>, at: nat, limit: nat, c: Byte, rr: Record)
    requires at + 19 <= limit <= |g| && g[at + 17] == 0 && ValidRecord(rr) && rr.rdata.port == [1, c]
    requires g[at + 11..at + 17] == Service(rr)
    ensures Wire([1, c, 0]) && Found(g, at + 17, [1, c, 0]) == Some(at + 15)
    ensures Stale(g, true, at + 17, limit, [1, c, 0])
  {
    OneLabel(c);
    assert g[at + 15..at + 17] == g[at + 11..at + 17][4..6] == [1, c];
    assert Match(g, at + 17, at + 15, [1, c, 0]) == Some(at + 17);
  }

  lemma ServiceClear(g: seq<Byte>, at: nat, limit: nat, c: Byte)
    requires at + 19 <= limit <= |g| && Wire([1, c, 0]) && Found(g, at + 17, [1, c, 0]) == Some(at + 15)
    ensures ClearOfLength(g, at + 17, limit, [1, c, 0], at + 1)
  {
    hide Found, Match;
    OneLabel(c);
  }

  /** A record put anywhere, where what is left over in the place of the length, with the last byte of the time to live in
      front, spells the name in its data. */
  lemma DataOverLength(host: Host, m: seq<Byte>, at: nat, c: Byte)
    requires Sound(m) && at + 14 <= RecordLimit(host, m)
    requires m[at + 9] == c && m[at + 10] == 0 && c >= 2
    ensures Wire([1, c, 0])
    ensures var rr := About(TYPE_PTR, [1, c, 0], [0, 0]);
            var limit := RecordLimit(host, m);
            var w := PutRecord(m, at, limit, rr, 1);
            && w.Put? && DataName(m, at, limit, rr, 1) == at + 11 && w.next == at + 13
            && !Stale(BeforeData(m, at, limit, rr, 1), true, at + 11, limit, [1, c, 0])
            && !Cut(BeforeData(m, at, limit, rr, 1), true, at + 11, at + 11, limit, [1, c, 0])
            && GetName(w.message, at + 11, w.next, []) != Some([1, c, 0])
  {
    hide RecordLimit;
    OverWithin(m, at, RecordLimit(host, m), c);
  }

  lemma OverWithin(m: seq<Byte>, at: nat, limit: nat, c: Byte)
    requires at + 14 <= limit && limit < |m| && limit <= MESSAGE_LIMIT
    requires m[at + 9] == c && m[at + 10] == 0 && c >= 2
    ensures Wire([1, c, 0])
    ensures var rr := About(TYPE_PTR, [1, c, 0], [0, 0]);
            var w := PutRecord(m, at, limit, rr, 1);
            && w.Put? && DataName(m, at, limit, rr, 1) == at + 11 && w.next == at + 13
            && !Stale(BeforeData(m, at, limit, rr, 1), true, at + 11, limit, [1, c, 0])
            && !Cut(BeforeData(m, at, limit, rr, 1), true, at + 11, at + 11, limit, [1, c, 0])
            && GetName(w.message, at + 11, w.next, []) != Some([1, c, 0])
  {
    OneLabel(c);
    var rr := About(TYPE_PTR, [1, c, 0], [0, 0]);
    var g := Start(m, at, rr, 1);
    OverLength(m, at, limit, rr, c);
    PointerPut(g, at + 11, limit, c, at + 8);
    hide Splice, PutName, Found, Wire, GetName, Match, Start, PutRecord, Two, Stale, Cut, Intact, BeforeData, ClearOfLength;
    Assembled(m, at, limit, rr, 1, Splice(g, at + 11, PointerTo(at + 8)), at + 13);
    var w := PutRecord(m, at, limit, rr, 1);
    LegalData(rr, c);
    DataNameRead(m, at, limit, rr, 1, w.message, at + 13);
    LengthReplaced(Splice(g, at + 11, PointerTo(at + 8)), g, at, c);
    NotIntact(g, at, limit, c, w.message);
  }

  lemma OverLength(m: seq<Byte>, at: nat, limit: nat, rr: Record, c: Byte)
    requires at + 14 <= limit && limit < |m| && m[at + 9] == c && m[at + 10] == 0 && c >= 2
    requires ValidRecord(rr) && rr.rrclass == 1 && rr.rrtype == TYPE_PTR
    ensures var g := Start(m, at, rr, 1);
            && g[at + 9] == c && Wire([1, c, 0]) && Found(g, at + 11, [1, c, 0]) == Some(at + 8)
            && !Stale(g, true, at + 11, limit, [1, c, 0]) && !Cut(g, true, at + 11, at + 11, limit, [1, c, 0])
  {
    hide Start, ValidRecord, Found, Stale, Cut, Wire;
    StartBytes(m, at, rr, 1);
    var g := Start(m, at, rr, 1);
    assert g[at + 8] == g[at + 1..at + 9][7];
    LengthMatches(g, at, limit, c);
  }

  lemma LengthReplaced(n: seq<Byte>, g: seq<Byte>, at: nat, c: Byte)
    requires at + 14 <= |n| == |g| && g[at + 9] == c && c >= 2
    ensures Splice(n, at + 9, Two(2))[at + 8..at + 10] != g[at + 8..at + 10]
  {
    hide Splice;
    var r := Splice(n, at + 9, Two(2));
    assert r[at + 9..at + 11] == Two(2) == [0, 2];
    assert r[at + 8..at + 10][1] == r[at + 9] == r[at + 9..at + 11][0];
    assert g[at + 8..at + 10][1] == g[at + 9];
  }

  lemma LengthMatches(g: seq<Byte>, at: nat, limit: nat, c: Byte)
    requires at + 14 <= limit <= |g| && g[at + 8] == 1 && g[at + 9] == c && g[at + 10] == 0 && c >= 2
    ensures Wire([1, c, 0]) && Found(g, at + 11, [1, c, 0]) == Some(at + 8)
    ensures !Stale(g, true, at + 11, limit, [1, c, 0]) && !Cut(g, true, at + 11, at + 11, limit, [1, c, 0])
  {
    OneLabel(c);
    assert g[at + 8..at + 10] == [1, c];
    assert Match(g, at + 11, at + 8, [1, c, 0]) == Some(at + 10);
    assert g[at + 9..at + 11][0] == c;
    assert Match(g, at + 11, at + 9, [1, c, 0]) == None;
    assert Find(g, at + 11, at + 8, [1, c, 0]) == Some(at + 8);
  }

  lemma NotIntact(g: seq<Byte>, at: nat, limit: nat, c: Byte, later: seq<Byte>)
    requires at + 14 <= limit <= |g| == |later| && Wire([1, c, 0]) && Found(g, at + 11, [1, c, 0]) == Some(at + 8)
    requires later[at + 8..at + 10] != g[at + 8..at + 10]
    ensures !Intact(g, true, at + 11, at + 11, limit, [1, c, 0], later, at + 13)
  {
    hide Found, Match, Spells;
  }
}
