/** The walk over a message finds the sections that were built, whatever names and records are in them. */
module Sections {
  import opened Wrappers
  import opened Slices
  import opened Bits
  import opened NetworkOrder
  import opened DomainNames
  import opened NameRoundTrip
  import opened NameChanges
  import opened Messages

  lemma {:induction false} SkipNameStable(m: seq<Byte>, ptr: nat, end: nat, total: nat, later: seq<Byte>, laterEnd: nat)
    requires ptr < end < |m| && total < MAX_DOMAIN_NAME && SkipName(m, ptr, end, total).Some?
    requires var next := SkipName(m, ptr, end, total).value;
             next <= laterEnd < |later| && later[ptr..next] == m[ptr..next]
    ensures SkipName(later, ptr, laterEnd, total) == SkipName(m, ptr, end, total)
    decreases end - ptr
  {
    var next := SkipName(m, ptr, end, total).value;
    assert later[ptr] == later[ptr..next][0] == m[ptr..next][0] == m[ptr];
    var len := m[ptr];
    if 0 < len < LABEL_LIMIT {
      var t := ptr + 1 + len;
      assert later[t..next] == later[ptr..next][t - ptr..] == m[ptr..next][t - ptr..] == m[t..next];
      SkipNameStable(m, t, end, total + 1 + len, later, laterEnd);
    }
  }

  lemma SkipDomainStable(m: seq<Byte>, ptr: nat, end: nat, later: seq<Byte>, laterEnd: nat)
    requires end < |m| && SkipDomain(m, ptr, end).Some?
    requires var next := SkipDomain(m, ptr, end).value;
             next <= laterEnd < |later| && later[ptr..next] == m[ptr..next]
    ensures SkipDomain(later, ptr, laterEnd) == SkipDomain(m, ptr, end)
  {
    hide SkipName;
    SkipNameStable(m, ptr, end, 0, later, laterEnd);
  }

  lemma SkipQuestionStable(m: seq<Byte>, ptr: nat, end: nat, later: seq<Byte>, laterEnd: nat)
    requires end < |m| && SkipQuestion(m, ptr, end).Some?
    requires var next := SkipQuestion(m, ptr, end).value;
             next <= laterEnd < |later| && later[ptr..next] == m[ptr..next]
    ensures SkipQuestion(later, ptr, laterEnd) == SkipQuestion(m, ptr, end)
  {
    hide SkipDomain;
    var p, next := SkipDomain(m, ptr, end).value, SkipQuestion(m, ptr, end).value;
    Narrower(m, later, ptr, next, ptr, p);
    SkipDomainStable(m, ptr, end, later, laterEnd);
  }

  lemma SkipRecordStable(m: seq<Byte>, ptr: nat, end: nat, later: seq<Byte>, laterEnd: nat)
    requires end < |m| && SkipRecord(m, ptr, end).Some?
    requires var next := SkipRecord(m, ptr, end).value;
             next <= laterEnd < |later| && later[ptr..next] == m[ptr..next]
    ensures SkipRecord(later, ptr, laterEnd) == SkipRecord(m, ptr, end)
  {
    hide SkipDomain, Join;
    var p, next := SkipDomain(m, ptr, end).value, SkipRecord(m, ptr, end).value;
    JoinParts(m[p + 8], m[p + 9]);
    Narrower(m, later, ptr, next, ptr, p);
    Narrower(m, later, ptr, next, p + 8, p + 10);
    assert later[p + 8] == later[p + 8..p + 10][0] && later[p + 9] == later[p + 8..p + 10][1];
    SkipDomainStable(m, ptr, end, later, laterEnd);
  }

  lemma {:induction false} SkipQuestionsStable(m: seq<Byte>, ptr: nat, end: nat, n: nat, later: seq<Byte>, laterEnd: nat)
    requires end < |m| && SkipQuestions(m, ptr, end, n).Some?
    requires var next := SkipQuestions(m, ptr, end, n).value;
             next <= laterEnd < |later| && next <= |m| && later[ptr..next] == m[ptr..next]
    ensures SkipQuestions(later, ptr, laterEnd, n) == SkipQuestions(m, ptr, end, n)
  {
    hide SkipQuestion;
    if n > 0 {
      var p, next := SkipQuestions(m, ptr, end, n - 1).value, SkipQuestions(m, ptr, end, n).value;
      Narrower(m, later, ptr, next, ptr, p);
      Narrower(m, later, ptr, next, p, next);
      SkipQuestionsStable(m, ptr, end, n - 1, later, laterEnd);
      SkipQuestionStable(m, p, end, later, laterEnd);
    }
  }

  lemma {:induction false} SkipRecordsStable(m: seq<Byte>, ptr: nat, end: nat, n: nat, later: seq<Byte>, laterEnd: nat)
    requires end < |m| && SkipRecords(m, ptr, end, n).Some?
    requires var next := SkipRecords(m, ptr, end, n).value;
             next <= laterEnd < |later| && next <= |m| && later[ptr..next] == m[ptr..next]
    ensures SkipRecords(later, ptr, laterEnd, n) == SkipRecords(m, ptr, end, n)
  {
    hide SkipRecord;
    if n > 0 {
      var p, next := SkipRecords(m, ptr, end, n - 1).value, SkipRecords(m, ptr, end, n).value;
      Narrower(m, later, ptr, next, ptr, p);
      Narrower(m, later, ptr, next, p, next);
      SkipRecordsStable(m, ptr, end, n - 1, later, laterEnd);
      SkipRecordStable(m, p, end, later, laterEnd);
    }
  }

  /** A name that was put is skipped, and what stood before it is still there. */
  lemma NamePut(m: seq<Byte>, ptr: nat, limit: nat, name: seq<Byte>)
    requires limit < |m| && limit <= MESSAGE_LIMIT && ptr <= |m| && Wire(name)
    ensures var w := PutName(m, true, ptr, ptr, limit, name, 0);
            && w.message[..ptr] == m[..ptr]
            && (w.Put? ==> SkipDomain(w.message, ptr, w.next) == Some(w.next))
  {
    hide PutName, SkipName;
    PutKeeps(m, true, ptr, ptr, limit, name, 0);
    var w := PutName(m, true, ptr, ptr, limit, name, 0);
    if w.Put? {
      SkipPut(m, true, ptr, ptr, limit, name, w.message, w.next, 0);
    }
  }

  lemma QuestionPut(m: seq<Byte>, ptr: nat, limit: nat, name: seq<Byte>, rrtype: Unsigned16, rrclass: Unsigned16)
    requires limit < |m| && limit <= MESSAGE_LIMIT && ptr <= |m| && Wire(name)
    ensures var w := PutQuestion(m, ptr, limit, name, rrtype, rrclass);
            && w.message[..ptr] == m[..ptr]
            && (w.Put? ==> SkipQuestion(w.message, ptr, w.next) == Some(w.next))
  {
    hide PutName, SkipDomain, Two, Splice;
    NamePut(m, ptr, limit, name);
    var w := PutQuestion(m, ptr, limit, name, rrtype, rrclass);
    match PutName(m, true, ptr, ptr, limit, name, 0)
    case Full(_) =>
    case Put(m', p) =>
      if p + 4 < limit {
        SameSlice(m', w.message, p, 0, ptr);
        SameSlice(m', w.message, p, ptr, p);
        SkipDomainStable(m', ptr, p, w.message, w.next);
      }
  }

  /** There is always room left after the name of a question, so no label of it is lost. */
  lemma QuestionNameWhole(m: seq<Byte>, ptr: nat, limit: nat, name: seq<Byte>, rrtype: Unsigned16, rrclass: Unsigned16)
    requires limit <= |m| && limit <= MESSAGE_LIMIT && Wire(name)
    requires PutQuestion(m, ptr, limit, name, rrtype, rrclass).Put?
    ensures !Cut(m, true, ptr, ptr, limit, name)
  {
    hide PutName, Cut, Splice;
    if Cut(m, true, ptr, ptr, limit, name) { CutEndsAtLimit(m, true, ptr, ptr, limit, name, 0); }
  }

  /** Nor of the name of a record; one in its data can lose some. */
  lemma RecordNameWhole(m: seq<Byte>, ptr: nat, limit: nat, rr: Record, ttl: Unsigned32)
    requires limit <= |m| && limit <= MESSAGE_LIMIT && ValidRecord(rr) && PutRecord(m, ptr, limit, rr, ttl).Put?
    ensures !Cut(m, true, ptr, ptr, limit, rr.name)
  {
    hide PutName, Cut, Splice, PutRData;
    if Cut(m, true, ptr, ptr, limit, rr.name) { CutEndsAtLimit(m, true, ptr, ptr, limit, rr.name, 0); }
  }

  /**
   A question that was put is read back as it was, now or later, when the counts in the header have changed, if and only
   if the place that its pointer leads to still spells the name. That it does, if nothing has changed of what the search
   looked at or if reading does not get into the header, unless the name was matched with a stale byte.
   */
  lemma QuestionRead(m: seq<Byte>, ptr: nat, limit: nat, name: seq<Byte>, rrtype: Unsigned16, rrclass: Unsigned16,
                     later: seq<Byte>, laterEnd: nat)
    requires limit <= |m| && limit <= MESSAGE_LIMIT && HEADER_SIZE <= ptr && Legal(name)
    requires var w := PutQuestion(m, ptr, limit, name, rrtype, rrclass);
             && w.Put? && w.next <= laterEnd < |later| && |m| <= |later| && later[ptr..w.next] == w.message[ptr..w.next]
    ensures var w := PutQuestion(m, ptr, limit, name, rrtype, rrclass);
            var read := GetQuestion(later, ptr, laterEnd) == Some(Fetched(name, rrtype, rrclass, w.next));
            && (read <==> Intact(m, true, ptr, ptr, limit, name, later, laterEnd))
            && (AllKept(m, true, ptr, limit, name, later) ==> (read <==> !Stale(m, true, ptr, limit, name)))
            && (later[HEADER_SIZE..ptr] == w.message[HEADER_SIZE..ptr] && LowestRead(later, ptr, laterEnd, []) >= HEADER_SIZE
                ==> (read <==> !Stale(m, true, ptr, limit, name)))
  {
    hide PutName, GetName, SkipName, Stale, Cut, LowestRead, Legal, Two, Join, Splice, Intact, AllKept;
    var w := PutQuestion(m, ptr, limit, name, rrtype, rrclass);
    QuestionNameWhole(m, ptr, limit, name, rrtype, rrclass);
    var n := PutName(m, true, ptr, ptr, limit, name, 0);
    var p := n.next;
    SameSlice(n.message, w.message, p, ptr, p);
    Narrower(w.message, later, ptr, w.next, ptr, p);
    PutThenGetChanged(m, true, ptr, limit, name, later, laterEnd);
    if AllKept(m, true, ptr, limit, name, later) { PutThenGetKept(m, true, ptr, limit, name, later, laterEnd); }
    if later[HEADER_SIZE..ptr] == w.message[HEADER_SIZE..ptr] && LowestRead(later, ptr, laterEnd, []) >= HEADER_SIZE {
      SameSlice(n.message, w.message, p, HEADER_SIZE, ptr);
      Adjoin(n.message, later, HEADER_SIZE, ptr, p);
      PutThenGetAbove(m, true, ptr, limit, name, later, laterEnd, HEADER_SIZE);
    }
    Narrower(w.message, later, ptr, w.next, p, p + 4);
    TypeAndClass(w.message, later, p, rrtype, rrclass);
  }

  lemma Adjoin(m: seq<Byte>, later: seq<Byte>, a: nat, b: nat, c: nat)
    requires a <= b <= c <= |m| && c <= |later| && later[a..b] == m[a..b] && later[b..c] == m[b..c]
    ensures later[a..c] == m[a..c]
  {
    assert m[a..c] == m[a..b] + m[b..c] && later[a..c] == later[a..b] + later[b..c];
  }

  lemma TypeAndClass(m: seq<Byte>, later: seq<Byte>, p: nat, rrtype: Unsigned16, rrclass: Unsigned16)
    requires p + 4 <= |m| && p + 4 <= |later| && later[p..p + 4] == m[p..p + 4] == Two(rrtype) + Two(rrclass)
    ensures Join(later[p], later[p + 1]) == rrtype && Join(later[p + 2], later[p + 3]) == rrclass
  {
    hide Two, Join;
    var s := later[p..p + 4];
    assert s[0] == Two(rrtype)[0] && s[1] == Two(rrtype)[1] && s[2] == Two(rrclass)[0] && s[3] == Two(rrclass)[1];
  }

  lemma RDataPut(m: seq<Byte>, ptr: nat, limit: nat, rr: Record)
    requires limit < |m| && limit <= MESSAGE_LIMIT && ptr <= limit && ValidRecord(rr)
    ensures PutRData(m, ptr, limit, rr).message[..ptr] == m[..ptr]
  {
    hide PutName, Two, Splice;
    if rr.rrtype == TYPE_CNAME || rr.rrtype == TYPE_PTR {
      NamePut(m, ptr, limit, rr.rdata.name);
    } else if rr.rrtype == TYPE_SRV && ptr + 6 <= limit {
      var fixed := Two(rr.rdata.priority) + Two(rr.rdata.weight) + rr.rdata.port;
      var m1 := Splice(m, ptr, fixed);
      NamePut(m1, ptr + 6, limit, rr.rdata.name);
      SameSlice(m1, PutRData(m, ptr, limit, rr).message, ptr + 6, 0, ptr);
    }
  }

  /** What is written after the name of a record leaves the name as it is. */
  lemma RDataKeepsName(m: seq<Byte>, p: nat, limit: nat, rr: Record, ttl: Unsigned32)
    requires limit < |m| && limit <= MESSAGE_LIMIT && p + 10 < limit && ValidRecord(rr)
    ensures var w := PutRData(Splice(m, p, Fixed(rr, ttl)), p + 10, limit, rr);
            && w.message[..p] == m[..p]
            && (w.Put? ==> Splice(w.message, p + 8, Two(w.next - p - 10))[..p] == m[..p])
  {
    hide Splice, PutRData, Fixed, Two, ValidRecord;
    var m1 := Splice(m, p, Fixed(rr, ttl));
    RDataPut(m1, p + 10, limit, rr);
    var w := PutRData(m1, p + 10, limit, rr);
    SameSlice(m1, w.message, p + 10, 0, p);
    if w.Put? {
      SameSlice(w.message, Splice(w.message, p + 8, Two(w.next - p - 10)), p + 8, 0, p);
    }
  }

  /** Where the length of the data is filled in, the walk finds the end of the record. */
  lemma RecordPut(m: seq<Byte>, ptr: nat, limit: nat, rr: Record, ttl: Unsigned32)
    requires limit < |m| && limit <= MESSAGE_LIMIT && ptr <= |m| && ValidRecord(rr)
    ensures var w := PutRecord(m, ptr, limit, rr, ttl);
            && w.message[..ptr] == m[..ptr]
            && (w.Put? ==> SkipRecord(w.message, ptr, w.next) == Some(w.next))
  {
    hide PutName, SkipDomain, Two, Splice, PutRData, Fixed, SkipRecord, Wire;
    NamePut(m, ptr, limit, rr.name);
    var w := PutRecord(m, ptr, limit, rr, ttl);
    match PutName(m, true, ptr, ptr, limit, rr.name, 0)
    case Full(_) =>
    case Put(m0, p) =>
      if p + 10 < limit {
        RDataKeepsName(m0, p, limit, rr, ttl);
        var w2 := PutRData(Splice(m0, p, Fixed(rr, ttl)), p + 10, limit, rr);
        SameSlice(m0, w2.message, p, 0, ptr);
        if w2.Put? {
          SameSlice(m0, w.message, p, 0, ptr);
          SameSlice(m0, w.message, p, ptr, p);
          LengthBytes(w2.message, p + 8, w2.next - p - 10);
          LengthSkipped(m0, w.message, ptr, p, w2.next);
        }
      }
  }

  lemma LengthSkipped(m: seq<Byte>, later: seq<Byte>, ptr: nat, p: nat, next: nat)
    requires p < |m| && SkipDomain(m, ptr, p) == Some(p) && ptr <= p <= |later|
    requires p + 10 <= next < |later| && later[ptr..p] == m[ptr..p]
    requires Join(later[p + 8], later[p + 9]) == next - p - 10
    ensures SkipRecord(later, ptr, next) == Some(next)
  {
    hide SkipDomain, Join;
    SkipDomainStable(m, ptr, p, later, next);
  }

  lemma LengthBytes(m: seq<Byte>, at: nat, x: Unsigned16)
    requires at + 2 <= |m|
    ensures var r := Splice(m, at, Two(x)); Join(r[at], r[at + 1]) == x
  {
    hide Two, Join;
    var r := Splice(m, at, Two(x));
    assert r[at..at + 2] == Two(x);
    assert r[at] == r[at..at + 2][0] && r[at + 1] == r[at..at + 2][1];
  }

  datatype Question = Question(limit: nat, name: seq<Byte>, rrtype: Unsigned16, rrclass: Unsigned16)

  datatype Answer = Answer(rr: Record, ttl: Unsigned32)

  /** A message under construction, and the place to go on. */
  datatype Building = Building(m: seq<Byte>, ptr: nat)

  /** The limits a caller may give, within the message; one more byte can be looked at. */
  predicate Sound(m: seq<Byte>) {
    HEADER_SIZE + ABSOLUTE_MAX_DATA < |m|
  }

  predicate SoundQuestion(q: Question) {
    q.limit <= HEADER_SIZE + ABSOLUTE_MAX_DATA && Wire(q.name)
  }

  /** A call of `putQuestion`; the caller stays where it was when the call fails. */
  function Ask(host: Host, b: Building, q: Question): (r: Building)
    requires Sound(b.m) && SoundQuestion(q)
    ensures |r.m| == |b.m|
  {
    match PutQuestion(b.m, b.ptr, q.limit, q.name, q.rrtype, q.rrclass)
    case Full(m) => Building(m, b.ptr)
    case Put(m, next) => Building(Counted(host, m, QUESTIONS), next)
  }

  /** A call of `PutResourceRecordTTL` with the count of answers. */
  function Reply(host: Host, b: Building, a: Answer): (r: Building)
    requires Sound(b.m) && ValidRecord(a.rr)
    ensures |r.m| == |b.m|
  {
    if a.rr.unregistered then b else
    match PutRecord(b.m, b.ptr, RecordLimit(host, b.m), a.rr, a.ttl)
    case Full(m) => Building(m, b.ptr)
    case Put(m, next) => Building(Counted(host, m, ANSWERS), next)
  }

  function AskAll(host: Host, b: Building, qs: seq<Question>): (r: Building)
    requires Sound(b.m) && forall q :: q in qs ==> SoundQuestion(q)
    ensures |r.m| == |b.m|
  {
    if qs == [] then b else Ask(host, AskAll(host, b, qs[..|qs|-1]), qs[|qs|-1])
  }

  function ReplyAll(host: Host, b: Building, answers: seq<Answer>): (r: Building)
    requires Sound(b.m) && forall a :: a in answers ==> ValidRecord(a.rr)
    ensures |r.m| == |b.m|
  {
    if answers == [] then b else Reply(host, ReplyAll(host, b, answers[..|answers|-1]), answers[|answers|-1])
  }

  lemma CountOne(host: Host, m: seq<Byte>, at: nat, other: nat)
    requires at + 2 <= |m| && other + 2 <= |m| && (other + 2 <= at || at + 2 <= other) && Count(host, m, at) < 0xFFFF
    ensures var r := Counted(host, m, at);
            && Count(host, r, at) == Count(host, m, at) + 1 && Count(host, r, other) == Count(host, m, other)
            && r[at + 2..] == m[at + 2..]
  {
    hide Image16, From16;
    var n := Count(host, m, at) + 1;
    var r := Counted(host, m, at);
    From16Image(host, n);
    assert r[at..at + 2] == Image16(host, n);
    if other + 2 <= at {
      SameSlice(m, r, at, other, other + 2);
    } else {
      SliceTail(m, r, at + 2, other);
      assert m[other..other + 2] == m[other..][..2] && r[other..other + 2] == r[other..][..2];
    }
  }

  lemma SameCount(host: Host, m: seq<Byte>, later: seq<Byte>, at: nat, end: nat)
    requires at + 2 <= end <= |m| && end <= |later| && later[..end] == m[..end]
    ensures Count(host, later, at) == Count(host, m, at)
  {
    SameSlice(m, later, end, at, at + 2);
  }

  /** All questions counted in the header stand before `ptr`, and there are no answers. */
  ghost predicate Asked(host: Host, b: Building): (r: bool)
    ensures r ==> Sound(b.m)
  {
    && Sound(b.m) && HEADER_SIZE <= b.ptr <= HEADER_SIZE + ABSOLUTE_MAX_DATA
    && AnswersAt(host, b.m, b.ptr) == Some(b.ptr) && Count(host, b.m, ANSWERS) == 0
  }

  /** A header as callers start from: an identification, no flags, and nothing counted. */
  predicate Fresh(m: seq<Byte>, x: Byte, y: Byte) {
    HEADER_SIZE < |m| && m[..HEADER_SIZE] == [x, y, 0, 0, 0, 0, 0, 0, 0, 0, 0, 0]
  }

  /** A label of three zero bytes is found in it if the identification ends in 3: flags and half of the first count. */
  lemma HeaderMatch(m: seq<Byte>, x: Byte)
    requires Fresh(m, x, 3)
    ensures Legal([3, 0, 0, 0, 0]) && Found(m, HEADER_SIZE, [3, 0, 0, 0, 0]) == Some(1)
  {
    var name: seq<Byte> := [3, 0, 0, 0, 0];
    assert Parent(name) == [0];
    assert ShortLabels([0]);
    assert Label(name) == [3, 0, 0, 0];
    assert m[1..5] == m[..HEADER_SIZE][1..5] == [3, 0, 0, 0];
    assert m[5] == m[..HEADER_SIZE][5] == 0;
    assert Match(m, HEADER_SIZE, 1, name) == Some(5);
    FoundMatches(m, HEADER_SIZE, name);
    var r := Found(m, HEADER_SIZE, name).value;
    MatchStep(m, HEADER_SIZE, r, name);
    assert m[r] == m[r..r + 4][0] == 3;
  }

  /** The count of questions of a fresh header goes up to 1, in the order of the host. */
  lemma CountGoesUp(host: Host, m: seq<Byte>, x: Byte, y: Byte)
    requires Fresh(m, x, y)
    ensures Count(host, m, QUESTIONS) == 0 && Count(host, m, ANSWERS) == 0
    ensures var r := Counted(host, m, QUESTIONS); var n := if host.LittleEndian? then 1 else 0;
            r[..HEADER_SIZE] == [x, y, 0, 0, n, 1 - n, 0, 0, 0, 0, 0, 0] && r[HEADER_SIZE..] == m[HEADER_SIZE..]
  {
    var r := Counted(host, m, QUESTIONS);
    assert m[4..6] == m[..HEADER_SIZE][4..6] == [0, 0] && m[6..8] == m[..HEADER_SIZE][6..8] == [0, 0];
    assert r[4..6] == Image16(host, 1);
    assert r[..HEADER_SIZE] == r[..4] + r[4..6] + r[6..][..6];
    assert r[..4] == m[..HEADER_SIZE][..4] && r[6..][..6] == m[..HEADER_SIZE][6..];
    SliceTail(r, m, 6, HEADER_SIZE);
  }

  /** The first question of a message, whose name was found in the header over the count of questions: the count goes up,
      and with it the name that is read back. */
  lemma HeaderExample(host: Host, m: seq<Byte>, x: Byte, limit: nat, rrtype: Unsigned16, rrclass: Unsigned16)
    requires Sound(m) && Fresh(m, x, 3) && HEADER_SIZE + 6 < limit <= HEADER_SIZE + ABSOLUTE_MAX_DATA
    ensures Legal([3, 0, 0, 0, 0]) && Asked(host, Building(m, HEADER_SIZE))
    ensures var asked := Ask(host, Building(m, HEADER_SIZE), Question(limit, [3, 0, 0, 0, 0], rrtype, rrclass));
            && asked.ptr == HEADER_SIZE + 6
            && GetName(asked.m, HEADER_SIZE, asked.ptr, [])
               == Some(if host.LittleEndian? then [3, 0, 0, 1, 0] else [3, 0, 0, 0, 1, 0, 0])
  {
    hide Found, Splice, Two, Counted, Wire, ShortLabels, GetName, Count;
    HeaderMatch(m, x);
    CountGoesUp(host, m, x, 3);
    NothingAsked(host, m);
    var m1 := Splice(m, 12, PointerTo(1));
    PutOnce(m, true, 12, 12, limit, [3, 0, 0, 0, 0], 0);
    hide PutName;
    var m2 := Splice(m1, 14, Two(rrtype) + Two(rrclass));
    SameSlice(m1, m2, 14, 0, 12);
    SameSlice(m1, m2, 14, 12, 14);
    CountGoesUp(host, m2, x, 3);
    var f := Counted(host, m2, QUESTIONS);
    SameAbove(m2, f, 12, 12);
    SameAbove(m2, f, 12, 13);
    assert m2[12] == m2[12..14][0] && m2[13] == m2[12..14][1];
    ReadFromHeader(host, f, x);
  }

  lemma ReadFromHeader(host: Host, f: seq<Byte>, x: Byte)
    requires 18 < |f| && f[12] == PointerTo(1)[0] && f[13] == PointerTo(1)[1]
    requires var n := if host.LittleEndian? then 1 else 0; f[..12] == [x, 3, 0, 0, n, 1 - n, 0, 0, 0, 0, 0, 0]
    ensures GetName(f, 12, 18, []) == Some(if host.LittleEndian? then [3, 0, 0, 1, 0] else [3, 0, 0, 0, 1, 0, 0])
  {
    hide GetName;
    assert forall i :: 0 <= i < 12 ==> f[i] == f[..12][i];
    GetOnce(f, 12, 18, []);
    GetOnce(f, 1, 18, []);
    if host.LittleEndian? {
      var l: seq<Byte> := [3, 0, 0, 1];
      assert [] + f[1..5] == l && l + [0] == [3, 0, 0, 1, 0];
      GetOnce(f, 5, 18, l);
    } else {
      var l, k: seq<Byte> := [3, 0, 0, 0], [3, 0, 0, 0, 1, 0];
      assert [] + f[1..5] == l && l + f[5..7] == k && k + [0] == [3, 0, 0, 0, 1, 0, 0];
      GetOnce(f, 5, 18, l);
      GetOnce(f, 7, 18, k);
    }
  }

  /** The questions end at `first`, and the answers at `ptr`. */
  ghost predicate Replied(host: Host, b: Building, first: nat): (r: bool)
    ensures r ==> Sound(b.m)
  {
    && Sound(b.m) && HEADER_SIZE <= first <= b.ptr <= HEADER_SIZE + ABSOLUTE_MAX_DATA
    && AnswersAt(host, b.m, b.ptr) == Some(first)
    && SkipRecords(b.m, first, b.ptr, Count(host, b.m, ANSWERS)) == Some(b.ptr)
  }

  lemma AnswersAtStable(host: Host, m: seq<Byte>, end: nat, later: seq<Byte>, laterEnd: nat, first: nat)
    requires HEADER_SIZE <= first <= |m| && HEADER_SIZE <= |later| && end < |m| && first <= laterEnd < |later|
    requires AnswersAt(host, m, end) == Some(first) && later[HEADER_SIZE..first] == m[HEADER_SIZE..first]
    requires Count(host, later, QUESTIONS) == Count(host, m, QUESTIONS)
    ensures AnswersAt(host, later, laterEnd) == Some(first)
  {
    hide SkipQuestions, Count;
    SkipQuestionsStable(m, HEADER_SIZE, end, Count(host, m, QUESTIONS), later, laterEnd);
  }

  lemma AskKeeps(host: Host, b: Building, q: Question)
    requires Asked(host, b) && SoundQuestion(q)
    ensures Asked(host, Ask(host, b, q))
  {
    hide PutQuestion, SkipQuestions, Count, Counted, Wire, SkipQuestion;
    QuestionPut(b.m, b.ptr, q.limit, q.name, q.rrtype, q.rrclass);
    var w := PutQuestion(b.m, b.ptr, q.limit, q.name, q.rrtype, q.rrclass);
    var m, n := w.message, Count(host, b.m, QUESTIONS);
    SameCount(host, b.m, m, QUESTIONS, b.ptr);
    SameCount(host, b.m, m, ANSWERS, b.ptr);
    SameSlice(b.m, m, b.ptr, HEADER_SIZE, b.ptr);
    SkipQuestionsStable(b.m, HEADER_SIZE, b.ptr, n, m, b.ptr);
    if w.Put? {
      SkipQuestionsStable(b.m, HEADER_SIZE, b.ptr, n, m, w.next);
      MoreQuestions(m, HEADER_SIZE, w.next, n, b.ptr);
      CountOne(host, m, QUESTIONS, ANSWERS);
      var r := Counted(host, m, QUESTIONS);
      TailSlice(m, r, QUESTIONS + 2, HEADER_SIZE, w.next);
      SkipQuestionsStable(m, HEADER_SIZE, w.next, n + 1, r, w.next);
    }
  }

  lemma TailSlice(m: seq<Byte>, r: seq<Byte>, a: nat, lo: nat, hi: nat)
    requires a <= lo <= hi <= |m| && |m| == |r| && r[a..] == m[a..]
    ensures r[lo..hi] == m[lo..hi]
  {
    Narrower(m, r, a, |m|, lo, hi);
  }

  lemma MoreQuestions(m: seq<Byte>, ptr: nat, end: nat, n: nat, p: nat)
    requires end < |m| && SkipQuestions(m, ptr, end, n) == Some(p)
    ensures SkipQuestions(m, ptr, end, n + 1) == SkipQuestion(m, p, end)
  {
    hide SkipQuestion;
  }

  lemma MoreRecords(m: seq<Byte>, ptr: nat, end: nat, n: nat, p: nat)
    requires end < |m| && SkipRecords(m, ptr, end, n) == Some(p)
    ensures SkipRecords(m, ptr, end, n + 1) == SkipRecord(m, p, end)
  {
    hide SkipRecord;
  }

  lemma ReplyKeeps(host: Host, b: Building, a: Answer, first: nat)
    requires Replied(host, b, first) && ValidRecord(a.rr)
    ensures Replied(host, Reply(host, b, a), first)
  {
    hide PutRecord, SkipRecords, Count, Counted, ValidRecord, SkipRecord, AnswersAt, RecordLimit;
    if a.rr.unregistered { return; }
    var limit := RecordLimit(host, b.m);
    RecordPut(b.m, b.ptr, limit, a.rr, a.ttl);
    var w := PutRecord(b.m, b.ptr, limit, a.rr, a.ttl);
    var m, n := w.message, Count(host, b.m, ANSWERS);
    SameCount(host, b.m, m, QUESTIONS, b.ptr);
    SameCount(host, b.m, m, ANSWERS, b.ptr);
    SameSlice(b.m, m, b.ptr, HEADER_SIZE, first);
    SameSlice(b.m, m, b.ptr, first, b.ptr);
    AnswersAtStable(host, b.m, b.ptr, m, b.ptr, first);
    SkipRecordsStable(b.m, first, b.ptr, n, m, b.ptr);
    if w.Put? {
      AnswersAtStable(host, b.m, b.ptr, m, w.next, first);
      SkipRecordsStable(b.m, first, b.ptr, n, m, w.next);
      MoreRecords(m, first, w.next, n, b.ptr);
      CountOne(host, m, ANSWERS, QUESTIONS);
      var r := Counted(host, m, ANSWERS);
      TailSlice(m, r, ANSWERS + 2, HEADER_SIZE, first);
      TailSlice(m, r, ANSWERS + 2, first, w.next);
      AnswersAtStable(host, m, w.next, r, w.next, first);
      SkipRecordsStable(m, first, w.next, n + 1, r, w.next);
    }
  }

  /** A call of PutResourceRecordTTL that puts a record counts it, and one that does not leaves the count alone. */
  lemma ReplyCounts(host: Host, b: Building, a: Answer, first: nat)
    requires Replied(host, b, first) && ValidRecord(a.rr)
    ensures var r := Reply(host, b, a);
            var n := Count(host, r.m, ANSWERS);
            || (r.ptr == b.ptr && n == Count(host, b.m, ANSWERS))
            || (r.ptr <= RecordLimit(host, b.m) && n == Count(host, b.m, ANSWERS) + 1)
  {
    hide PutRecord, SkipRecords, Count, Counted, ValidRecord, SkipRecord, AnswersAt, RecordLimit;
    if a.rr.unregistered { return; }
    var limit := RecordLimit(host, b.m);
    RecordPut(b.m, b.ptr, limit, a.rr, a.ttl);
    var m := PutRecord(b.m, b.ptr, limit, a.rr, a.ttl).message;
    SameCount(host, b.m, m, ANSWERS, b.ptr);
    CountOne(host, m, ANSWERS, QUESTIONS);
  }

  /** A message is beyond the size of an Ethernet packet only if there is a single answer in it. */
  lemma {:induction false} LargeIsAlone(host: Host, b: Building, answers: seq<Answer>, first: nat)
    requires Replied(host, b, first) && forall a :: a in answers ==> ValidRecord(a.rr)
    requires b.ptr <= HEADER_SIZE + NORMAL_MAX_DATA
    requires Count(host, b.m, ANSWERS) == 0
    ensures var r := ReplyAll(host, b, answers); r.ptr <= HEADER_SIZE + NORMAL_MAX_DATA || Count(host, r.m, ANSWERS) == 1
  {
    hide Replied, Reply, ValidRecord, Count;
    if answers != [] {
      var before, a := ReplyAll(host, b, answers[..|answers|-1]), answers[|answers|-1];
      LargeIsAlone(host, b, answers[..|answers|-1], first);
      AllReplied(host, b, answers[..|answers|-1], first);
      ReplyCounts(host, before, a, first);
    }
  }

  lemma {:induction false} AllAsked(host: Host, b: Building, qs: seq<Question>)
    requires Asked(host, b) && forall q :: q in qs ==> SoundQuestion(q)
    ensures Asked(host, AskAll(host, b, qs))
  {
    hide Asked, Ask, SoundQuestion;
    if qs != [] {
      AllAsked(host, b, qs[..|qs|-1]);
      AskKeeps(host, AskAll(host, b, qs[..|qs|-1]), qs[|qs|-1]);
    }
  }

  lemma {:induction false} AllReplied(host: Host, b: Building, answers: seq<Answer>, first: nat)
    requires Replied(host, b, first) && forall a :: a in answers ==> ValidRecord(a.rr)
    ensures Replied(host, ReplyAll(host, b, answers), first)
  {
    hide Replied, Reply, ValidRecord;
    if answers != [] {
      AllReplied(host, b, answers[..|answers|-1], first);
      ReplyKeeps(host, ReplyAll(host, b, answers[..|answers|-1]), answers[|answers|-1], first);
    }
  }

  /**
   However many questions and then answers are put into an empty message, and whether there was room for them or not:
   the answers are found where the last question ended, and the authorities where the last answer ended.
   */
  lemma SectionsFound(host: Host, empty: seq<Byte>, qs: seq<Question>, answers: seq<Answer>, later: seq<Byte>, end: nat)
    requires Sound(empty) && Count(host, empty, QUESTIONS) == 0 && Count(host, empty, ANSWERS) == 0
    requires (forall q :: q in qs ==> SoundQuestion(q)) && (forall a :: a in answers ==> ValidRecord(a.rr))
    requires var asked := AskAll(host, Building(empty, HEADER_SIZE), qs);
             var built := ReplyAll(host, asked, answers);
             built.ptr <= end < |later| && built.ptr <= |built.m| && later[..built.ptr] == built.m[..built.ptr]
             && HEADER_SIZE <= built.ptr
    ensures var asked := AskAll(host, Building(empty, HEADER_SIZE), qs);
            var built := ReplyAll(host, asked, answers);
            AnswersAt(host, later, end) == Some(asked.ptr) && AuthoritiesAt(host, later, end) == Some(built.ptr)
  {
    hide AskAll, ReplyAll, AnswersAt, SkipRecords, Count, ValidRecord, SoundQuestion;
    var start := Building(empty, HEADER_SIZE);
    var asked := AskAll(host, start, qs);
    var built := ReplyAll(host, asked, answers);
    NothingAsked(host, empty);
    AllAsked(host, start, qs);
    NothingReplied(host, asked);
    AllReplied(host, asked, answers, asked.ptr);
    SameCount(host, built.m, later, QUESTIONS, built.ptr);
    SameCount(host, built.m, later, ANSWERS, built.ptr);
    SameSlice(built.m, later, built.ptr, HEADER_SIZE, asked.ptr);
    SameSlice(built.m, later, built.ptr, asked.ptr, built.ptr);
    AnswersAtStable(host, built.m, built.ptr, later, end, asked.ptr);
    SkipRecordsStable(built.m, asked.ptr, built.ptr, Count(host, built.m, ANSWERS), later, end);
  }

  lemma NothingAsked(host: Host, m: seq<Byte>)
    requires Sound(m) && Count(host, m, QUESTIONS) == 0 && Count(host, m, ANSWERS) == 0
    ensures Asked(host, Building(m, HEADER_SIZE))
  {
    hide Count;
  }

  lemma NothingReplied(host: Host, b: Building)
    requires Asked(host, b)
    ensures Replied(host, b, b.ptr)
  {
    hide Count, AnswersAt;
  }

  /** What a caller has built so far stays, but for the header. */
  ghost predicate Extends(b: Building, r: Building): (e: bool)
    ensures e ==> |r.m| == |b.m| && HEADER_SIZE <= b.ptr <= r.ptr < |r.m|
  {
    && |r.m| == |b.m| && HEADER_SIZE <= b.ptr <= r.ptr <= HEADER_SIZE + ABSOLUTE_MAX_DATA < |r.m|
    && r.m[HEADER_SIZE..b.ptr] == b.m[HEADER_SIZE..b.ptr]
  }

  lemma ExtendsMore(a: Building, b: Building, c: Building)
    requires Extends(a, b) && Extends(b, c)
    ensures Extends(a, c)
  {
    Narrower(b.m, c.m, HEADER_SIZE, b.ptr, HEADER_SIZE, a.ptr);
  }

  lemma CountedAbove(host: Host, m: seq<Byte>, at: nat, hi: nat)
    requires at + 2 <= HEADER_SIZE <= hi <= |m|
    ensures Counted(host, m, at)[HEADER_SIZE..hi] == m[HEADER_SIZE..hi]
  {
    hide Image16, Count;
    TailSlice(m, Counted(host, m, at), at + 2, HEADER_SIZE, hi);
  }

  lemma AskExtends(host: Host, b: Building, q: Question)
    requires Sound(b.m) && SoundQuestion(q) && HEADER_SIZE <= b.ptr <= HEADER_SIZE + ABSOLUTE_MAX_DATA
    ensures Extends(b, Ask(host, b, q))
  {
    hide PutQuestion, Counted;
    QuestionPut(b.m, b.ptr, q.limit, q.name, q.rrtype, q.rrclass);
    var w := PutQuestion(b.m, b.ptr, q.limit, q.name, q.rrtype, q.rrclass);
    SameSlice(b.m, w.message, b.ptr, HEADER_SIZE, b.ptr);
    CountedAbove(host, w.message, QUESTIONS, b.ptr);
  }

  lemma ReplyExtends(host: Host, b: Building, a: Answer)
    requires Sound(b.m) && ValidRecord(a.rr) && HEADER_SIZE <= b.ptr <= HEADER_SIZE + ABSOLUTE_MAX_DATA
    ensures Extends(b, Reply(host, b, a))
  {
    hide PutRecord, Counted, RecordLimit, ValidRecord;
    var limit := RecordLimit(host, b.m);
    RecordPut(b.m, b.ptr, limit, a.rr, a.ttl);
    var w := PutRecord(b.m, b.ptr, limit, a.rr, a.ttl);
    SameSlice(b.m, w.message, b.ptr, HEADER_SIZE, b.ptr);
    CountedAbove(host, w.message, ANSWERS, b.ptr);
  }

  lemma {:induction false} AskAllExtends(host: Host, b: Building, qs: seq<Question>)
    requires Sound(b.m) && HEADER_SIZE <= b.ptr <= HEADER_SIZE + ABSOLUTE_MAX_DATA
    requires forall q :: q in qs ==> SoundQuestion(q)
    ensures Extends(b, AskAll(host, b, qs))
  {
    hide Ask, SoundQuestion;
    if qs != [] {
      var before := AskAll(host, b, qs[..|qs|-1]);
      AskAllExtends(host, b, qs[..|qs|-1]);
      AskExtends(host, before, qs[|qs|-1]);
      ExtendsMore(b, before, AskAll(host, b, qs));
    }
  }

  lemma {:induction false} ReplyAllExtends(host: Host, b: Building, answers: seq<Answer>)
    requires Sound(b.m) && HEADER_SIZE <= b.ptr <= HEADER_SIZE + ABSOLUTE_MAX_DATA
    requires forall a :: a in answers ==> ValidRecord(a.rr)
    ensures Extends(b, ReplyAll(host, b, answers))
  {
    hide Reply, ValidRecord;
    if answers != [] {
      var before := ReplyAll(host, b, answers[..|answers|-1]);
      ReplyAllExtends(host, b, answers[..|answers|-1]);
      ReplyExtends(host, before, answers[|answers|-1]);
      ExtendsMore(b, before, ReplyAll(host, b, answers));
    }
  }

  /** A question put anywhere in a run is read back at the end of it, whatever was put after it, if and only if its name
      is still spelt where its pointer leads; see `QuestionRead`. */
  lemma QuestionOfRunRead(host: Host, b: Building, q: Question, more: seq<Question>, answers: seq<Answer>)
    requires Sound(b.m) && HEADER_SIZE <= b.ptr <= HEADER_SIZE + ABSOLUTE_MAX_DATA
    requires SoundQuestion(q) && Legal(q.name)
    requires PutQuestion(b.m, b.ptr, q.limit, q.name, q.rrtype, q.rrclass).Put?
    requires (forall x :: x in more ==> SoundQuestion(x)) && (forall x :: x in answers ==> ValidRecord(x.rr))
    ensures var built := ReplyAll(host, AskAll(host, Ask(host, b, q), more), answers);
            && b.ptr < built.ptr < |built.m|
            && var read := GetQuestion(built.m, b.ptr, built.ptr)
                           == Some(Fetched(q.name, q.rrtype, q.rrclass, Ask(host, b, q).ptr));
            && (read <==> Intact(b.m, true, b.ptr, b.ptr, q.limit, q.name, built.m, built.ptr))
            && (AllKept(b.m, true, b.ptr, q.limit, q.name, built.m) || LowestRead(built.m, b.ptr, built.ptr, []) >= HEADER_SIZE
                ==> (read <==> !Stale(b.m, true, b.ptr, q.limit, q.name)))
  {
    hide PutQuestion, AskAll, ReplyAll, ValidRecord, Stale, GetQuestion, LowestRead, Legal, Counted, Intact, AllKept;
    var w := PutQuestion(b.m, b.ptr, q.limit, q.name, q.rrtype, q.rrclass);
    var first := Ask(host, b, q);
    var asked := AskAll(host, first, more);
    var built := ReplyAll(host, asked, answers);
    AskExtends(host, b, q);
    AskAllExtends(host, first, more);
    ReplyAllExtends(host, asked, answers);
    ExtendsMore(first, asked, built);
    CountedAbove(host, w.message, QUESTIONS, w.next);
    Narrower(w.message, built.m, HEADER_SIZE, w.next, b.ptr, w.next);
    Narrower(w.message, built.m, HEADER_SIZE, w.next, HEADER_SIZE, b.ptr);
    QuestionRead(b.m, b.ptr, q.limit, q.name, q.rrtype, q.rrclass, built.m, built.ptr);
  }

  /** The data of a record stands between two places of a message as its type prescribes (RFC 1035, section 3.3). */
  ghost predicate DataLaid(rr: Record, m: seq<Byte>, at: nat, end: nat)
    requires at <= end < |m| && ValidRecord(rr)
  {
    if rr.rrtype == TYPE_CNAME || rr.rrtype == TYPE_PTR then SkipDomain(m, at, end) == Some(end)
    else if rr.rrtype == TYPE_SRV then
      && at + 6 < end && Join(m[at], m[at + 1]) == rr.rdata.priority && Join(m[at + 2], m[at + 3]) == rr.rdata.weight
      && m[at + 4..at + 6] == rr.rdata.port && SkipDomain(m, at + 6, end) == Some(end)
    else
      && m[at..end] == rr.rdata.bytes[..rr.rdlength]
      && (rr.rrtype == TYPE_A ==> rr.rdlength == 4) && (rr.rrtype == TYPE_AAAA ==> rr.rdlength == 16)
  }

  lemma RDataLaid(m: seq<Byte>, ptr: nat, limit: nat, rr: Record)
    requires limit < |m| && limit <= MESSAGE_LIMIT && ptr <= limit && ValidRecord(rr)
    requires PutRData(m, ptr, limit, rr).Put?
    ensures DataLaid(rr, PutRData(m, ptr, limit, rr).message, ptr, PutRData(m, ptr, limit, rr).next)
  {
    hide PutName, Two, Join, Wire;
    if rr.rrtype == TYPE_CNAME || rr.rrtype == TYPE_PTR {
      NamePut(m, ptr, limit, rr.rdata.name);
    } else if rr.rrtype == TYPE_SRV {
      var fixed := Two(rr.rdata.priority) + Two(rr.rdata.weight) + rr.rdata.port;
      var m1 := Splice(m, ptr, fixed);
      NamePut(m1, ptr + 6, limit, rr.rdata.name);
      var w := PutRData(m, ptr, limit, rr);
      SameSlice(m1, w.message, ptr + 6, ptr, ptr + 6);
      ServiceFields(w.message, ptr, rr);
    }
  }

  lemma ServiceFields(m: seq<Byte>, at: nat, rr: Record)
    requires at + 6 <= |m| && |rr.rdata.port| == 2
    requires m[at..at + 6] == Two(rr.rdata.priority) + Two(rr.rdata.weight) + rr.rdata.port
    ensures Join(m[at], m[at + 1]) == rr.rdata.priority && Join(m[at + 2], m[at + 3]) == rr.rdata.weight
    ensures m[at + 4..at + 6] == rr.rdata.port
  {
    hide Two, Join;
    var s := m[at..at + 6];
    assert s[..2] == Two(rr.rdata.priority) && s[2..4] == Two(rr.rdata.weight) && s[4..] == rr.rdata.port;
    Subslice(m, at, at + 6, at, at + 2);
    Subslice(m, at, at + 6, at + 2, at + 4);
    Subslice(m, at, at + 6, at + 4, at + 6);
    assert m[at..at + 2][0] == m[at] && m[at..at + 2][1] == m[at + 1];
    assert m[at + 2..at + 4][0] == m[at + 2] && m[at + 2..at + 4][1] == m[at + 3];
  }

  lemma DataLaidStable(rr: Record, m: seq<Byte>, later: seq<Byte>, at: nat, end: nat)
    requires at <= end < |m| && |later| == |m| && ValidRecord(rr) && DataLaid(rr, m, at, end)
    requires later[at..end] == m[at..end]
    ensures DataLaid(rr, later, at, end)
  {
    hide Join, SkipDomain, Wire;
    if rr.rrtype == TYPE_CNAME || rr.rrtype == TYPE_PTR {
      SkipDomainStable(m, at, end, later, end);
    } else if rr.rrtype == TYPE_SRV {
      Narrower(m, later, at, end, at + 6, end);
      Narrower(m, later, at, end, at + 4, at + 6);
      assert forall i :: at <= i < end ==> later[i] == later[at..end][i - at] == m[at..end][i - at] == m[i];
      SkipDomainStable(m, at + 6, end, later, end);
    }
  }

  /** A record stands in the message field by field (RFC 1035, section 4.1.3), with its length filled in. */
  lemma RecordLaid(m: seq<Byte>, ptr: nat, limit: nat, rr: Record, ttl: Unsigned32)
    requires limit < |m| && limit <= MESSAGE_LIMIT && ValidRecord(rr) && PutRecord(m, ptr, limit, rr, ttl).Put?
    ensures var w, p := PutRecord(m, ptr, limit, rr, ttl), PutName(m, true, ptr, ptr, limit, rr.name, 0).next;
            var r := w.message;
            && p + 10 <= w.next
            && Join(r[p], r[p + 1]) == rr.rrtype && Join(r[p + 2], r[p + 3]) == rr.rrclass
            && Spelled(r[p + 4..p + 8]) == ttl && Join(r[p + 8], r[p + 9]) == w.next - p - 10
            && DataLaid(rr, r, p + 10, w.next)
  {
    hide PutName, Two, PutRData, Fixed, Join, Spelled, DataLaid, Splice, Wire;
    var w, n := PutRecord(m, ptr, limit, rr, ttl), PutName(m, true, ptr, ptr, limit, rr.name, 0);
    var p := n.next;
    var m1 := Splice(n.message, p, Fixed(rr, ttl));
    var d := PutRData(m1, p + 10, limit, rr);
    RDataPut(m1, p + 10, limit, rr);
    RDataLaid(m1, p + 10, limit, rr);
    SameSlice(m1, d.message, p + 10, p, p + 8);
    SameSlice(d.message, w.message, p + 8, p, p + 8);
    FixedFields(w.message, p, rr, ttl);
    LengthBytes(d.message, p + 8, d.next - p - 10);
    TailSlice(d.message, w.message, p + 10, p + 10, d.next);
    DataLaidStable(rr, d.message, w.message, p + 10, d.next);
  }

  lemma FixedFields(m: seq<Byte>, p: nat, rr: Record, ttl: Unsigned32)
    requires p + 8 <= |m| && m[p..p + 8] == Fixed(rr, ttl)
    ensures Join(m[p], m[p + 1]) == rr.rrtype && Join(m[p + 2], m[p + 3]) == rr.rrclass
    ensures Spelled(m[p + 4..p + 8]) == ttl
  {
    hide Two, Join, Octets, Spelled;
    var s := m[p..p + 8];
    assert s[..2] == Two(rr.rrtype) && s[2..4] == Two(rr.rrclass) && s[4..] == Octets(ttl);
    Subslice(m, p, p + 8, p, p + 2);
    Subslice(m, p, p + 8, p + 2, p + 4);
    Subslice(m, p, p + 8, p + 4, p + 8);
    assert m[p..p + 2][0] == m[p] && m[p..p + 2][1] == m[p + 1];
    assert m[p + 2..p + 4][0] == m[p + 2] && m[p + 2..p + 4][1] == m[p + 3];
    OctetsSpell(ttl);
  }
}
