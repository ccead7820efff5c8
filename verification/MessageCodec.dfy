/** The methods that put questions and records into a message buffer, and walk over them. */
module MessageCodec {
  import opened Wrappers
  import opened Slices
  import opened Bits
  import opened NetworkOrder
  import opened DomainNames
  import opened DomainNameCodec
  import opened Messages

  /** Stores into a message, byte after byte. */
  method CopyBytes(msg: array<Byte>, ptr: nat, bytes: seq<Byte>)
    requires ptr + |bytes| <= msg.Length
    modifies msg
    ensures msg[..] == Splice(old(msg[..]), ptr, bytes)
  {
    forall i | 0 <= i < |bytes| { msg[ptr + i] := bytes[i]; }
  }

  method Increment(host: Host, msg: array<Byte>, at: nat)
    requires at + 2 <= msg.Length
    modifies msg
    ensures msg[..] == Counted(host, old(msg[..]), at)
  {
    hide Image16, From16;
    var n: int := From16(host, msg[at..at + 2]);
    assert msg[..][at..at + 2] == msg[at..at + 2];
    CopyBytes(msg, at, Image16(host, (n + 1) % 0x1_0000));
  }

  /** `putQuestion`. */
  method PutQuestionIn(host: Host, msg: array<Byte>, ptr: nat, limit: nat, name: seq<Byte>,
                       rrtype: Unsigned16, rrclass: Unsigned16)
    returns (next: Option<nat>)
    requires limit <= msg.Length && limit <= MESSAGE_LIMIT && HEADER_SIZE <= msg.Length && Wire(name)
    modifies msg
    ensures match PutQuestion(old(msg[..]), ptr, limit, name, rrtype, rrclass)
            case Full(m) => next == None && msg[..] == m
            case Put(m, p) => next == Some(p) && msg[..] == Counted(host, m, QUESTIONS)
  {
    hide PutName, Splice, Counted, Wire;
    next := PutDomainNameAsLabels(msg, true, ptr, limit, name);
    if next == None || next.value + 4 >= limit { return None; }
    CopyBytes(msg, next.value, [rrtype / 0x100, rrtype % 0x100] + [rrclass / 0x100, rrclass % 0x100]);
    Increment(host, msg, QUESTIONS);
    next := Some(next.value + 4);
  }

  /** `putRData`. */
  method PutRDataIn(msg: array<Byte>, ptr: nat, limit: nat, rr: Record) returns (next: Option<nat>)
    requires limit <= msg.Length && limit <= MESSAGE_LIMIT && ValidRecord(rr)
    modifies msg
    ensures var w := PutRData(old(msg[..]), ptr, limit, rr);
            msg[..] == w.message && next == if w.Put? then Some(w.next) else None
  {
    hide PutName, Splice, Wire;
    if rr.rrtype == TYPE_A && rr.rdlength != 4 { return None; }
    if rr.rrtype == TYPE_AAAA && rr.rdlength != 16 { return None; }
    if rr.rrtype == TYPE_CNAME || rr.rrtype == TYPE_PTR {
      next := PutDomainNameAsLabels(msg, true, ptr, limit, rr.rdata.name);
    } else if rr.rrtype == TYPE_SRV {
      if ptr + 6 > limit { return None; }
      CopyBytes(msg, ptr, Two(rr.rdata.priority) + Two(rr.rdata.weight) + rr.rdata.port);
      next := PutDomainNameAsLabels(msg, true, ptr + 6, limit, rr.rdata.name);
    } else {
      if ptr + rr.rdlength > limit { return None; }
      CopyBytes(msg, ptr, rr.rdata.bytes[..rr.rdlength]);
      next := Some(ptr + rr.rdlength);
    }
  }

  /** `PutResourceRecordTTL`, with `count` the place of a count in the header. */
  method PutResourceRecordTTL(host: Host, msg: array<Byte>, start: nat, count: nat, rr: Record, ttl: Unsigned32)
    returns (next: Option<nat>)
    requires HEADER_SIZE + ABSOLUTE_MAX_DATA <= msg.Length && ValidRecord(rr) && count + 2 <= HEADER_SIZE
    modifies msg
    ensures if rr.unregistered then next == Some(start) && msg[..] == old(msg[..])
            else match PutRecord(old(msg[..]), start, RecordLimit(host, old(msg[..])), rr, ttl)
                 case Full(m) => next == None && msg[..] == m
                 case Put(m, p) => next == Some(p) && msg[..] == Counted(host, m, count)
  {
    hide PutName, Splice, Counted, PutRData, Count, Octets;
    var limit := RecordLimit(host, msg[..]);
    if rr.unregistered { return Some(start); }
    next := PutDomainNameAsLabels(msg, true, start, limit, rr.name);
    if next == None || next.value + 10 >= limit { return None; }
    var ptr := next.value;
    CopyBytes(msg, ptr, Two(rr.rrtype) + Two(rr.rrclass) + Octets(ttl));
    var endOfRData := PutRDataIn(msg, ptr + 10, limit, rr);
    if endOfRData == None { return None; }
    var actualLength := endOfRData.value - ptr - 10;
    CopyBytes(msg, ptr + 8, Two(actualLength));
    Increment(host, msg, count);
    next := endOfRData;
  }

  /** `skipQuestion`. */
  method SkipQuestionIn(msg: array<Byte>, start: nat, end: nat) returns (next: Option<nat>)
    requires end < msg.Length
    ensures next == SkipQuestion(msg[..], start, end)
  {
    next := SkipDomainName(msg, start, end);
    if next == None || next.value + 4 > end { return None; }
    next := Some(next.value + 4);
  }

  /** `skipResourceRecord`. */
  method SkipResourceRecord(msg: array<Byte>, start: nat, end: nat) returns (next: Option<nat>)
    requires end < msg.Length
    ensures next == SkipRecord(msg[..], start, end)
  {
    hide SkipDomain;
    ghost var m := msg[..];
    next := SkipDomainName(msg, start, end);
    assert next == SkipDomain(m, start, end) by { DomainSkipped(m, start, end); }
    if next == None || next.value + 10 > end { return None; }
    var ptr := next.value;
    var length := Join(msg[ptr + 8], msg[ptr + 9]);
    ptr := ptr + 10;
    if ptr + length > end { return None; }
    next := Some(ptr + length);
  }

  lemma DomainSkipped(m: seq<Byte>, start: nat, end: nat)
    requires end < |m|
    ensures SkipDomain(m, start, end) == if start >= end then None else SkipName(m, start, end, 0)
  {
    hide SkipName;
  }

  /** `getQuestion`: fills in the name, and returns type, class and the place after the question. */
  method GetQuestionIn(msg: array<Byte>, start: nat, end: nat, name: array<Byte>)
    returns (next: Option<nat>, rrtype: int, rrclass: int)
    requires end < msg.Length && name.Length == MAX_DOMAIN_NAME + 1 && msg != name
    modifies name
    ensures match GetQuestion(msg[..], start, end)
            case None => next == None
            case Some(f) =>
              && |f.name| <= name.Length && name[..|f.name|] == f.name
              && next == Some(f.next) && rrtype == f.rrtype && rrclass == f.rrclass
  {
    hide GetName, SkipName, Join;
    rrtype, rrclass := 0, 0;
    next := GetDomainName(msg, start, end, name);
    if next == None || next.value + 4 > end { return None, 0, 0; }
    var ptr := next.value;
    rrtype := Join(msg[ptr], msg[ptr + 1]);
    rrclass := Join(msg[ptr + 2], msg[ptr + 3]);
    next := Some(ptr + 4);
  }

  /** `LocateAnswers`. */
  method LocateAnswers(host: Host, msg: array<Byte>, end: nat) returns (ptr: Option<nat>)
    requires HEADER_SIZE <= msg.Length && end < msg.Length
    ensures ptr == AnswersAt(host, msg[..], end)
  {
    hide SkipQuestion, From16;
    ghost var m := msg[..];
    assert m[QUESTIONS..QUESTIONS + 2] == msg[QUESTIONS..QUESTIONS + 2];
    ptr := Some(HEADER_SIZE);
    var numQuestions := From16(host, msg[QUESTIONS..QUESTIONS + 2]);
    var i := 0;
    while i < numQuestions && ptr != None
      invariant 0 <= i <= numQuestions
      invariant ptr.Some? ==> ptr == SkipQuestions(m, HEADER_SIZE, end, i)
      invariant ptr.None? ==> SkipQuestions(m, HEADER_SIZE, end, numQuestions) == None
    {
      ptr := SkipQuestionIn(msg, ptr.value, end);
      i := i + 1;
      if ptr == None { NoMoreQuestions(m, end, i, numQuestions); }
    }
  }

  lemma {:induction false} NoMoreQuestions(m: seq<Byte>, end: nat, i: nat, n: nat)
    requires end < |m| && i <= n && SkipQuestions(m, HEADER_SIZE, end, i) == None
    ensures SkipQuestions(m, HEADER_SIZE, end, n) == None
  {
    if i < n { NoMoreQuestions(m, end, i, n - 1); }
  }

  /** `LocateAuthorities`. */
  method LocateAuthorities(host: Host, msg: array<Byte>, end: nat) returns (ptr: Option<nat>)
    requires HEADER_SIZE <= msg.Length && end < msg.Length
    ensures ptr == AuthoritiesAt(host, msg[..], end)
  {
    hide SkipRecord, From16, AnswersAt;
    ghost var m := msg[..];
    assert m[ANSWERS..ANSWERS + 2] == msg[ANSWERS..ANSWERS + 2];
    ptr := LocateAnswers(host, msg, end);
    ghost var first := ptr;
    var numAnswers := From16(host, msg[ANSWERS..ANSWERS + 2]);
    var i := 0;
    while i < numAnswers && ptr != None
      invariant 0 <= i <= numAnswers && (first == None ==> ptr == None)
      invariant ptr.Some? ==> ptr == SkipRecords(m, first.value, end, i)
      invariant ptr.None? && first.Some? ==> SkipRecords(m, first.value, end, numAnswers) == None
    {
      ptr := SkipResourceRecord(msg, ptr.value, end);
      i := i + 1;
      if ptr == None { NoMoreRecords(m, first.value, end, i, numAnswers); }
    }
  }

  lemma {:induction false} NoMoreRecords(m: seq<Byte>, first: nat, end: nat, i: nat, n: nat)
    requires end < |m| && i <= n && SkipRecords(m, first, end, i) == None
    ensures SkipRecords(m, first, end, n) == None
  {
    if i < n { NoMoreRecords(m, first, end, i, n - 1); }
  }
}
