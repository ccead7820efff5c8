/** Questions and records are put whenever there is room for them, and refused for nothing but their length. */
module MessageRoom {
  import opened Slices
  import opened Bits
  import opened NetworkOrder
  import opened DomainNames
  import opened NameRoundTrip
  import opened Messages
  import opened Sections

  /** The room that the data of a record takes without compression. */
  function DataSize(rr: Record): nat {
    match rr.rrtype as int
    case 1 => 4                                   // A
    case 28 => 16                                 // AAAA
    case 5 => |rr.rdata.name|                     // CNAME
    case 12 => |rr.rdata.name|                    // PTR
    case 33 => 6 + |rr.rdata.name|                // SRV
    case _ => rr.rdlength
  }

  /** An address has one size. */
  predicate GoodLength(rr: Record) {
    (rr.rrtype == 1 ==> rr.rdlength == 4) && (rr.rrtype == 28 ==> rr.rdlength == 16)
  }

  predicate NameInData(rr: Record) {
    rr.rrtype == 5 || rr.rrtype == 12 || rr.rrtype == 33
  }

  /** Uncompressed, the record ends at the limit or before it; and something is left for its data. */
  predicate RecordHasRoom(ptr: nat, limit: nat, rr: Record) {
    ptr + |rr.name| + 10 < limit && ptr + |rr.name| + 10 + DataSize(rr) <= limit
  }

  lemma DataFits(m: seq<Byte>, ptr: nat, limit: nat, rr: Record)
    requires limit <= |m| && limit <= MESSAGE_LIMIT && ValidRecord(rr) && ptr + DataSize(rr) <= limit
    requires NameInData(rr) ==> Legal(rr.rdata.name)
    ensures PutRData(m, ptr, limit, rr).Put? <==> GoodLength(rr)
    ensures PutRData(m, ptr, limit, rr).Put? ==> PutRData(m, ptr, limit, rr).next <= ptr + DataSize(rr)
  {
    hide PutName, Wire, Splice, ShortLabels;
    if rr.rrtype == 5 || rr.rrtype == 12 {
      PutFits(m, true, ptr, ptr, limit, rr.rdata.name, 0);
      PutSize(m, true, ptr, ptr, limit, rr.rdata.name, 0);
    } else if rr.rrtype == 33 {
      var m1 := Splice(m, ptr, Two(rr.rdata.priority) + Two(rr.rdata.weight) + rr.rdata.port);
      PutFits(m1, true, ptr + 6, ptr + 6, limit, rr.rdata.name, 0);
      PutSize(m1, true, ptr + 6, ptr + 6, limit, rr.rdata.name, 0);
    }
  }

  /** Without names in it, data takes that room exactly, and is put if and only if it has it. */
  lemma PlainDataFits(m: seq<Byte>, ptr: nat, limit: nat, rr: Record)
    requires limit <= |m| && limit <= MESSAGE_LIMIT && ValidRecord(rr) && !NameInData(rr)
    ensures PutRData(m, ptr, limit, rr).Put? <==> GoodLength(rr) && ptr + DataSize(rr) <= limit
    ensures PutRData(m, ptr, limit, rr).Put? ==> PutRData(m, ptr, limit, rr).next == ptr + DataSize(rr)
  {
    hide PutName, Wire, Splice;
  }

  /** A record that has room is put, unless it is an address of the wrong size. */
  lemma RecordFits(m: seq<Byte>, ptr: nat, limit: nat, rr: Record, ttl: Unsigned32)
    requires limit <= |m| && limit <= MESSAGE_LIMIT && ValidRecord(rr) && Legal(rr.name) && RecordHasRoom(ptr, limit, rr)
    requires NameInData(rr) ==> Legal(rr.rdata.name)
    ensures PutRecord(m, ptr, limit, rr, ttl).Put? <==> GoodLength(rr)
    ensures PutRecord(m, ptr, limit, rr, ttl).Put? ==>
              ptr + 11 <= PutRecord(m, ptr, limit, rr, ttl).next <= ptr + |rr.name| + 10 + DataSize(rr)
  {
    hide PutName, Wire, Splice, ShortLabels, PutRData, Fixed, DataSize, GoodLength;
    PutFits(m, true, ptr, ptr, limit, rr.name, 0);
    PutSize(m, true, ptr, ptr, limit, rr.name, 0);
    var n := PutName(m, true, ptr, ptr, limit, rr.name, 0);
    DataFits(Splice(n.message, n.next, Fixed(rr, ttl)), n.next + 10, limit, rr);
  }

  /** Without names in its data, a record is put exactly if it has room after its name. */
  lemma PlainRecordFits(m: seq<Byte>, ptr: nat, limit: nat, rr: Record, ttl: Unsigned32)
    requires limit <= |m| && limit <= MESSAGE_LIMIT && ValidRecord(rr) && !NameInData(rr)
    requires PutName(m, true, ptr, ptr, limit, rr.name, 0).Put?
    ensures var p := PutName(m, true, ptr, ptr, limit, rr.name, 0).next;
            PutRecord(m, ptr, limit, rr, ttl).Put?
            <==> GoodLength(rr) && p + 10 < limit && p + 10 + DataSize(rr) <= limit
  {
    hide PutName, Wire, Splice, PutRData, Fixed, DataSize, GoodLength;
    var n := PutName(m, true, ptr, ptr, limit, rr.name, 0);
    if n.next + 10 < limit {
      PlainDataFits(Splice(n.message, n.next, Fixed(rr, ttl)), n.next + 10, limit, rr);
    }
  }

  /** A question that has room is put. */
  lemma QuestionFits(m: seq<Byte>, ptr: nat, limit: nat, name: seq<Byte>, rrtype: Unsigned16, rrclass: Unsigned16)
    requires limit <= |m| && limit <= MESSAGE_LIMIT && Legal(name) && ptr + |name| + 4 < limit
    ensures var w := PutQuestion(m, ptr, limit, name, rrtype, rrclass);
            w.Put? && ptr + 5 <= w.next <= ptr + |name| + 4
  {
    hide PutName, Wire, Splice, ShortLabels;
    PutFits(m, true, ptr, ptr, limit, name, 0);
    PutSize(m, true, ptr, ptr, limit, name, 0);
  }

  /** Its type and class stand at its end, the high byte of each first. */
  lemma QuestionLaid(m: seq<Byte>, ptr: nat, limit: nat, name: seq<Byte>, rrtype: Unsigned16, rrclass: Unsigned16)
    requires limit <= |m| && limit <= MESSAGE_LIMIT && Wire(name)
    requires PutQuestion(m, ptr, limit, name, rrtype, rrclass).Put?
    ensures var w := PutQuestion(m, ptr, limit, name, rrtype, rrclass);
            w.message[w.next - 4..w.next] == [rrtype / 0x100, rrtype % 0x100, rrclass / 0x100, rrclass % 0x100]
  {
    hide PutName, Wire, Splice;
  }

  /** One of the counts in a header is one higher, modulo 2 to the 16, and nothing else of the header has changed. */
  predicate OneMore(host: Host, m: seq<Byte>, later: seq<Byte>, at: nat)
    requires 12 <= |m| && 12 <= |later| && at + 2 <= 12
  {
    && later[..at] == m[..at] && later[at + 2..12] == m[at + 2..12]
    && From16(host, later[at..at + 2]) == (From16(host, m[at..at + 2]) + 1) % 0x1_0000
  }

  lemma CountedOnce(host: Host, m: seq<Byte>, m': seq<Byte>, at: nat, ptr: nat)
    requires 12 <= ptr <= |m| == |m'| && m'[..ptr] == m[..ptr] && at + 2 <= 12
    ensures OneMore(host, m, Counted(host, m', at), at)
  {
    hide Image16, From16;
    SameSlice(m, m', ptr, 0, at);
    SameSlice(m, m', ptr, at, at + 2);
    SameSlice(m, m', ptr, at + 2, 12);
    var n: Unsigned16 := (Count(host, m, at) + 1) % 0x1_0000;
    From16Image(host, n);
    var r := Counted(host, m', at);
    assert r[at..at + 2] == Image16(host, n);
    assert r[at + 2..12] == r[at + 2..][..10 - at] && m'[at + 2..12] == m'[at + 2..][..10 - at];
    assert r[..at] == m'[..at] == m[..at];
  }

  /** A call of `putQuestion` with enough room: it succeeds, and the count of questions goes up. */
  lemma AskFits(host: Host, b: Building, q: Question)
    requires Sound(b.m) && SoundQuestion(q) && Legal(q.name) && 12 <= b.ptr && b.ptr + |q.name| + 4 < q.limit
    ensures var r := Ask(host, b, q);
            b.ptr + 5 <= r.ptr <= b.ptr + |q.name| + 4 && OneMore(host, b.m, r.m, 4)
  {
    hide PutQuestion, Wire, ShortLabels, Counted, Image16, From16;
    QuestionFits(b.m, b.ptr, q.limit, q.name, q.rrtype, q.rrclass);
    QuestionPut(b.m, b.ptr, q.limit, q.name, q.rrtype, q.rrclass);
    CountedOnce(host, b.m, PutQuestion(b.m, b.ptr, q.limit, q.name, q.rrtype, q.rrclass).message, 4, b.ptr);
  }

  /** How far a record may go: to 1452 if there is one in any section already, and to 8952 if not. */
  function Reach(host: Host, m: seq<Byte>): nat
    requires 12 <= |m|
  {
    if From16(host, m[6..8]) == 0 && From16(host, m[8..10]) == 0 && From16(host, m[10..12]) == 0 then 8952 else 1452
  }

  /**
   A call of `PutResourceRecordTTL` with enough room: it succeeds, and the count of answers goes up, unless the record is
   an address of the wrong size, or unregistered; then the place to go on is the same.
   */
  lemma ReplyFits(host: Host, b: Building, a: Answer)
    requires Sound(b.m) && ValidRecord(a.rr) && Legal(a.rr.name) && (NameInData(a.rr) ==> Legal(a.rr.rdata.name))
    requires 12 <= b.ptr && RecordHasRoom(b.ptr, Reach(host, b.m), a.rr)
    ensures var r := Reply(host, b, a);
            if a.rr.unregistered then r == b
            else if !GoodLength(a.rr) then r.ptr == b.ptr && r.m[..b.ptr] == b.m[..b.ptr]
            else b.ptr + 11 <= r.ptr <= b.ptr + |a.rr.name| + 10 + DataSize(a.rr) && OneMore(host, b.m, r.m, 6)
  {
    hide PutRecord, Wire, ShortLabels, Counted, Image16, From16, DataSize, GoodLength;
    var limit := RecordLimit(host, b.m);
    RecordFits(b.m, b.ptr, limit, a.rr, a.ttl);
    RecordPut(b.m, b.ptr, limit, a.rr, a.ttl);
    if !a.rr.unregistered && GoodLength(a.rr) {
      CountedOnce(host, b.m, PutRecord(b.m, b.ptr, limit, a.rr, a.ttl).message, 6, b.ptr);
    }
  }

  /** Whatever the record, and whether it is put or not, the message gets no further than that. */
  lemma ReplyWithin(host: Host, b: Building, a: Answer)
    requires Sound(b.m) && ValidRecord(a.rr)
    ensures var r := Reply(host, b, a); r.ptr == b.ptr || b.ptr + 11 <= r.ptr <= Reach(host, b.m)
  {
    hide PutRecord, Wire, Counted, Image16, From16;
  }
}
