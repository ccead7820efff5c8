/** Questions and resource records in a DNS message (RFC 1035, section 4.1), and the walk over its sections. */
module Messages {
  import opened Wrappers
  import opened Slices
  import opened Bits
  import opened NetworkOrder
  import opened DomainNames

  const HEADER_SIZE := 12
  const ABSOLUTE_MAX_DATA := 8940
  const NORMAL_MAX_DATA := 1440

  /** Where the header keeps the size of each section. */
  const QUESTIONS := 4
  const ANSWERS := 6
  const AUTHORITIES := 8
  const ADDITIONALS := 10

  const TYPE_A := 1
  const TYPE_CNAME := 5
  const TYPE_PTR := 12
  const TYPE_AAAA := 28
  const TYPE_SRV := 33

  /** The parts of the data of a record that its type makes use of. */
  datatype RData = RData(bytes: seq<Byte>, name: seq<Byte>, priority: Unsigned16, weight: Unsigned16, port: seq<Byte>)

  datatype Record = Record(unregistered: bool, name: seq<Byte>, rrtype: Unsigned16, rrclass: Unsigned16,
                           rdlength: Unsigned16, rdata: RData)

  predicate ValidRecord(rr: Record) {
    Wire(rr.name) && Wire(rr.rdata.name) && rr.rdlength <= |rr.rdata.bytes| && |rr.rdata.port| == 2
  }

  /** A count in the header, kept in the order of the host while the message is built. */
  function Count(host: Host, m: seq<Byte>, at: nat): Unsigned16
    requires at + 2 <= |m|
  {
    From16(host, m[at..at + 2])
  }

  function Counted(host: Host, m: seq<Byte>, at: nat): (r: seq<Byte>)
    requires at + 2 <= |m|
    ensures |r| == |m|
  {
    Splice(m, at, Image16(host, (Count(host, m, at) + 1) % 0x1_0000))
  }

  function Two(x: Unsigned16): (s: seq<Byte>)
    ensures |s| == 2 && Join(s[0], s[1]) == x
  {
    [x / 0x100, x % 0x100]
  }

  /** `putQuestion`, but for its count. */
  function PutQuestion(m: seq<Byte>, ptr: nat, limit: nat, name: seq<Byte>, rrtype: Unsigned16, rrclass: Unsigned16)
    : (w: Written)
    requires limit <= |m| && limit <= MESSAGE_LIMIT && Wire(name)
    ensures |w.message| == |m| && (w.Put? ==> ptr + 5 <= w.next < limit)
  {
    match PutName(m, true, ptr, ptr, limit, name, 0)
    case Full(m') => Full(m')
    case Put(m', p) =>
      if p + 4 >= limit then Full(m') else Put(Splice(m', p, Two(rrtype) + Two(rrclass)), p + 4)
  }

  /** `putRData`. */
  function PutRData(m: seq<Byte>, ptr: nat, limit: nat, rr: Record): (w: Written)
    requires limit <= |m| && limit <= MESSAGE_LIMIT && ValidRecord(rr)
    ensures |w.message| == |m| && (w.Put? ==> ptr <= w.next <= limit)
  {
    if rr.rrtype == TYPE_A && rr.rdlength != 4 then Full(m)
    else if rr.rrtype == TYPE_AAAA && rr.rdlength != 16 then Full(m)
    else if rr.rrtype == TYPE_CNAME || rr.rrtype == TYPE_PTR then
      PutName(m, true, ptr, ptr, limit, rr.rdata.name, 0)
    else if rr.rrtype == TYPE_SRV then
      if ptr + 6 > limit then Full(m)
      else
        var fixed := Two(rr.rdata.priority) + Two(rr.rdata.weight) + rr.rdata.port;
        PutName(Splice(m, ptr, fixed), true, ptr + 6, ptr + 6, limit, rr.rdata.name, 0)
    else if ptr + rr.rdlength > limit then Full(m)
    else Put(Splice(m, ptr, rr.rdata.bytes[..rr.rdlength]), ptr + rr.rdlength)
  }

  /** How far a record may go: a second one must keep the message below the size of an Ethernet packet. */
  function RecordLimit(host: Host, m: seq<Byte>): (limit: nat)
    requires HEADER_SIZE <= |m|
    ensures limit <= HEADER_SIZE + ABSOLUTE_MAX_DATA
  {
    if Count(host, m, ANSWERS) != 0 || Count(host, m, AUTHORITIES) != 0 || Count(host, m, ADDITIONALS) != 0
    then HEADER_SIZE + NORMAL_MAX_DATA else HEADER_SIZE + ABSOLUTE_MAX_DATA
  }

  /** The fixed part of a record, before the length of its data. */
  function Fixed(rr: Record, ttl: Unsigned32): (s: seq<Byte>)
    ensures |s| == 8
  {
    Two(rr.rrtype) + Two(rr.rrclass) + Octets(ttl)
  }

  /** `PutResourceRecordTTL`, but for its count, for a registered record. */
  function PutRecord(m: seq<Byte>, ptr: nat, limit: nat, rr: Record, ttl: Unsigned32): (w: Written)
    requires limit <= |m| && limit <= MESSAGE_LIMIT && ValidRecord(rr)
    ensures |w.message| == |m| && (w.Put? ==> ptr + 11 <= w.next <= limit)
  {
    match PutName(m, true, ptr, ptr, limit, rr.name, 0)
    case Full(m1) => Full(m1)
    case Put(m1, p) =>
      if p + 10 >= limit then Full(m1) else
      match PutRData(Splice(m1, p, Fixed(rr, ttl)), p + 10, limit, rr)
      case Full(m2) => Full(m2)
      case Put(m2, e) => Put(Splice(m2, p + 8, Two(e - p - 10)), e)
  }

  /** `skipDomainName` from any place. */
  function SkipDomain(m: seq<Byte>, ptr: nat, end: nat): (next: Option<nat>)
    requires end < |m|
    ensures next.Some? ==> ptr < next.value <= end + 1
  {
    if ptr >= end then None else SkipName(m, ptr, end, 0)
  }

  /** `skipQuestion`. */
  function SkipQuestion(m: seq<Byte>, ptr: nat, end: nat): (next: Option<nat>)
    requires end < |m|
    ensures next.Some? ==> ptr + 5 <= next.value <= end
  {
    match SkipDomain(m, ptr, end)
    case None => None
    case Some(p) => if p + 4 > end then None else Some(p + 4)
  }

  /** `skipResourceRecord`. */
  function SkipRecord(m: seq<Byte>, ptr: nat, end: nat): (next: Option<nat>)
    requires end < |m|
    ensures next.Some? ==> ptr + 11 <= next.value <= end
  {
    match SkipDomain(m, ptr, end)
    case None => None
    case Some(p) =>
      if p + 10 > end || p + 10 + Join(m[p + 8], m[p + 9]) > end then None
      else Some(p + 10 + Join(m[p + 8], m[p + 9]))
  }

  /** A question that was read, and the place after it. */
  datatype Fetched = Fetched(name: seq<Byte>, rrtype: int, rrclass: int, next: nat)

  /** `getQuestion` */
  function GetQuestion(m: seq<Byte>, ptr: nat, end: nat): Option<Fetched>
    requires end < |m|
  {
    if ptr >= end then None else
    match GetName(m, ptr, end, [])
    case None => None
    case Some(name) =>
      match SkipName(m, ptr, end, 0)
      case None => None
      case Some(p) =>
        if p + 4 > end then None
        else Some(Fetched(name, Join(m[p], m[p + 1]), Join(m[p + 2], m[p + 3]), p + 4))
  }

  function SkipQuestions(m: seq<Byte>, ptr: nat, end: nat, n: nat): (next: Option<nat>)
    requires end < |m|
    ensures next.Some? ==> ptr + 5 * n <= next.value
  {
    if n == 0 then Some(ptr) else
    match SkipQuestions(m, ptr, end, n - 1)
    case None => None
    case Some(p) => SkipQuestion(m, p, end)
  }

  function SkipRecords(m: seq<Byte>, ptr: nat, end: nat, n: nat): (next: Option<nat>)
    requires end < |m|
    ensures next.Some? ==> ptr + 11 * n <= next.value
  {
    if n == 0 then Some(ptr) else
    match SkipRecords(m, ptr, end, n - 1)
    case None => None
    case Some(p) => SkipRecord(m, p, end)
  }

  /** `LocateAnswers`. */
  function AnswersAt(host: Host, m: seq<Byte>, end: nat): Option<nat>
    requires HEADER_SIZE <= |m| && end < |m|
  {
    SkipQuestions(m, HEADER_SIZE, end, Count(host, m, QUESTIONS))
  }

  /** `LocateAuthorities`. */
  function AuthoritiesAt(host: Host, m: seq<Byte>, end: nat): Option<nat>
    requires HEADER_SIZE <= |m| && end < |m|
  {
    match AnswersAt(host, m, end)
    case None => None
    case Some(p) => SkipRecords(m, p, end, Count(host, m, ANSWERS))
  }
}
