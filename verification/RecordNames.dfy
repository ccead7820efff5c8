/** What is read back of the names of a record: the one it is about, and the one in its data. The search for the latter
    looks at the two bytes of the length of the data, which are filled in afterwards. */
module RecordNames {
  import opened Wrappers
  import opened Slices
  import opened Bits
  import opened NetworkOrder
  import opened DomainNames
  import opened NameRoundTrip
  import opened NameChanges
  import opened Messages
  import opened Sections

  /** The types whose data has a name in it. */
  predicate HasName(rr: Record) {
    rr.rrtype == TYPE_CNAME || rr.rrtype == TYPE_PTR || rr.rrtype == TYPE_SRV
  }

  /** Where the fixed part of a record starts. */
  function AfterName(m: seq<Byte>, ptr: nat, limit: nat, rr: Record, ttl: Unsigned32): (p: nat)
    requires limit <= |m| && limit <= MESSAGE_LIMIT && ValidRecord(rr) && PutRecord(m, ptr, limit, rr, ttl).Put?
    ensures ptr < p && p + 10 < limit && PutName(m, true, ptr, ptr, limit, rr.name, 0).Put?
    ensures p == PutName(m, true, ptr, ptr, limit, rr.name, 0).next && p + 10 <= PutRecord(m, ptr, limit, rr, ttl).next
  {
    PutName(m, true, ptr, ptr, limit, rr.name, 0).next
  }

  function Service(rr: Record): (s: seq<Byte>)
    requires ValidRecord(rr)
    ensures |s| == 6
  {
    Two(rr.rdata.priority) + Two(rr.rdata.weight) + rr.rdata.port
  }

  /** Where the name in the data goes. */
  function DataName(m: seq<Byte>, ptr: nat, limit: nat, rr: Record, ttl: Unsigned32): (d: nat)
    requires limit <= |m| && limit <= MESSAGE_LIMIT && ValidRecord(rr) && HasName(rr)
    requires PutRecord(m, ptr, limit, rr, ttl).Put?
    ensures AfterName(m, ptr, limit, rr, ttl) + 10 <= d < PutRecord(m, ptr, limit, rr, ttl).next <= limit
  {
    AfterName(m, ptr, limit, rr, ttl) + if rr.rrtype == TYPE_SRV then 16 else 10
  }

  /** The message with the fixed part of a record in it. */
  function WithFixed(m: seq<Byte>, ptr: nat, limit: nat, rr: Record, ttl: Unsigned32): (g: seq<Byte>)
    requires limit <= |m| && limit <= MESSAGE_LIMIT && ValidRecord(rr) && PutRecord(m, ptr, limit, rr, ttl).Put?
    ensures |g| == |m|
  {
    Splice(PutName(m, true, ptr, ptr, limit, rr.name, 0).message, AfterName(m, ptr, limit, rr, ttl), Fixed(rr, ttl))
  }

  /** The message when the name in the data is put. */
  function BeforeData(m: seq<Byte>, ptr: nat, limit: nat, rr: Record, ttl: Unsigned32): (g: seq<Byte>)
    requires limit <= |m| && limit <= MESSAGE_LIMIT && ValidRecord(rr) && HasName(rr)
    requires PutRecord(m, ptr, limit, rr, ttl).Put?
    ensures |g| == |m|
  {
    var g := WithFixed(m, ptr, limit, rr, ttl);
    var d := DataName(m, ptr, limit, rr, ttl);
    if rr.rrtype == TYPE_SRV then Splice(g, d - 6, Service(rr)) else g
  }

  lemma DataWire(rr: Record)
    requires ValidRecord(rr)
    ensures Wire(rr.rdata.name) && Wire(rr.name)
  {
  }

  lemma DataPut(m: seq<Byte>, ptr: nat, limit: nat, rr: Record, ttl: Unsigned32)
    requires limit <= |m| && limit <= MESSAGE_LIMIT && ValidRecord(rr) && HasName(rr)
    requires PutRecord(m, ptr, limit, rr, ttl).Put?
    ensures Wire(rr.rdata.name)
    ensures var d, w, g := DataName(m, ptr, limit, rr, ttl), PutRecord(m, ptr, limit, rr, ttl), BeforeData(m, ptr, limit, rr, ttl);
            var n := PutName(g, true, d, d, limit, rr.rdata.name, 0);
            var p := AfterName(m, ptr, limit, rr, ttl);
            n.Put? && n.next == w.next && w.message == Splice(n.message, p + 8, Two(w.next - p - 10))
  {
    hide PutName, Splice, Two, Fixed, Wire;
  }

  /** The name in the data is put in a message of which nothing changes afterwards but the length of the data. */
  lemma LengthAlone(m: seq<Byte>, ptr: nat, limit: nat, rr: Record, ttl: Unsigned32)
    requires limit <= |m| && limit <= MESSAGE_LIMIT && ValidRecord(rr) && HasName(rr)
    requires PutRecord(m, ptr, limit, rr, ttl).Put? && Wire(rr.rdata.name)
    ensures var d, g, w := DataName(m, ptr, limit, rr, ttl), BeforeData(m, ptr, limit, rr, ttl), PutRecord(m, ptr, limit, rr, ttl);
            var n, p := PutName(g, true, d, d, limit, rr.rdata.name, 0), AfterName(m, ptr, limit, rr, ttl);
            && w.message[d..w.next] == n.message[d..w.next]
            && w.message[..p + 8] == g[..p + 8] && w.message[p + 10..d] == g[p + 10..d]
  {
    hide PutName, PutRecord, Splice, Two, BeforeData, ValidRecord;
    DataPut(m, ptr, limit, rr, ttl);
    var d, g, w := DataName(m, ptr, limit, rr, ttl), BeforeData(m, ptr, limit, rr, ttl), PutRecord(m, ptr, limit, rr, ttl);
    var n, p := PutName(g, true, d, d, limit, rr.rdata.name, 0), AfterName(m, ptr, limit, rr, ttl);
    PutKeeps(g, true, d, d, limit, rr.rdata.name, 0);
    SameSlice(g, n.message, d, 0, p + 8);
    SameSlice(g, n.message, d, p + 10, d);
    TailSlice(n.message, w.message, p + 10, p + 10, d);
    TailSlice(n.message, w.message, p + 10, d, w.next);
  }

  /** The match of the pointer in the data does not look at the length of the data. */
  predicate ClearOfLength(g: seq<Byte>, d: nat, limit: nat, name: seq<Byte>, p: nat)
    requires limit <= |g| && Wire(name)
  {
    match Pointed(g, true, d, d, limit, name)
    case Labels => true
    case Via(before, place, tail) => Clear(before, place, tail, p + 8, p + 10)
  }

  lemma {:induction false} PointedKeeps(m: seq<Byte>, compress: bool, searchLimit: nat, ptr: nat, limit: nat, name: seq<Byte>)
    requires searchLimit <= ptr && limit <= |m| && Wire(name)
    ensures var c := Pointed(m, compress, searchLimit, ptr, limit, name); c.Via? ==> c.before[..searchLimit] == m[..searchLimit]
    decreases |name|
  {
    hide Match, Wire, Label, Found, Splice;
    if name[0] != 0 && ptr < limit - 1 && !UsesPointer(m, compress, searchLimit, ptr, limit, name)
       && ptr + 1 + name[0] < limit {
      var m1 := Splice(m, ptr, Label(name));
      PointedKeeps(m1, compress, searchLimit, ptr + 1 + name[0], limit, Parent(name));
      SameSlice(m, m1, ptr, 0, searchLimit);
    }
  }

  lemma ClearOfLengthKept(g: seq<Byte>, d: nat, limit: nat, name: seq<Byte>, p: nat, later: seq<Byte>)
    requires limit <= |g| <= |later| && Wire(name) && p + 10 <= d && ClearOfLength(g, d, limit, name, p) && d < |g|
    requires later[..p + 8] == g[..p + 8] && later[p + 10..d] == g[p + 10..d]
    ensures AllKept(g, true, d, limit, name, later)
  {
    hide Match, Wire, Pointed, Clear, Kept;
    match Pointed(g, true, d, d, limit, name)
    case Labels =>
    case Via(before, place, tail) =>
      PointedKeeps(g, true, d, d, limit, name);
      SameSlice(g, before, d, 0, p + 8);
      SameSlice(g, before, d, p + 10, d);
      ClearKept(before, d, place, tail, later, p + 8, p + 10);
  }

  /**
   The name in the data of a record is read back, now or later, if and only if none of its labels was cut off and the
   place that its pointer leads to still spells it once the length is filled in. If the search did not find it in the
   length, it is read back unless it was cut or matched with a stale byte.
   */
  lemma DataNameRead(m: seq<Byte>, ptr: nat, limit: nat, rr: Record, ttl: Unsigned32, later: seq<Byte>, laterEnd: nat)
    requires limit <= |m| && limit <= MESSAGE_LIMIT && ValidRecord(rr) && HasName(rr) && Legal(rr.rdata.name)
    requires PutRecord(m, ptr, limit, rr, ttl).Put?
    requires var w, d := PutRecord(m, ptr, limit, rr, ttl), DataName(m, ptr, limit, rr, ttl);
             w.next <= laterEnd < |later| && |m| <= |later| && later[d..w.next] == w.message[d..w.next]
    ensures var w, d, g := PutRecord(m, ptr, limit, rr, ttl), DataName(m, ptr, limit, rr, ttl), BeforeData(m, ptr, limit, rr, ttl);
            var name, p := rr.rdata.name, AfterName(m, ptr, limit, rr, ttl);
            var read := GetName(later, d, laterEnd, []) == Some(name);
            && (read <==> !Cut(g, true, d, d, limit, name) && Intact(g, true, d, d, limit, name, later, laterEnd))
            && (later[..d] == w.message[..d] && ClearOfLength(g, d, limit, name, p) ==>
                (read <==> !Stale(g, true, d, limit, name) && !Cut(g, true, d, d, limit, name)))
  {
    hide PutName, PutRecord, GetName, Stale, Cut, Intact, AllKept, ClearOfLength, Legal, BeforeData, Splice, Two, ValidRecord;
    var w, d, g := PutRecord(m, ptr, limit, rr, ttl), DataName(m, ptr, limit, rr, ttl), BeforeData(m, ptr, limit, rr, ttl);
    var name, p := rr.rdata.name, AfterName(m, ptr, limit, rr, ttl);
    DataPut(m, ptr, limit, rr, ttl);
    LengthAlone(m, ptr, limit, rr, ttl);
    PutThenGetChanged(g, true, d, limit, name, later, laterEnd);
    if later[..d] == w.message[..d] && ClearOfLength(g, d, limit, name, p) {
      SameSlice(w.message, later, d, 0, p + 8);
      SameSlice(w.message, later, d, p + 10, d);
      ClearOfLengthKept(g, d, limit, name, p, later);
      PutThenGetKept(g, true, d, limit, name, later, laterEnd);
    }
  }

  /** The name that a record is about is never cut, so that it is read back if and only if its pointer is intact. */
  lemma RecordNameRead(m: seq<Byte>, ptr: nat, limit: nat, rr: Record, ttl: Unsigned32, later: seq<Byte>, laterEnd: nat)
    requires limit < |m| && limit <= MESSAGE_LIMIT && ValidRecord(rr) && Legal(rr.name)
    requires PutRecord(m, ptr, limit, rr, ttl).Put?
    requires var w, p := PutRecord(m, ptr, limit, rr, ttl), AfterName(m, ptr, limit, rr, ttl);
             w.next <= laterEnd < |later| && |m| <= |later| && later[ptr..p] == w.message[ptr..p]
    ensures var read := GetName(later, ptr, laterEnd, []) == Some(rr.name);
            && (read <==> Intact(m, true, ptr, ptr, limit, rr.name, later, laterEnd))
            && (AllKept(m, true, ptr, limit, rr.name, later) ==> (read <==> !Stale(m, true, ptr, limit, rr.name)))
  {
    hide PutName, GetName, Stale, Cut, Intact, AllKept, Legal, Splice, Two, ValidRecord, PutRData, Fixed;
    var w, n := PutRecord(m, ptr, limit, rr, ttl), PutName(m, true, ptr, ptr, limit, rr.name, 0);
    DataWire(rr);
    RecordNameWhole(m, ptr, limit, rr, ttl);
    RDataKeepsName(n.message, n.next, limit, rr, ttl);
    SameSlice(n.message, w.message, n.next, ptr, n.next);
    PutThenGetChanged(m, true, ptr, limit, rr.name, later, laterEnd);
    if AllKept(m, true, ptr, limit, rr.name, later) { PutThenGetKept(m, true, ptr, limit, rr.name, later, laterEnd); }
  }
}
