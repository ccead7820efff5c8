/**
 Domain names in DNS messages (RFC 1035, sections 3.1 and 4.1.4): labels with their lengths, ending in the
 root label, or in a pointer to an earlier place in the message.
 */
module DomainNames {
  import opened Wrappers
  import opened Slices
  import opened Bits

  const MAX_DOMAIN_LABEL := 63
  const MAX_DOMAIN_NAME := 255

  /** The first two bits of a length byte are set in a pointer, and clear in a label. */
  const LABEL_LIMIT := 0x40
  const POINTER_BITS := 0xC0

  /** Messages are shorter than this, so that every place before their end fits into a pointer. */
  const MESSAGE_LIMIT := 0x4000

  /** Labels up to a root label; the labels may be too long. */
  predicate Wire(name: seq<Byte>): (b: bool)
    ensures b ==> name != []
  {
    name != [] &&
    if name[0] == 0 then |name| == 1 else 1 + name[0] < |name| && Wire(name[1 + name[0]..])
  }

  predicate ShortLabels(name: seq<Byte>)
    requires Wire(name)
  {
    name[0] == 0 || (name[0] <= MAX_DOMAIN_LABEL && ShortLabels(name[1 + name[0]..]))
  }

  /** The names of section 2.3.4 of RFC 1035. */
  predicate Legal(name: seq<Byte>): (b: bool)
    ensures b ==> Wire(name)
  {
    Wire(name) && ShortLabels(name) && |name| <= MAX_DOMAIN_NAME
  }

  /** A label with its length byte. */
  function Label(name: seq<Byte>): (r: seq<Byte>)
    requires Wire(name)
    ensures |r| - 1 == name[0]
  {
    if name[0] == 0 then name else name[..1 + name[0]]
  }

  function Parent(name: seq<Byte>): (rest: seq<Byte>)
    requires Wire(name) && name[0] != 0
    ensures rest != [] && Wire(rest) && |rest| == |name| - 1 - name[0] && name == Label(name) + rest
  {
    name[1 + name[0]..]
  }

  /** Where a pointer points. */
  function Offset(high: int, low: int): int {
    (high - POINTER_BITS) * 0x100 + low
  }

  /**
   The name is found in the message from `at` on, following pointers that point backwards to a label.
   `Some` of where the root label stands: this may be `end` itself, one byte further than what the message holds.
   */
  function Match(m: seq<Byte>, end: nat, at: nat, name: seq<Byte>): (stop: Option<nat>)
    requires end < |m| && Wire(name) && name[0] != 0
    ensures stop.Some? ==> stop.value <= end && m[stop.value] == 0
    decreases |name|
  {
    var t, rest := at + 1 + name[0], Parent(name);
    if t > end || m[at..t] != Label(name) then None
    else if rest[0] == 0 then if m[t] == 0 then Some(t) else None
    else if m[t] < LABEL_LIMIT then Match(m, end, t, rest)
    else if m[t] < POINTER_BITS || t + 1 >= end then None
    else
      var p := Offset(m[t], m[t + 1]);
      if t < p || m[p] >= LABEL_LIMIT then None else Match(m, end, p, rest)
  }

  /** One step of `Match`. */
  lemma MatchOnce(m: seq<Byte>, end: nat, at: nat, name: seq<Byte>)
    requires end < |m| && Wire(name) && name[0] != 0
    ensures var t, rest := at + 1 + name[0], Parent(name);
            Match(m, end, at, name) ==
            if t > end || m[at..t] != Label(name) then None
            else if rest[0] == 0 then if m[t] == 0 then Some(t) else None
            else if m[t] < LABEL_LIMIT then Match(m, end, t, rest)
            else if m[t] < POINTER_BITS || t + 1 >= end then None
            else if t < Offset(m[t], m[t + 1]) || m[Offset(m[t], m[t + 1])] >= LABEL_LIMIT then None
            else Match(m, end, Offset(m[t], m[t + 1]), rest)
  {
    hide Wire, Label;
  }

  /** What a match of one label leads to: the root, the next label, or a pointer to it. */
  lemma MatchStep(m: seq<Byte>, end: nat, at: nat, name: seq<Byte>)
    requires end < |m| && Wire(name) && name[0] != 0 && Match(m, end, at, name).Some?
    ensures var t, rest := at + 1 + name[0], Parent(name);
            && t <= end && m[at..t] == Label(name)
            && (rest[0] == 0 ==> Match(m, end, at, name) == Some(t))
            && (rest[0] != 0 ==> t + 1 < end)
            && (rest[0] != 0 && m[t] < LABEL_LIMIT ==> Match(m, end, at, name) == Match(m, end, t, rest))
            && (rest[0] != 0 && m[t] >= LABEL_LIMIT ==>
                var p := Offset(m[t], m[t + 1]);
                m[t] >= POINTER_BITS && p <= t && m[p] < LABEL_LIMIT && Match(m, end, at, name) == Match(m, end, p, rest))
  {
  }

  /** The last place up to `at` where the name is found. */
  function Find(m: seq<Byte>, end: nat, at: int, name: seq<Byte>): (r: Option<nat>)
    requires end < |m| && Wire(name) && name[0] != 0
    ensures r.Some? ==> r.value <= at && r.value + 1 + name[0] <= end
    decreases at
  {
    if at < 0 then None
    else if Match(m, end, at, name).Some? then Some(at)
    else Find(m, end, at - 1, name)
  }

  /** Where `FindCompressionPointer` says the name is. */
  function Found(m: seq<Byte>, end: nat, name: seq<Byte>): (r: Option<nat>)
    requires end < |m| && Wire(name) && name[0] != 0
    ensures r.Some? ==> r.value + 1 + name[0] <= end
  {
    Find(m, end, end - name[0] - 1, name)
  }

  /** The message after a name was put, and the place after it; `Full`: there was no room, or the name is illegal. */
  datatype Written = Full(message: seq<Byte>) | Put(message: seq<Byte>, next: nat)

  function PointerTo(offset: nat): (p: seq<Byte>)
    requires offset < MESSAGE_LIMIT
    ensures |p| == 2 && Offset(p[0], p[1]) == offset && p[0] >= POINTER_BITS
  {
    [POINTER_BITS + offset / 0x100, offset % 0x100]
  }

  /** What `putDomainNameAsLabels` does from `ptr` on, when it has got to `name` after `used` bytes. */
  function PutName(m: seq<Byte>, compress: bool, searchLimit: nat, ptr: nat, limit: nat, name: seq<Byte>, used: nat)
    : (w: Written)
    requires searchLimit <= ptr && limit <= |m| && limit <= MESSAGE_LIMIT && Wire(name)
    ensures |w.message| == |m|
    ensures w.Put? ==> ptr < w.next <= limit
    decreases |name|
  {
    if name[0] == 0 || ptr >= limit - 1 then
      if ptr < limit then Put(Splice(m, ptr, [0]), ptr + 1) else Full(m)
    else if name[0] > MAX_DOMAIN_LABEL || used + 1 + name[0] >= MAX_DOMAIN_NAME then Full(m)
    else
      var pointer := if compress then Found(m, searchLimit, name) else None;
      if pointer.Some? then Put(Splice(m, ptr, PointerTo(pointer.value)), ptr + 2)
      else if ptr + 1 + name[0] >= limit then Full(m)
      else PutName(Splice(m, ptr, Label(name)), compress, searchLimit, ptr + 1 + name[0], limit, Parent(name),
                   used + 1 + name[0])
  }

  /** One step of `PutName`. */
  lemma PutOnce(m: seq<Byte>, compress: bool, searchLimit: nat, ptr: nat, limit: nat, name: seq<Byte>, used: nat)
    requires searchLimit <= ptr && limit <= |m| && limit <= MESSAGE_LIMIT && Wire(name)
    ensures PutName(m, compress, searchLimit, ptr, limit, name, used) ==
            if name[0] == 0 || ptr >= limit - 1 then
              if ptr < limit then Put(Splice(m, ptr, [0]), ptr + 1) else Full(m)
            else if name[0] > MAX_DOMAIN_LABEL || used + 1 + name[0] >= MAX_DOMAIN_NAME then Full(m)
            else if compress && Found(m, searchLimit, name).Some? then
              Put(Splice(m, ptr, PointerTo(Found(m, searchLimit, name).value)), ptr + 2)
            else if ptr + 1 + name[0] >= limit then Full(m)
            else PutName(Splice(m, ptr, Label(name)), compress, searchLimit, ptr + 1 + name[0], limit, Parent(name),
                         used + 1 + name[0])
  {
    hide Wire, Found, Splice, PointerTo, Label;
  }

  /** Reads a name: its bytes after those of `name`. */
  function GetName(m: seq<Byte>, ptr: nat, end: nat, name: seq<Byte>): (r: Option<seq<Byte>>)
    requires ptr < end < |m| && |name| < MAX_DOMAIN_NAME
    decreases MAX_DOMAIN_NAME - |name|, m[ptr] >= POINTER_BITS
  {
    var len := m[ptr];
    if len == 0 then Some(name + [0])
    else if len < LABEL_LIMIT then
      if ptr + 1 + len >= end || |name| + 1 + len >= MAX_DOMAIN_NAME then None
      else GetName(m, ptr + 1 + len, end, name + m[ptr..ptr + 1 + len])
    else if len < POINTER_BITS then None
    else
      var offset := Offset(len, m[ptr + 1]);
      if offset >= end || m[offset] >= LABEL_LIMIT then None else GetName(m, offset, end, name)
  }

  /** The place after a name in a message. */
  function SkipName(m: seq<Byte>, ptr: nat, end: nat, total: nat): (next: Option<nat>)
    requires ptr < end < |m| && total < MAX_DOMAIN_NAME
    ensures next.Some? ==> ptr < next.value <= end + 1
    decreases end - ptr
  {
    var len := m[ptr];
    if len == 0 then Some(ptr + 1)
    else if len < LABEL_LIMIT then
      if ptr + 1 + len >= end || total + 1 + len >= MAX_DOMAIN_NAME then None
      else SkipName(m, ptr + 1 + len, end, total + 1 + len)
    else if len < POINTER_BITS then None
    else Some(ptr + 2)
  }

  /** One step of reading, and of skipping. */
  lemma GetOnce(m: seq<Byte>, ptr: nat, end: nat, name: seq<Byte>)
    requires ptr < end < |m| && |name| < MAX_DOMAIN_NAME
    ensures var len := m[ptr];
            && (len == 0 ==> GetName(m, ptr, end, name) == Some(name + [0])
                             && SkipName(m, ptr, end, |name|) == Some(ptr + 1))
            && (0 < len < LABEL_LIMIT ==>
                if ptr + 1 + len >= end || |name| + 1 + len >= MAX_DOMAIN_NAME then GetName(m, ptr, end, name) == None
                else GetName(m, ptr, end, name) == GetName(m, ptr + 1 + len, end, name + m[ptr..ptr + 1 + len])
                     && SkipName(m, ptr, end, |name|) == SkipName(m, ptr + 1 + len, end, |name| + 1 + len))
            && (LABEL_LIMIT <= len < POINTER_BITS ==> GetName(m, ptr, end, name) == None)
            && (len >= POINTER_BITS ==>
                var offset := Offset(len, m[ptr + 1]);
                && SkipName(m, ptr, end, |name|) == Some(ptr + 2)
                && GetName(m, ptr, end, name)
                   == if offset >= end || m[offset] >= LABEL_LIMIT then None else GetName(m, offset, end, name))
  {
  }
}
