/** The pointer loops that search, write, skip and read names in a message buffer. */
module DomainNameCodec {
  import opened Wrappers
  import opened Slices
  import opened Bits
  import opened DomainNames

  /** The inner loop of `FindCompressionPointer`: does the name stand at `result`? */
  method FollowMatch(msg: array<Byte>, end: nat, result: nat, domname: seq<Byte>) returns (found: bool)
    requires end < msg.Length && Wire(domname) && domname[0] != 0
    ensures found <==> Match(msg[..], end, result, domname).Some?
  {
    hide Match, Wire, Label;
    var name: nat, targ: nat := 0, result;
    ghost var m := msg[..];
    assert domname[0..] == domname;
    while targ + domname[name] < end
      invariant name < |domname| && Wire(domname[name..]) && domname[name] != 0
      invariant Match(m, end, result, domname) == Match(m, end, targ, domname[name..])
      decreases |domname| - name
    {
      MatchOnce(m, end, targ, domname[name..]);
      Rest(domname, name);
      var same := SameLabel(msg, targ, domname, name);
      if !same { return false; }
      targ := targ + 1 + domname[name];
      name := name + 1 + domname[name];
      if domname[name] == 0 { return msg[targ] == 0; }
      if msg[targ] >= LABEL_LIMIT {
        if msg[targ] < POINTER_BITS { return false; }
        if targ + 1 >= end { return false; }
        var pointerTarget := Offset(msg[targ], msg[targ + 1]);
        if targ < pointerTarget { return false; }
        if msg[pointerTarget] >= LABEL_LIMIT { return false; }
        targ := pointerTarget;
      }
    }
    MatchOnce(m, end, targ, domname[name..]);
    found := false;
  }

  /** Compares a label, length byte first. */
  method SameLabel(msg: array<Byte>, targ: nat, domname: seq<Byte>, name: nat) returns (same: bool)
    requires name < |domname| && Wire(domname[name..]) && domname[name] != 0 && targ + 1 + domname[name] <= msg.Length
    ensures same <==> msg[targ..targ + 1 + domname[name]] == Label(domname[name..])
  {
    var length: int := domname[name];
    var n := length + 1;
    var i := 0;
    ghost var here, there := Label(domname[name..]), msg[targ..targ + n];
    assert here == domname[name..name + n];
    while i < n && msg[targ + i] == domname[name + i]
      invariant 0 <= i <= n && forall k :: 0 <= k < i ==> here[k] == there[k]
    {
      assert here[i] == domname[name + i] && there[i] == msg[targ + i];
      i := i + 1;
    }
    same := i == n;
    if !same {
      assert here[i] == domname[name + i] && there[i] == msg[targ + i];
    }
  }

  /** `FindCompressionPointer`. */
  method FindCompressionPointer(msg: array<Byte>, end: nat, domname: seq<Byte>) returns (result: Option<nat>)
    requires end < msg.Length && Wire(domname)
    ensures result == if domname[0] == 0 then None else Found(msg[..], end, domname)
  {
    hide Match;
    if domname[0] == 0 { return None; }
    var at: int := end - domname[0] - 1;
    while at >= 0
      invariant at + domname[0] < end
      invariant Find(msg[..], end, at, domname) == Found(msg[..], end, domname)
      decreases at
    {
      if msg[at] == domname[0] && msg[at + 1] == domname[1] {
        var found := FollowMatch(msg, end, at, domname);
        if found { return Some(at); }
      } else {
        OtherLabel(msg[..], end, at, domname);
      }
      at := at - 1;
    }
    result := None;
  }

  lemma OtherLabel(m: seq<Byte>, end: nat, at: nat, name: seq<Byte>)
    requires end < |m| && Wire(name) && name[0] != 0 && at + name[0] < end
    requires m[at] != name[0] || m[at + 1] != name[1]
    ensures Match(m, end, at, name) == None
  {
    var t := at + 1 + name[0];
    assert m[at..t][0] == m[at] && m[at..t][1] == m[at + 1];
    assert Label(name)[0] == name[0] && Label(name)[1] == name[1];
  }

  /** Copies a label, length byte first. */
  method CopyLabel(msg: array<Byte>, ptr: nat, name: seq<Byte>, np: nat)
    requires np < |name| && Wire(name[np..]) && name[np] != 0 && ptr + 1 + name[np] <= msg.Length
    modifies msg
    ensures msg[..] == Splice(old(msg[..]), ptr, Label(name[np..]))
  {
    var length: int := name[np];
    var n := length + 1;
    ghost var before := msg[..];
    assert Label(name[np..]) == name[np..np + n];
    var i := 0;
    while i < n
      invariant 0 <= i <= n
      invariant forall k :: 0 <= k < msg.Length ==> msg[k] == if ptr <= k < ptr + i then name[np + k - ptr] else before[k]
    {
      msg[ptr + i] := name[np + i];
      i := i + 1;
    }
  }

  /** `putDomainNameAsLabels`. */
  method PutDomainNameAsLabels(msg: array<Byte>, compress: bool, start: nat, limit: nat, name: seq<Byte>)
    returns (next: Option<nat>)
    requires limit <= msg.Length && limit <= MESSAGE_LIMIT && Wire(name)
    modifies msg
    ensures var w := PutName(old(msg[..]), compress, start, start, limit, name, 0);
            msg[..] == w.message && next == if w.Put? then Some(w.next) else None
  {
    hide Wire, Found, Splice, Label, PointerTo, PutName;
    var np: nat, ptr: nat := 0, start;
    ghost var result := PutName(msg[..], compress, start, ptr, limit, name, 0);
    assert name[0..] == name;
    while name[np] != 0 && ptr < limit - 1
      invariant np < |name| && Wire(name[np..]) && start <= ptr
      invariant result == PutName(msg[..], compress, start, ptr, limit, name[np..], np)
      decreases |name| - np
    {
      ghost var here := name[np..];
      PutOnce(msg[..], compress, start, ptr, limit, here, np);
      Rest(name, np);
      if name[np] > MAX_DOMAIN_LABEL { return None; }
      if np + 1 + name[np] >= MAX_DOMAIN_NAME { return None; }
      var pointer := None;
      if compress { pointer := FindCompressionPointer(msg, start, name[np..]); }
      if pointer.Some? {
        PutPointer(msg, ptr, pointer.value);
        return Some(ptr + 2);
      }
      if ptr + 1 + name[np] >= limit { return None; }
      CopyLabel(msg, ptr, name, np);
      ptr := ptr + 1 + name[np];
      np := np + 1 + name[np];
    }
    PutOnce(msg[..], compress, start, ptr, limit, name[np..], np);
    if ptr < limit {
      PutRoot(msg, ptr);
      return Some(ptr + 1);
    }
    next := None;
  }

  lemma Rest(name: seq<Byte>, np: nat)
    requires np < |name| && Wire(name[np..]) && name[np] != 0
    ensures np + 1 + name[np] < |name| && name[np + 1 + name[np]..] == Parent(name[np..])
  {
  }

  method PutPointer(msg: array<Byte>, ptr: nat, offset: nat)
    requires ptr + 2 <= msg.Length && offset < MESSAGE_LIMIT
    modifies msg
    ensures msg[..] == Splice(old(msg[..]), ptr, PointerTo(offset))
  {
    msg[ptr], msg[ptr + 1] := POINTER_BITS + offset / 0x100, offset % 0x100;
  }

  method PutRoot(msg: array<Byte>, ptr: nat)
    requires ptr < msg.Length
    modifies msg
    ensures msg[..] == Splice(old(msg[..]), ptr, [0])
  {
    msg[ptr] := 0;
  }

  /** `skipDomainName`. */
  method SkipDomainName(msg: array<Byte>, start: nat, end: nat) returns (next: Option<nat>)
    requires end < msg.Length
    ensures next == if start >= end then None else SkipName(msg[..], start, end, 0)
  {
    var total: nat, ptr: nat := 0, start;
    if ptr >= end { return None; }
    while true
      invariant ptr < end && total < MAX_DOMAIN_NAME
      invariant SkipName(msg[..], ptr, end, total) == SkipName(msg[..], start, end, 0)
      decreases end - ptr
    {
      var len := msg[ptr];
      ptr := ptr + 1;
      if len == 0 { return Some(ptr); }
      if len >= LABEL_LIMIT { return if len < POINTER_BITS then None else Some(ptr + 1); }
      if ptr + len >= end { return None; }
      if total + 1 + len >= MAX_DOMAIN_NAME { return None; }
      ptr := ptr + len;
      total := total + (1 + len);
    }
  }

  /** `getDomainName`: fills in `name`, and returns the place that `skipDomainName` returns. */
  method GetDomainName(msg: array<Byte>, start: nat, end: nat, name: array<Byte>) returns (next: Option<nat>)
    requires end < msg.Length && name.Length == MAX_DOMAIN_NAME + 1 && msg != name
    modifies name
    ensures start >= end ==> next == None
    ensures start < end ==>
            match GetName(msg[..], start, end, [])
            case None => next == None
            case Some(n) => |n| <= name.Length && name[..|n|] == n && next == SkipName(msg[..], start, end, 0)
  {
    hide GetName, SkipName;
    if start >= end { return None; }
    var nextByte := None;
    var np: nat, ptr: nat := 0, start;
    name[np] := 0;
    ghost var m := msg[..];
    assert name[..0] == [];
    while true
      invariant msg[..] == m && ptr < end && np < MAX_DOMAIN_NAME && name[np] == 0
      invariant GetName(m, ptr, end, name[..np]) == GetName(m, start, end, [])
      invariant if nextByte.Some? then nextByte == SkipName(m, start, end, 0)
                else SkipName(m, ptr, end, np) == SkipName(m, start, end, 0)
      decreases MAX_DOMAIN_NAME - np, msg[ptr] >= POINTER_BITS
    {
      GetOnce(m, ptr, end, name[..np]);
      var len := msg[ptr];
      ptr := ptr + 1;
      if len == 0 { break; }
      if len < LABEL_LIMIT {
        if ptr + len >= end { return None; }
        if np + 1 + len >= MAX_DOMAIN_NAME { return None; }
        ReadLabel(msg, ptr - 1, name, np);
        np := np + 1 + len;
        ptr := ptr + len;
        name[np] := 0;
      } else if len < POINTER_BITS {
        return None;
      } else {
        var offset := Offset(len, msg[ptr]);
        ptr := ptr + 1;
        if nextByte.None? { nextByte := Some(ptr); }
        ptr := offset;
        if ptr >= end { return None; }
        if msg[ptr] >= LABEL_LIMIT { return None; }
      }
    }
    assert name[..np + 1] == name[..np] + [0];
    next := if nextByte.Some? then nextByte else Some(ptr);
  }

  /** Copies a label, length byte first, out of the message. */
  method ReadLabel(msg: array<Byte>, at: nat, name: array<Byte>, np: nat)
    requires msg != name && at < msg.Length && at + 1 + msg[at] <= msg.Length && np + 1 + msg[at] < name.Length
    modifies name
    ensures name[..np + 1 + msg[at]] == old(name[..np]) + msg[at..at + 1 + msg[at]]
  {
    var length: int := msg[at];
    var n := length + 1;
    ghost var before := name[..np];
    var i := 0;
    while i < n
      invariant 0 <= i <= n
      invariant name[..np + i] == before + msg[at..at + i]
    {
      name[np + i] := msg[at + i];
      assert name[..np + i + 1] == name[..np + i] + [msg[at + i]];
      i := i + 1;
    }
  }
}
