/**
 The immediate words that compile control structures. Each appends cells at `here` and keeps branch
 addresses, under identifying tags, on the data stack until a later word patches or uses them.
 */
module ControlWords {
  import opened Wrappers
  import opened Vm

  datatype TagName = DoTag | LeaveTag | DestTag | OrigTag | CaseTag | OfTag | FallthroughTag

  /** What the control words leave on the data stack while they compile. */
  datatype Mark = Address(at: nat) | Tag(name: TagName) | Count(n: nat)

  type Marks = Stack<Mark>

  /** `ficlStackRoll` with a positive count: the cell `n` below the top comes to the top. */
  function Roll(s: Marks, n: nat): Option<Marks> {
    match s
    case Bottom => None
    case Push(x, u) =>
      if n == 0 then Some(s) else
      match Roll(u, n - 1)
      case Some(Push(y, v)) => Some(Push(y, Push(x, v)))
      case _ => None
  }

  /** Rolling the fourth cell up twice is `2SWAP`. */
  lemma RollTwice(a: Mark, b: Mark, c: Mark, d: Mark, s: Marks)
    ensures var four := Push(a, Push(b, Push(c, Push(d, s))));
            Roll(four, 3).Some? && Roll(Roll(four, 3).value, 3) == Some(Push(c, Push(d, Push(a, Push(b, s)))))
  {
    var x, y := Push(b, Push(c, Push(d, s))), Push(c, Push(d, s));
    assert Roll(Push(d, s), 0) == Some(Push(d, s));
    assert Roll(y, 1) == Some(Push(d, Push(c, s)));
    assert Roll(x, 2) == Some(Push(d, Push(b, Push(c, s))));
    var once := Push(a, Push(b, Push(c, s)));
    assert Roll(Push(a, x), 3) == Some(Push(d, once));
    assert Roll(Push(c, s), 0) == Some(Push(c, s));
    assert Roll(Push(b, Push(c, s)), 1) == Some(Push(c, Push(b, s)));
    assert Roll(once, 2) == Some(Push(c, Push(a, Push(b, s))));
  }

  /** The addresses of branches to ENDCASE, newest on top. */
  function Fixups(fixups: seq<nat>, base: Marks): Marks {
    if fixups == [] then base else Push(Address(fixups[0]), Fixups(fixups[1..], base))
  }

  function CaseMarks(fixups: seq<nat>, base: Marks): Marks {
    Push(Tag(CaseTag), Push(Count(|fixups|), Fixups(fixups, base)))
  }

  /** ENDCASE's loop: pop `n` addresses and make the branch at each lead to `target`. */
  function ResolveMarks(cells: seq<int>, s: Marks, n: nat, target: int): Option<(seq<int>, Marks)>
    decreases n
  {
    if n == 0 then Some((cells, s))
    else match s
      case Push(Address(a), u) =>
        if a < |cells| then ResolveMarks(cells[a := target - a], u, n - 1, target) else None
      case _ => None
  }

  lemma {:induction false} ResolveFixupMarks(cells: seq<int>, fixups: seq<nat>, base: Marks, target: int)
    requires forall k :: 0 <= k < |fixups| ==> fixups[k] < |cells|
    ensures ResolveMarks(cells, Fixups(fixups, base), |fixups|, target) == Some((Resolve(cells, fixups, target), base))
    decreases |fixups|
  {
    if fixups != [] {
      ResolveFixupMarks(cells[fixups[0] := target - fixups[0]], fixups[1..], base, target);
    }
  }

  /** How many addresses ENDCASE will pop, and from which stack. */
  function EndcaseCount(s: Marks): Option<(nat, Marks)> {
    match s
    case Push(Tag(CaseTag), Push(Count(n), u)) => Some((n, u))
    case Push(Tag(FallthroughTag), Push(Address(p), Push(Tag(CaseTag), Push(Count(n), u)))) =>
      Some((n + 1, Push(Address(p), u)))
    case _ => None
  }

  function Pending(fall: Option<nat>, marks: Marks): Marks {
    match fall
    case None => marks
    case Some(p) => Push(Tag(FallthroughTag), Push(Address(p), marks))
  }

  /** Every branch in `fixups` leads to `target`. */
  function Resolve(cells: seq<int>, fixups: seq<nat>, target: int): (r: seq<int>)
    requires forall k :: 0 <= k < |fixups| ==> fixups[k] < |cells|
    ensures |r| == |cells|
    ensures forall i :: 0 <= i < |cells| ==> r[i] == if i in fixups then target - i else cells[i]
    decreases |fixups|
  {
    if fixups == [] then cells
    else Resolve(cells[fixups[0] := target - fixups[0]], fixups[1..], target)
  }

  class Compiler {
    const cells: array<int>
    var here: nat
    var control: Marks

    constructor (size: nat)
      ensures fresh(cells) && cells.Length == size && here == 0 && control == Bottom
    {
      cells := new int[size];
      here, control := 0, Bottom;
    }

    predicate Room(n: nat)
      reads this
    {
      here + n <= cells.Length
    }

    /** `ficlDictionaryAppendUnsigned` and `ficlDictionaryAppendCell`. */
    method Append(x: int)
      requires Room(1)
      modifies this`here, cells
      ensures here == old(here) + 1
      ensures cells[..] == old(cells[..])[old(here) := x]
    {
      cells[here] := x;
      here := here + 1;
    }

    method MarkBranch(tag: TagName)
      modifies this`control
      ensures control == Push(Tag(tag), Push(Address(here), old(control)))
    {
      control := Push(Tag(tag), Push(Address(here), control));
    }

    /** `matchControlTag`; failure is the "unmatched control structure" error. */
    method MatchTag(tag: TagName) returns (ok: bool)
      modifies this`control
      ensures ok == (old(control).Push? && old(control).top == Tag(tag))
      ensures control == if old(control).Push? then old(control).under else Bottom
    {
      ok := control.Push? && control.top == Tag(tag);
      control := if control.Push? then control.under else Bottom;
    }

    method PopAddress() returns (at: Option<nat>)
      modifies this`control
      ensures match old(control)
              case Push(Address(a), u) => at == Some(a) && control == u
              case _ => at == None && control == old(control)
    {
      match control {
        case Push(Address(a), u) => at, control := Some(a), u;
        case _ => at := None;
      }
    }

    method ResolveBackBranch(tag: TagName) returns (ok: bool)
      requires Room(1)
      modifies this, cells
      ensures match old(control)
              case Push(m, Push(Address(a), base)) =>
                if m != Tag(tag) then !ok else
                && ok && here == old(here) + 1 && control == base
                && cells[..] == old(cells[..])[old(here) := a - old(here)]
              case _ => !ok
    {
      ok := MatchTag(tag);
      if !ok { return; }
      var at := PopAddress();
      if at == None { return false; }
      Append(at.value - here);
    }

    method ResolveForwardBranch(tag: TagName) returns (ok: bool)
      modifies this`control, cells
      ensures match old(control)
              case Push(m, Push(Address(p), base)) =>
                if m != Tag(tag) then !ok else
                p < cells.Length ==>
                && ok && control == base && cells[..] == old(cells[..])[p := here - p]
              case _ => !ok
    {
      ok := MatchTag(tag);
      if !ok { return; }
      var at := PopAddress();
      if at == None || at.value >= cells.Length { return false; }
      cells[at.value] := here - at.value;
    }

    /** Copies the address `here` itself; a wrong tag draws no more than a warning. */
    method ResolveAbsBranch(tag: TagName) returns (ok: bool)
      modifies this`control, cells
      ensures match old(control)
              case Push(_, Push(Address(p), base)) =>
                p < cells.Length ==> ok && control == base && cells[..] == old(cells[..])[p := here]
              case _ => !ok
    {
      ok := MatchTag(tag);
      var at := PopAddress();
      if at == None || at.value >= cells.Length { return false; }
      cells[at.value] := here;
      ok := true;
    }

    method IfCoIm()
      requires Room(2)
      modifies this, cells
      ensures here == old(here) + 2
      ensures control == Push(Tag(OrigTag), Push(Address(old(here) + 1), old(control)))
      ensures cells[..] == old(cells[..])[old(here) := BRANCH0_CHECK][old(here) + 1 := 1]
    {
      Append(BRANCH0_CHECK);
      MarkBranch(OrigTag);
      Append(1);
    }

    method ElseCoIm() returns (ok: bool)
      requires Room(2)
      modifies this, cells
      ensures match old(control)
              case Push(Tag(OrigTag), Push(Address(p), base)) =>
                p < cells.Length ==>
                && ok && here == old(here) + 2
                && control == Push(Tag(OrigTag), Push(Address(old(here) + 1), base))
                && cells[..] == old(cells[..])[old(here) := BRANCH_CHECK][old(here) + 1 := 1][p := here - p]
              case _ => !ok
    {
      Append(BRANCH_CHECK);
      ok := MatchTag(OrigTag);
      if !ok { return; }
      var at := PopAddress();
      if at == None || at.value >= cells.Length { return false; }
      MarkBranch(OrigTag);
      Append(1);
      cells[at.value] := here - at.value;
    }

    method EndifCoIm() returns (ok: bool)
      modifies this`control, cells
      ensures match old(control)
              case Push(Tag(OrigTag), Push(Address(p), base)) =>
                p < cells.Length ==>
                && ok && control == base && cells[..] == old(cells[..])[p := here - p]
              case _ => !ok
    {
      ok := ResolveForwardBranch(OrigTag);
    }

    method BeginCoIm()
      modifies this`control
      ensures control == Push(Tag(DestTag), Push(Address(here), old(control)))
    {
      MarkBranch(DestTag);
    }

    method UntilCoIm() returns (ok: bool)
      requires Room(2)
      modifies this, cells
      ensures match old(control)
              case Push(Tag(DestTag), Push(Address(a), base)) =>
                && ok && here == old(here) + 2 && control == base
                && cells[..] == old(cells[..])[old(here) := BRANCH0_CHECK][old(here) + 1 := a - old(here) - 1]
              case _ => !ok
    {
      Append(BRANCH0_CHECK);
      ok := ResolveBackBranch(DestTag);
    }

    method AgainCoIm() returns (ok: bool)
      requires Room(2)
      modifies this, cells
      ensures match old(control)
              case Push(Tag(DestTag), Push(Address(a), base)) =>
                && ok && here == old(here) + 2 && control == base
                && cells[..] == old(cells[..])[old(here) := BRANCH_CHECK][old(here) + 1 := a - old(here) - 1]
              case _ => !ok
    {
      Append(BRANCH_CHECK);
      ok := ResolveBackBranch(DestTag);
    }

    /** The mark of BEGIN ends up above the mark of WHILE. */
    method WhileCoIm() returns (ok: bool)
      requires Room(2)
      modifies this, cells
      ensures match old(control)
              case Push(x, Push(y, base)) =>
                && ok && here == old(here) + 2
                && control == Push(x, Push(y, Push(Tag(OrigTag), Push(Address(old(here) + 1), base))))
                && cells[..] == old(cells[..])[old(here) := BRANCH0_CHECK][old(here) + 1 := 1]
              case _ => !ok
    {
      ok := control.Push? && control.under.Push?;   // FICL_STACK_CHECK(2, 5)
      if !ok { return; }
      ghost var c := control;
      Append(BRANCH0_CHECK);
      MarkBranch(OrigTag);
      RollTwice(Tag(OrigTag), Address(here), c.top, c.under.top, c.under.under);
      control := Roll(control, 3).value;
      control := Roll(control, 3).value;
      Append(1);
    }

    method RepeatCoIm() returns (ok: bool)
      requires Room(2)
      modifies this, cells
      ensures match old(control)
              case Push(Tag(DestTag), Push(Address(a), Push(Tag(OrigTag), Push(Address(p), base)))) =>
                p < cells.Length ==>
                && ok && here == old(here) + 2 && control == base
                && cells[..] == old(cells[..])[old(here) := BRANCH_CHECK][old(here) + 1 := a - old(here) - 1]
                                              [p := here - p]
              case _ => !ok
    {
      Append(BRANCH_CHECK);
      ok := ResolveBackBranch(DestTag);
      if !ok { return; }
      ok := ResolveForwardBranch(OrigTag);
    }

    method DoCoIm(question: bool)
      requires Room(2)
      modifies this, cells
      ensures here == old(here) + 2
      ensures control == Push(Tag(DoTag), Push(Address(here), Push(Tag(LeaveTag), Push(Address(old(here) + 1), old(control)))))
      ensures cells[..] == old(cells[..])[old(here) := if question then QDO else DO][old(here) + 1 := 0]
    {
      Append(if question then QDO else DO);
      MarkBranch(LeaveTag);
      Append(0);
      MarkBranch(DoTag);
    }

    method LoopCoIm(plus: bool) returns (ok: bool)
      requires Room(2)
      modifies this, cells
      ensures match old(control)
              case Push(Tag(DoTag), Push(Address(a), Push(Tag(LeaveTag), Push(Address(p), base)))) =>
                p < cells.Length ==>
                && ok && here == old(here) + 2 && control == base
                && cells[..] == old(cells[..])[old(here) := if plus then PLUS_LOOP else LOOP]
                                              [old(here) + 1 := a - old(here) - 1][p := here]
              case Push(Tag(DoTag), _) => true
              case _ => !ok
    {
      Append(if plus then PLUS_LOOP else LOOP);
      ok := ResolveBackBranch(DoTag);
      if !ok { return; }
      ok := ResolveAbsBranch(LeaveTag);
    }

    method CaseCoIm()
      modifies this`control
      ensures control == CaseMarks([], old(control))
    {
      control := Push(Tag(CaseTag), Push(Count(0), control));
    }

    /** A FALLTHROUGH in front of this OF leads past the OF's operand. */
    method OfCoIm() returns (ok: bool)
      requires Room(2)
      modifies this, cells
      ensures match old(control)
              case Push(Tag(CaseTag), _) =>
                && ok && here == old(here) + 2
                && control == Push(Tag(OfTag), Push(Address(old(here) + 1), old(control)))
                && cells[..] == old(cells[..])[old(here) := OF][old(here) + 1 := 2]
              case Push(Tag(FallthroughTag), Push(Address(p), Push(Tag(CaseTag), base))) =>
                p < cells.Length ==>
                && ok && here == old(here) + 2
                && control == Push(Tag(OfTag), Push(Address(old(here) + 1), Push(Tag(CaseTag), base)))
                && cells[..] == old(cells[..])[old(here) := OF][old(here) + 1 := 2][p := here - p]
              case _ => !ok
    {
      var fall := None;
      if control.Push? && control.top == Tag(FallthroughTag) {
        ok := MatchTag(FallthroughTag);
        fall := PopAddress();
        if fall == None || fall.value >= cells.Length { return false; }
      }
      ok := MatchTag(CaseTag);
      if !ok { return; }
      control := Push(Tag(CaseTag), control);
      Append(OF);
      MarkBranch(OfTag);
      Append(2);
      if fall.Some? {
        cells[fall.value] := here - fall.value;
      }
    }

    method EndofCoIm() returns (ok: bool)
      requires Room(2)
      modifies this, cells
      ensures match old(control)
              case Push(Tag(OfTag), Push(Address(p), Push(Tag(CaseTag), Push(Count(n), base)))) =>
                p < cells.Length ==>
                && ok && here == old(here) + 2
                && control == Push(Tag(CaseTag), Push(Count(n + 1), Push(Address(old(here) + 1), base)))
                && cells[..] == old(cells[..])[old(here) := BRANCH_CHECK][old(here) + 1 := 2][p := here - p]
              case _ => !ok
    {
      ok := MatchTag(OfTag);
      if !ok { return; }
      var at := PopAddress();
      if at == None || at.value >= cells.Length { return false; }
      ok := MatchTag(CaseTag);
      if !ok { return; }
      match control {
        case Push(Count(n), u) =>
          Append(BRANCH_CHECK);
          control := Push(Tag(CaseTag), Push(Count(n + 1), Push(Address(here), u)));
          Append(2);
          cells[at.value] := here - at.value;
        case _ => ok := false;
      }
    }

    method FallthroughCoIm() returns (ok: bool)
      requires Room(2)
      modifies this, cells
      ensures match old(control)
              case Push(Tag(OfTag), Push(Address(p), Push(Tag(CaseTag), base))) =>
                p < cells.Length ==>
                && ok && here == old(here) + 2
                && control == Push(Tag(FallthroughTag), Push(Address(old(here) + 1), Push(Tag(CaseTag), base)))
                && cells[..] == old(cells[..])[old(here) := BRANCH_CHECK][old(here) + 1 := 2][p := here - p]
              case _ => !ok
    {
      ok := MatchTag(OfTag);
      if !ok { return; }
      var at := PopAddress();
      if at == None || at.value >= cells.Length { return false; }
      ok := MatchTag(CaseTag);
      if !ok { return; }
      control := Push(Tag(CaseTag), control);
      Append(BRANCH_CHECK);
      control := Push(Tag(FallthroughTag), Push(Address(here), control));
      Append(2);
      cells[at.value] := here - at.value;
    }

    /** Pops `count` addresses and makes the branch at each lead to `here`. */
    method ResolveFixups(count: nat) returns (ok: bool)
      modifies this`control, cells
      ensures match ResolveMarks(old(cells[..]), old(control), count, here)
              case None => !ok
              case Some((c, rest)) => ok && control == rest && cells[..] == c
    {
      var n := count;
      while n > 0
        invariant ResolveMarks(cells[..], control, n, here) == ResolveMarks(old(cells[..]), old(control), count, here)
      {
        var at := PopAddress();
        if at == None || at.value >= cells.Length { return false; }
        cells[at.value] := here - at.value;
        n := n - 1;
      }
      ok := true;
    }

    /** A FALLTHROUGH of the last arm counts as one more ENDOF. */
    method EndcaseCoIm() returns (ok: bool)
      requires Room(1)
      modifies this, cells
      ensures match EndcaseCount(old(control))
              case None => !ok
              case Some((count, marks)) =>
                match ResolveMarks(old(cells[..])[old(here) := DROP], marks, count, old(here) + 1)
                case None => !ok
                case Some((c, rest)) => ok && here == old(here) + 1 && control == rest && cells[..] == c
    {
      if control.Push? && control.top == Tag(FallthroughTag) {
        ok := MatchTag(FallthroughTag);
        var at := PopAddress();
        if at == None { return false; }
        ok := MatchTag(CaseTag);
        if !(ok && control.Push? && control.top.Count?) { return false; }
        control := Push(Tag(CaseTag), Push(Count(control.top.n + 1), Push(Address(at.value), control.under)));
      }
      ok := MatchTag(CaseTag);
      if !(ok && control.Push? && control.top.Count?) { return false; }
      var count := control.top.n;
      control := control.under;
      Append(DROP);
      ok := ResolveFixups(count);
    }
  }
}
