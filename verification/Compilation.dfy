/**
 Compiling a whole tree: the words of a definition body are met one after the other and each control
 word runs at once. Every branch ends up resolved and the data stack as it was.
 */
module Compilation {
  import opened Wrappers
  import opened Vm
  import opened Structured
  import opened Layout
  import opened ControlWords

  /** The first `n` cells are the same. */
  ghost predicate Keeps(s: seq<int>, s': seq<int>, n: nat) {
    n <= |s| == |s'| && forall i :: 0 <= i < n ==> s'[i] == s[i]
  }

  /** Code laid below `n` survives whatever happens from `n` on. */
  lemma KeepsLaid(s: seq<int>, s': seq<int>, n: nat, t: Tree, at: nat)
    requires Keeps(s, s', n) && Laid(s, t, at) && at + Size(t) <= n
    ensures Laid(s', t, at)
  {
    LaidFrame(s, s', t, at);
  }

  /** Patching one cell outside the code of `t`. */
  lemma PatchLaid(s: seq<int>, p: nat, x: int, t: Tree, at: nat)
    requires p < |s| && at + Size(t) <= |s| && Laid(s, t, at) && !(at <= p < at + Size(t))
    ensures Laid(s[p := x], t, at)
  {
    LaidFrame(s, s[p := x], t, at);
  }

  lemma IfDone(s: seq<int>, s1: seq<int>, a: Tree, at: nat)
    requires at + Size(If(a)) <= |s|
    requires Keeps(s[at := BRANCH0_CHECK][at + 1 := 1], s1, at + 2) && Laid(s1, a, at + 2)
    ensures var s2 := s1[at + 1 := Size(a) + 1]; Laid(s2, If(a), at) && Keeps(s, s2, at)
  {
    hide Size;
    Sizes(a, a);
    PatchLaid(s1, at + 1, Size(a) + 1, a, at + 2);
    assert s1[at] == BRANCH0_CHECK;
  }

  lemma ElseDone(s: seq<int>, s1: seq<int>, a: Tree, at: nat)
    requires at + Size(a) + 4 <= |s|
    requires Keeps(s[at := BRANCH0_CHECK][at + 1 := 1], s1, at + 2) && Laid(s1, a, at + 2)
    ensures var mid := at + 2 + Size(a);
            var s2 := s1[mid := BRANCH_CHECK][mid + 1 := 1][at + 1 := Size(a) + 3];
            Pair(s2, at, BRANCH0_CHECK, Size(a) + 3) && Laid(s2, a, at + 2) && Pair(s2, mid, BRANCH_CHECK, 1)
            && Keeps(s, s2, at)
  {
    hide Size;
    Sizes(a, a);
    var mid := at + 2 + Size(a);
    PatchLaid(s1, mid, BRANCH_CHECK, a, at + 2);
    PatchLaid(s1[mid := BRANCH_CHECK], mid + 1, 1, a, at + 2);
    PatchLaid(s1[mid := BRANCH_CHECK][mid + 1 := 1], at + 1, Size(a) + 3, a, at + 2);
    assert s1[at] == BRANCH0_CHECK;
  }

  lemma IfElseDone(s: seq<int>, s2: seq<int>, s3: seq<int>, a: Tree, b: Tree, at: nat)
    requires var mid := at + 2 + Size(a);
             && at + Size(IfElse(a, b)) <= |s|
             && Keeps(s, s2, at) && Keeps(s2, s3, mid + 2)
             && Pair(s2, at, BRANCH0_CHECK, Size(a) + 3) && Laid(s2, a, at + 2) && Pair(s2, mid, BRANCH_CHECK, 1)
             && Laid(s3, b, mid + 2)
    ensures var s4 := s3[at + Size(a) + 3 := Size(b) + 1]; Laid(s4, IfElse(a, b), at) && Keeps(s, s4, at)
  {
    hide Size;
    Sizes(a, b);
    var p := at + Size(a) + 3;
    KeepsLaid(s2, s3, p + 1, a, at + 2);
    PatchLaid(s3, p, Size(b) + 1, a, at + 2);
    PatchLaid(s3, p, Size(b) + 1, b, p + 1);
    assert s3[at] == s2[at] && s3[at + 1] == s2[at + 1] && s3[p - 1] == s2[p - 1];
  }

  /** BEGIN a, then a branch back. */
  lemma BackDone(s: seq<int>, s1: seq<int>, op: int, a: Tree, at: nat)
    requires at + Size(a) + 2 <= |s| && Keeps(s, s1, at) && Laid(s1, a, at)
    ensures var p := at + Size(a);
            var s2 := s1[p := op][p + 1 := at - p - 1];
            Laid(s2, a, at) && Pair(s2, p, op, -(Size(a) + 1)) && Keeps(s, s2, at)
  {
    hide Size;
    Sizes(a, a);
    var p := at + Size(a);
    PatchLaid(s1, p, op, a, at);
    PatchLaid(s1[p := op], p + 1, at - p - 1, a, at);
  }

  lemma LoopDone(s: seq<int>, s1: seq<int>, t: Tree, at: nat)
    requires (t.Until? || t.Again?) && at + Size(t) <= |s| && Keeps(s, s1, at) && Laid(s1, t.body, at)
    ensures var p := at + Size(t.body);
            var s2 := s1[p := if t.Until? then BRANCH0_CHECK else BRANCH_CHECK][p + 1 := at - p - 1];
            Laid(s2, t, at) && Keeps(s, s2, at)
  {
    hide Size;
    Sizes(t.body, t.body);
    BackDone(s, s1, if t.Until? then BRANCH0_CHECK else BRANCH_CHECK, t.body, at);
  }

  lemma WhileDone(s: seq<int>, s1: seq<int>, s2: seq<int>, a: Tree, b: Tree, at: nat)
    requires at + Size(While(a, b)) <= |s|
    requires var test := at + Size(a);
             && Keeps(s, s1, at) && Laid(s1, a, at)
             && Keeps(s1[test := BRANCH0_CHECK][test + 1 := 1], s2, test + 2) && Laid(s2, b, test + 2)
    ensures var p := at + Size(a) + 2 + Size(b);
            var test := at + Size(a);
            var s3 := s2[p := BRANCH_CHECK][p + 1 := at - p - 1][test + 1 := p + 2 - (test + 1)];
            Laid(s3, While(a, b), at) && Keeps(s, s3, at)
  {
    hide Size, Laid;
    Sizes(a, b);
    var test := at + Size(a);
    var p := test + 2 + Size(b);
    var s3 := s2[p := BRANCH_CHECK][p + 1 := at - p - 1][test + 1 := p + 2 - (test + 1)];
    LaidFrame(s1, s3, a, at);
    LaidFrame(s2, s3, b, test + 2);
    assert s2[test] == BRANCH0_CHECK;
    LaidWhile(s3, a, b, at);
  }

  lemma DoDone(s: seq<int>, s1: seq<int>, question: bool, plus: bool, a: Tree, at: nat)
    requires at + Size(a) + 4 <= |s|
    requires Keeps(s[at := if question then QDO else DO][at + 1 := 0], s1, at + 2) && Laid(s1, a, at + 2)
    ensures var p := at + 2 + Size(a);
            var s2 := s1[p := if plus then PLUS_LOOP else LOOP][p + 1 := at + 2 - p - 1][at + 1 := p + 2];
            Laid(s2, Do(question, plus, a), at) && Keeps(s, s2, at)
  {
    hide Size;
    Sizes(a, a);
    var p := at + 2 + Size(a);
    var op := if plus then PLUS_LOOP else LOOP;
    PatchLaid(s1, p, op, a, at + 2);
    PatchLaid(s1[p := op], p + 1, at + 2 - p - 1, a, at + 2);
    PatchLaid(s1[p := op][p + 1 := at + 2 - p - 1], at + 1, p + 2, a, at + 2);
    assert s1[at] == if question then QDO else DO;
  }

  /** `ficlPrimitiveLiteralIm`. */
  method CompileNumber(c: Compiler, v: int)
    requires c.Room(if -16 <= v <= 16 then 1 else 2)
    modifies c`here, c.cells
    ensures c.here == old(c.here) + Size(Number(v))
    ensures Keeps(old(c.cells[..]), c.cells[..], old(c.here))
    ensures Laid(c.cells[..], Number(v), old(c.here))
  {
    if 1 <= v <= 16 {
      c.Append(v);
    } else if -16 <= v <= 0 {
      c.Append(ZERO - v);
    } else {
      c.Append(LITERAL);
      c.Append(v);
    }
  }

  method Compile(c: Compiler, t: Tree) returns (ok: bool)
    requires c.Room(Size(t))
    modifies c, c.cells
    ensures ok && c.here == old(c.here) + Size(t) && c.control == old(c.control)
    ensures Keeps(old(c.cells[..]), c.cells[..], old(c.here))
    ensures Laid(c.cells[..], t, old(c.here))
    decreases t, 1
  {
    ok := true;
    ghost var at := c.here;
    match t
    case Nop =>
    case Then(a, b) =>
      ok := Compile(c, a);
      ghost var s1 := c.cells[..];
      ok := Compile(c, b);
      KeepsLaid(s1, c.cells[..], at + Size(a), a, at);
    case Number(v) => CompileNumber(c, v);
    case Plain(op) => c.Append(op);
    case Leave => c.Append(LEAVE);
    case If(a) => ok := CompileIf(c, a);
    case IfElse(a, b) => ok := CompileIfElse(c, a, b);
    case Until(a) => ok := CompileLoop(c, t);
    case Again(a) => ok := CompileLoop(c, t);
    case While(a, b) => ok := CompileWhile(c, a, b);
    case Do(question, plus, a) => ok := CompileDo(c, question, plus, a);
    case Case(arms) =>
      c.CaseCoIm();
      ok := CompileArms(c, arms, None, [], old(c.control));
  }

  method CompileIf(c: Compiler, a: Tree) returns (ok: bool)
    requires c.Room(Size(If(a)))
    modifies c, c.cells
    ensures ok && c.here == old(c.here) + Size(If(a)) && c.control == old(c.control)
    ensures Keeps(old(c.cells[..]), c.cells[..], old(c.here))
    ensures Laid(c.cells[..], If(a), old(c.here))
    decreases If(a), 0
  {
    hide Laid, Size;
    Sizes(a, a);
    ghost var at, s := c.here, c.cells[..];
    c.IfCoIm();
    ok := Compile(c, a);
    IfDone(s, c.cells[..], a, at);
    ok := c.EndifCoIm();
  }

  /** BEGIN UNTIL and BEGIN AGAIN. */
  method CompileLoop(c: Compiler, t: Tree) returns (ok: bool)
    requires t.Until? || t.Again?
    requires c.Room(Size(t))
    modifies c, c.cells
    ensures ok && c.here == old(c.here) + Size(t) && c.control == old(c.control)
    ensures Keeps(old(c.cells[..]), c.cells[..], old(c.here))
    ensures Laid(c.cells[..], t, old(c.here))
    decreases t, 0
  {
    hide Laid, Size;
    Sizes(t.body, t.body);
    ghost var at, s := c.here, c.cells[..];
    c.BeginCoIm();
    ok := Compile(c, t.body);
    LoopDone(s, c.cells[..], t, at);
    if t.Until? {
      ok := c.UntilCoIm();
    } else {
      ok := c.AgainCoIm();
    }
  }

  method CompileDo(c: Compiler, question: bool, plus: bool, a: Tree) returns (ok: bool)
    requires c.Room(Size(Do(question, plus, a)))
    modifies c, c.cells
    ensures ok && c.here == old(c.here) + Size(Do(question, plus, a)) && c.control == old(c.control)
    ensures Keeps(old(c.cells[..]), c.cells[..], old(c.here))
    ensures Laid(c.cells[..], Do(question, plus, a), old(c.here))
    decreases Do(question, plus, a), 0
  {
    hide Laid, Size;
    Sizes(a, a);
    ghost var at, s := c.here, c.cells[..];
    c.DoCoIm(question);
    ok := Compile(c, a);
    DoDone(s, c.cells[..], question, plus, a, at);
    ok := c.LoopCoIm(plus);
  }

  method CompileIfElse(c: Compiler, a: Tree, b: Tree) returns (ok: bool)
    requires c.Room(Size(IfElse(a, b)))
    modifies c, c.cells
    ensures ok && c.here == old(c.here) + Size(IfElse(a, b)) && c.control == old(c.control)
    ensures Keeps(old(c.cells[..]), c.cells[..], old(c.here))
    ensures Laid(c.cells[..], IfElse(a, b), old(c.here))
    decreases IfElse(a, b), 0
  {
    hide Laid, Size;
    Sizes(a, b);
    ghost var at, s := c.here, c.cells[..];
    c.IfCoIm();
    ok := Compile(c, a);
    ElseDone(s, c.cells[..], a, at);
    ok := c.ElseCoIm();
    ghost var s2 := c.cells[..];
    ok := Compile(c, b);
    IfElseDone(s, s2, c.cells[..], a, b, at);
    ok := c.EndifCoIm();
  }

  method CompileWhile(c: Compiler, a: Tree, b: Tree) returns (ok: bool)
    requires c.Room(Size(While(a, b)))
    modifies c, c.cells
    ensures ok && c.here == old(c.here) + Size(While(a, b)) && c.control == old(c.control)
    ensures Keeps(old(c.cells[..]), c.cells[..], old(c.here))
    ensures Laid(c.cells[..], While(a, b), old(c.here))
    decreases While(a, b), 0
  {
    hide Laid, Size;
    Sizes(a, b);
    ghost var at, s := c.here, c.cells[..];
    c.BeginCoIm();
    ok := Compile(c, a);
    ghost var s1 := c.cells[..];
    ok := c.WhileCoIm();
    ok := Compile(c, b);
    WhileDone(s, s1, c.cells[..], a, b, at);
    ok := c.RepeatCoIm();
  }

  /** Where a FALLTHROUGH in front of `arms` leads. */
  ghost function FallTarget(arms: Arms, at: nat): int {
    if arms.Arm? then at + Size(arms.select) + 2 else at + ArmsSize(arms)
  }

  /** What the cells of the pending branches should come to hold. */
  ghost function Wanted(fall: Option<nat>, fallTo: int, fixups: seq<nat>, end: int): map<nat, int> {
    var m := map f | f in fixups :: end - f;
    if fall.None? then m else m[fall.value := fallTo - fall.value]
  }

  /** The first `n` cells are the same, except for those that are wanted otherwise. */
  ghost predicate Resolves(s: seq<int>, s': seq<int>, n: nat, want: map<nat, int>) {
    n <= |s| == |s'| && forall i :: 0 <= i < n ==> s'[i] == if i in want then want[i] else s[i]
  }

  ghost function AllFixups(fall: Option<nat>, fixups: seq<nat>): seq<nat> {
    match fall case None => fixups case Some(p) => [p] + fixups
  }

  lemma EndcaseMarks(fall: Option<nat>, fixups: seq<nat>, base: Marks)
    ensures EndcaseCount(Pending(fall, CaseMarks(fixups, base))) ==
            Some((|AllFixups(fall, fixups)|, Fixups(AllFixups(fall, fixups), base)))
  {
    if fall.Some? { assert AllFixups(fall, fixups)[1..] == fixups; }
  }

  lemma EndcaseResolves(s0: seq<int>, s: seq<int>, n: nat, fall: Option<nat>, fixups: seq<nat>, end: int)
    requires Keeps(s0, s, n)
    requires forall k :: 0 <= k < |fixups| ==> fixups[k] < n
    requires fall.Some? ==> fall.value < n && fall.value !in fixups
    ensures var s' := Resolve(s, AllFixups(fall, fixups), end);
            Resolves(s0, s', n, Wanted(fall, end, fixups, end)) && forall i :: n <= i < |s| ==> s'[i] == s[i]
  {
    var all := AllFixups(fall, fixups);
    assert forall f :: f in all <==> f in fixups || fall == Some(f);
  }

  lemma DefaultLaid(s1: seq<int>, s3: seq<int>, t: Tree, at: nat)
    requires at + Size(t) < |s1| == |s3| && Laid(s1, t, at)
    requires forall i :: at <= i <= at + Size(t) ==> s3[i] == s1[at + Size(t) := DROP][i]
    ensures LaidArms(s3, Default(t), at)
  {
    hide Size, ArmsSize;
    LaidFrame(s1, s3, t, at);
    assert s3[at + Size(t)] == DROP;
  }

  lemma DefaultDone(s: seq<int>, s1: seq<int>, t: Tree, at: nat, fall: Option<nat>, fixups: seq<nat>)
    requires at + Size(t) + 1 <= |s| && Keeps(s, s1, at) && Laid(s1, t, at)
    requires forall k :: 0 <= k < |fixups| ==> fixups[k] < at
    requires fall.Some? ==> fall.value < at && fall.value !in fixups
    ensures var end := at + Size(t) + 1;
            var s3 := Resolve(s1[end - 1 := DROP], AllFixups(fall, fixups), end);
            Resolves(s, s3, at, Wanted(fall, end, fixups, end)) && LaidArms(s3, Default(t), at)
  {
    hide Resolve, Resolves, Laid, LaidArms, Wanted, Size, ArmsSize;
    var end := at + Size(t) + 1;
    var s2 := s1[end - 1 := DROP];
    EndcaseResolves(s, s2, at, fall, fixups, end);
    DefaultLaid(s1, Resolve(s2, AllFixups(fall, fixups), end), t, at);
  }

  /** First one arm, then the rest. */
  lemma ResolvesThen(s: seq<int>, s2: seq<int>, s3: seq<int>, at: nat, p: nat, falls: bool,
                     fall: Option<nat>, fallTo: int, next: int, fixups: seq<nat>, end: int)
    requires at <= p < |s| == |s2| == |s3|
    requires forall k :: 0 <= k < |fixups| ==> fixups[k] < at
    requires fall.Some? ==> fall.value < at && fall.value !in fixups
    requires Resolves(s, s2, at, Wanted(fall, fallTo, [], 0))
    requires Resolves(s2, s3, p + 1,
                      if falls then Wanted(Some(p), next, fixups, end) else Wanted(None, next, [p] + fixups, end))
    ensures Resolves(s, s3, at, Wanted(fall, fallTo, fixups, end))
    ensures s3[p] == (if falls then next else end) - p
    ensures forall i :: at <= i < p ==> s3[i] == s2[i]
  {
    assert forall f :: f in [p] + fixups <==> f == p || f in fixups;
  }

  /** The two cells that close an arm, and the patch of its OF. */
  ghost function CloseArm(s: seq<int>, sel: Tree, body: Tree, at: nat): seq<int>
    requires at + Size(sel) + 2 + Size(body) + 2 <= |s|
  {
    var branch := at + Size(sel) + 2 + Size(body);
    s[branch := BRANCH_CHECK][branch + 1 := 2][at + Size(sel) + 1 := branch + 2 - (at + Size(sel) + 1)]
  }

  lemma ArmClosed(s: seq<int>, s1: seq<int>, sel: Tree, body: Tree, at: nat)
    requires var of := at + Size(sel);
             && of + 2 + Size(body) + 2 <= |s|
             && Keeps(s, s1, of + 2) && Laid(s, sel, at) && Single(s, of, OF) && Laid(s1, body, of + 2)
    ensures var s2 := CloseArm(s1, sel, body, at);
            var of := at + Size(sel);
            && Laid(s2, sel, at) && Pair(s2, of, OF, Size(body) + 3) && Laid(s2, body, of + 2)
            && Single(s2, of + 2 + Size(body), BRANCH_CHECK)
            && forall i :: 0 <= i < at ==> s2[i] == s[i]
  {
    hide Size, ArmsSize;
    var of := at + Size(sel);
    var branch := of + 2 + Size(body);
    KeepsLaid(s, s1, of, sel, at);
    LaidFrame(s1, CloseArm(s1, sel, body, at), sel, at);
    LaidFrame(s1, CloseArm(s1, sel, body, at), body, of + 2);
  }

  /** The rest of the arms is laid and has resolved this arm's closing branch `p`. */
  lemma ArmDone(s2: seq<int>, s3: seq<int>, arms: Arms, at: nat)
    requires arms.Arm?
    requires var of := at + Size(arms.select);
             var p := of + 2 + Size(arms.body) + 1;
             && at + ArmsSize(arms) <= |s2| == |s3|
             && Laid(s2, arms.select, at) && Pair(s2, of, OF, Size(arms.body) + 3) && Laid(s2, arms.body, of + 2)
             && Single(s2, p - 1, BRANCH_CHECK)
             && (forall i :: at <= i < p ==> s3[i] == s2[i])
             && s3[p] == Exit(arms) && LaidArms(s3, arms.rest, p + 1)
    ensures LaidArms(s3, arms, at)
  {
    hide Size, ArmsSize;
    ArmSizes(arms);
    LaidFrame(s2, s3, arms.select, at);
    LaidFrame(s2, s3, arms.body, at + Size(arms.select) + 2);
  }

  method CompileArms(c: Compiler, arms: Arms, ghost fall: Option<nat>, ghost fixups: seq<nat>, ghost base: Marks)
    returns (ok: bool)
    requires c.Room(ArmsSize(arms))
    requires c.control == Pending(fall, CaseMarks(fixups, base))
    requires forall k :: 0 <= k < |fixups| ==> fixups[k] < c.here
    requires fall.Some? ==> fall.value < c.here && fall.value !in fixups
    modifies c, c.cells
    ensures ok && c.here == old(c.here) + ArmsSize(arms) && c.control == base
    ensures Resolves(old(c.cells[..]), c.cells[..], old(c.here),
                     Wanted(fall, FallTarget(arms, old(c.here)), fixups, c.here))
    ensures LaidArms(c.cells[..], arms, old(c.here))
    decreases arms, 2
  {
    match arms
    case Default(_) =>
      ok := CompileDefault(c, arms, fall, fixups, base);
    case Arm(_, _, _, _) =>
      ok := CompileFirst(c, arms, fall, fixups, base);
  }

  method CompileFirst(c: Compiler, arms: Arms, ghost fall: Option<nat>, ghost fixups: seq<nat>, ghost base: Marks)
    returns (ok: bool)
    requires arms.Arm? && c.Room(ArmsSize(arms))
    requires c.control == Pending(fall, CaseMarks(fixups, base))
    requires forall k :: 0 <= k < |fixups| ==> fixups[k] < c.here
    requires fall.Some? ==> fall.value < c.here && fall.value !in fixups
    modifies c, c.cells
    ensures ok && c.here == old(c.here) + ArmsSize(arms) && c.control == base
    ensures Resolves(old(c.cells[..]), c.cells[..], old(c.here),
                     Wanted(fall, FallTarget(arms, old(c.here)), fixups, c.here))
    ensures LaidArms(c.cells[..], arms, old(c.here))
    decreases arms, 1
  {
    hide Laid, LaidArms, Wanted, Resolves, CaseMarks, Size, ArmsSize;
    ArmSizes(arms);
    ghost var at, s := c.here, c.cells[..];
    ghost var p := at + Size(arms.select) + 2 + Size(arms.body) + 1;
    ok := CompileArm(c, arms, fall, fixups, base);
    ghost var s2 := c.cells[..];
    ok := CompileRest(c, arms.rest, arms.falls, p, fixups, base);
    ResolvesThen(s, s2, c.cells[..], at, p, arms.falls, fall, at + Size(arms.select) + 2,
                 FallTarget(arms.rest, p + 1), fixups, c.here);
    ArmDone(s2, c.cells[..], arms, at);
  }

  /** The arms after one that closed with the branch at `p`. */
  method CompileRest(c: Compiler, arms: Arms, falls: bool, ghost p: nat, ghost fixups: seq<nat>, ghost base: Marks)
    returns (ok: bool)
    requires c.Room(ArmsSize(arms))
    requires c.control == if falls then Pending(Some(p), CaseMarks(fixups, base)) else CaseMarks([p] + fixups, base)
    requires forall k :: 0 <= k < |fixups| ==> fixups[k] < p
    requires c.here == p + 1
    modifies c, c.cells
    ensures ok && c.here == old(c.here) + ArmsSize(arms) && c.control == base
    ensures Resolves(old(c.cells[..]), c.cells[..], old(c.here),
                     if falls then Wanted(Some(p), FallTarget(arms, old(c.here)), fixups, c.here)
                     else Wanted(None, FallTarget(arms, old(c.here)), [p] + fixups, c.here))
    ensures LaidArms(c.cells[..], arms, old(c.here))
    decreases arms, 3
  {
    hide Laid, LaidArms, Wanted, Resolves, CaseMarks, Size, ArmsSize;
    if falls {
      ok := CompileArms(c, arms, Some(p), fixups, base);
    } else {
      ok := CompileArms(c, arms, None, [p] + fixups, base);
    }
  }

  method CompileDefault(c: Compiler, arms: Arms, ghost fall: Option<nat>, ghost fixups: seq<nat>, ghost base: Marks)
    returns (ok: bool)
    requires arms.Default? && c.Room(ArmsSize(arms))
    requires c.control == Pending(fall, CaseMarks(fixups, base))
    requires forall k :: 0 <= k < |fixups| ==> fixups[k] < c.here
    requires fall.Some? ==> fall.value < c.here && fall.value !in fixups
    modifies c, c.cells
    ensures ok && c.here == old(c.here) + ArmsSize(arms) && c.control == base
    ensures Resolves(old(c.cells[..]), c.cells[..], old(c.here),
                     Wanted(fall, FallTarget(arms, old(c.here)), fixups, c.here))
    ensures LaidArms(c.cells[..], arms, old(c.here))
    decreases arms, 0
  {
    hide Size, ArmsSize, Laid, LaidArms, Wanted, Resolves;
    ArmSizes(arms);
    ghost var at, s, t := c.here, c.cells[..], arms.otherwise;
    ghost var all := AllFixups(fall, fixups);
    ok := Compile(c, arms.otherwise);
    DefaultDone(s, c.cells[..], t, at, fall, fixups);
    EndcaseMarks(fall, fixups, base);
    ResolveFixupMarks(c.cells[..][c.here := DROP], all, base, c.here + 1);
    ok := c.EndcaseCoIm();
  }

  /** One arm up to and including ENDOF or FALLTHROUGH; the closing branch still waits for its target. */
  method CompileArm(c: Compiler, arms: Arms, ghost fall: Option<nat>, ghost fixups: seq<nat>, ghost base: Marks)
    returns (ok: bool)
    requires arms.Arm? && c.Room(Size(arms.select) + 2 + Size(arms.body) + 2)
    requires c.control == Pending(fall, CaseMarks(fixups, base))
    requires forall k :: 0 <= k < |fixups| ==> fixups[k] < c.here
    requires fall.Some? ==> fall.value < c.here && fall.value !in fixups
    modifies c, c.cells
    ensures ok && c.here == old(c.here) + Size(arms.select) + 2 + Size(arms.body) + 2
    ensures c.control == if arms.falls then Pending(Some(c.here - 1), CaseMarks(fixups, base))
                         else CaseMarks([c.here - 1] + fixups, base)
    ensures var at := old(c.here);
            var of := at + Size(arms.select);
            var s2 := c.cells[..];
            && Laid(s2, arms.select, at) && Pair(s2, of, OF, Size(arms.body) + 3) && Laid(s2, arms.body, of + 2)
            && Single(s2, of + 2 + Size(arms.body), BRANCH_CHECK)
            && Resolves(old(c.cells[..]), s2, at, Wanted(fall, of + 2, [], 0))
    decreases arms, 0
  {
    hide Laid, Size, ArmsSize;
    ghost var at := c.here;
    CompileTest(c, arms.select, fall, fixups, base);
    ghost var s := c.cells[..];
    ok := Compile(c, arms.body);
    ArmClosed(s, c.cells[..], arms.select, arms.body, at);
    if arms.falls {
      ok := c.FallthroughCoIm();
    } else {
      ok := c.EndofCoIm();
    }
  }

  /** The test of one arm: its selector and OF. */
  method CompileTest(c: Compiler, sel: Tree, ghost fall: Option<nat>, ghost fixups: seq<nat>, ghost base: Marks)
    requires c.Room(Size(sel) + 2)
    requires c.control == Pending(fall, CaseMarks(fixups, base))
    requires fall.Some? ==> fall.value < c.here
    modifies c, c.cells
    ensures c.here == old(c.here) + Size(sel) + 2
    ensures c.control == Push(Tag(OfTag), Push(Address(c.here - 1), CaseMarks(fixups, base)))
    ensures Resolves(old(c.cells[..]), c.cells[..], old(c.here), Wanted(fall, c.here, [], 0))
    ensures Laid(c.cells[..], sel, old(c.here)) && Single(c.cells[..], c.here - 2, OF)
    decreases sel, 2
  {
    hide Size, ArmsSize;
    ghost var at := c.here;
    var _ := Compile(c, sel);
    ghost var s := c.cells[..];
    var _ := c.OfCoIm();
    LaidFrame(s, c.cells[..], sel, at);
  }
}
