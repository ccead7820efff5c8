/**
 Compiled code never leaves its instruction starts: each start has a loop depth, and wherever the machine
 gets, that many loop frames are on the return stack, each with a leave address of its own depth.
 */
module Discipline {
  import opened Wrappers
  import opened Vm
  import opened Structured
  import opened Layout
  import opened Threading

  /** Instruction starts and their loop depths. */
  type DepthMap = map<int, nat>

  ghost predicate At(m: DepthMap, a: int, depth: nat) {
    a in m && m[a] == depth
  }

  /** The instruction at `a` goes on only at starts of the right depth. */
  ghost predicate TypedAt(code: seq<int>, m: DepthMap, a: int)
    requires a in m
  {
    0 <= a < |code| &&
    var op, d := code[a], m[a];
    if 1 <= op <= LITERAL_MIN || IsPlain(op) then At(m, a + 1, d)
    else if op == SEMI || op == EXIT then d == 0
    else if op == LEAVE then d >= 1
    else
      && HasOperand(op) && a + 1 < |code| && a + 1 !in m
      && (IsBranch(op) || op in {OF, LOOP, PLUS_LOOP} ==> At(m, Target(code, a), d))
      && (op in {BRANCH0, BRANCH0_CHECK, OF, LITERAL} ==> At(m, a + 2, d))
      && (op in {DO, QDO} ==> At(m, a + 2, d + 1) && At(m, code[a + 1], d))
      && (op in {LOOP, PLUS_LOOP} ==> d >= 1 && At(m, a + 2, d - 1))
  }

  ghost predicate Typed(code: seq<int>, m: DepthMap) {
    forall a {:trigger a in m} :: a in m ==> TypedAt(code, m, a)
  }

  ghost predicate Framed(ret: CellStack, depth: nat, m: DepthMap) {
    depth == 0 ||
    match ret
    case Push(_, Push(_, Push(leave, r))) => At(m, leave, depth - 1) && Framed(r, depth - 1, m)
    case _ => false
  }

  ghost predicate TypedState(s: State, m: DepthMap) {
    s.ip in m && Framed(s.ret, m[s.ip], m)
  }

  lemma StepTypedLoop(code: seq<int>, m: DepthMap, s: State)
    requires TypedState(s, m) && TypedAt(code, m, s.ip) && Step(code, s).Running?
    requires code[s.ip] == LOOP || code[s.ip] == PLUS_LOOP || code[s.ip] == LEAVE
    ensures TypedState(Step(code, s).s, m)
  {
    match s.ret { case Push(_, Push(_, Push(_, _))) => case _ => }
  }

  lemma StepTypedDo(code: seq<int>, m: DepthMap, s: State)
    requires TypedState(s, m) && TypedAt(code, m, s.ip) && Step(code, s).Running?
    requires code[s.ip] == DO || code[s.ip] == QDO
    ensures TypedState(Step(code, s).s, m)
  {
  }

  lemma StepTypedBranch(code: seq<int>, m: DepthMap, s: State)
    requires TypedState(s, m) && TypedAt(code, m, s.ip) && Step(code, s).Running?
    requires IsBranch(code[s.ip]) || code[s.ip] == OF || code[s.ip] == LITERAL
    ensures TypedState(Step(code, s).s, m)
  {
  }

  lemma StepTyped(code: seq<int>, m: DepthMap, s: State)
    requires Typed(code, m) && TypedState(s, m) && Step(code, s).Running?
    ensures TypedState(Step(code, s).s, m)
  {
    assert TypedAt(code, m, s.ip);
    var op := code[s.ip];
    if op == LOOP || op == PLUS_LOOP || op == LEAVE { StepTypedLoop(code, m, s); }
    else if op == DO || op == QDO { StepTypedDo(code, m, s); }
    else if IsBranch(op) || op == OF || op == LITERAL { StepTypedBranch(code, m, s); }
  }

  lemma {:induction false} RunTyped(code: seq<int>, m: DepthMap, s: State, n: nat)
    requires Typed(code, m) && TypedState(s, m) && Run(code, s, n).Running?
    ensures TypedState(Run(code, s, n).s, m)
    decreases n
  {
    hide Step, Typed, TypedState;
    if n > 0 {
      StepTyped(code, m, s);
      RunTyped(code, m, Step(code, s).s, n - 1);
    }
  }

  lemma TypedLands(code: seq<int>, m: DepthMap)
    requires Typed(code, m)
    ensures Lands(code, m.Keys)
  {
    hide Typed, TypedAt, LandsAt;
    forall a | a in m.Keys ensures LandsAt(code, m.Keys, a) {
      TypedOne(code, m, a);
      TypedOperand(code, m, a);
    }
  }

  lemma TypedOperand(code: seq<int>, m: DepthMap, a: int)
    requires a in m && TypedAt(code, m, a)
    ensures LandsAt(code, m.Keys, a)
  {
  }

  lemma TypedOne(code: seq<int>, m: DepthMap, a: int)
    requires Typed(code, m) && a in m
    ensures TypedAt(code, m, a)
  {
  }

  /** A condition on the code alone: from a start at depth 0 its runs stay on the starts. */
  lemma TypedStays(code: seq<int>, m: DepthMap, s: State)
    requires Typed(code, m) && TypedState(s, m)
    ensures Lands(code, m.Keys) && StaysOn(code, s, m.Keys)
  {
    hide Typed, Step;
    TypedLands(code, m);
    forall n: nat | Run(code, s, n).Running? ensures Run(code, s, n).s.ip in m.Keys {
      RunTyped(code, m, s, n);
    }
  }

  /** Jump threading preserves the meaning of code whose starts all have starts of the right depth as successors. */
  lemma TypedThreads(code: seq<int>, m: DepthMap, s: State, o: Outcome)
    requires Typed(code, m) && At(m, s.ip, 0)
    ensures Lands(code, m.Keys) && (SelfEnds(code, s, m.Keys, o) <==> Ends(code, s, o))
  {
    hide Typed, Lands, StaysOn, SelfEnds, Ends;
    assert TypedState(s, m);
    TypedStays(code, m, s);
    ThreadingPreserves(code, s, m.Keys, o);
  }

  /** A two-cell instruction: its operand is no start. */
  ghost predicate Wide(m: DepthMap, a: int, depth: nat) {
    At(m, a, depth) && a + 1 !in m
  }

  /** `m` marks the starts of the code of `t` at `at`, and no other cells of it. */
  ghost predicate Marked(m: DepthMap, t: Tree, at: int, d: nat) {
    match t
    case Nop => true
    case Then(a, b) => Marked(m, a, at, d) && Marked(m, b, at + Size(a), d)
    case Number(v) => if -16 <= v <= 16 then At(m, at, d) else Wide(m, at, d)
    case Plain(_) => At(m, at, d)
    case Leave => At(m, at, d)
    case If(a) => Wide(m, at, d) && Marked(m, a, at + 2, d)
    case IfElse(a, b) =>
      && Wide(m, at, d) && Marked(m, a, at + 2, d)
      && Wide(m, at + 2 + Size(a), d) && Marked(m, b, at + Size(a) + 4, d)
    case Until(a) => Marked(m, a, at, d) && Wide(m, at + Size(a), d)
    case Again(a) => Marked(m, a, at, d) && Wide(m, at + Size(a), d)
    case While(a, b) =>
      && Marked(m, a, at, d) && Wide(m, at + Size(a), d)
      && Marked(m, b, at + Size(a) + 2, d) && Wide(m, at + Size(a) + 2 + Size(b), d)
    case Do(_, _, a) => Wide(m, at, d) && Marked(m, a, at + 2, d + 1) && Wide(m, at + 2 + Size(a), d + 1)
    case Case(arms) => MarkedArms(m, arms, at, d)
  }

  ghost predicate MarkedArms(m: DepthMap, arms: Arms, at: int, d: nat) {
    match arms
    case Default(c) => Marked(m, c, at, d) && At(m, at + Size(c), d)
    case Arm(s, b, _, rest) =>
      var of := at + Size(s);
      var branch := of + 2 + Size(b);
      && Marked(m, s, at, d) && Wide(m, of, d) && Marked(m, b, of + 2, d)
      && Wide(m, branch, d) && MarkedArms(m, rest, branch + 2, d)
  }

  /** Control enters a tree at a start, be it that of what follows an empty tree. */
  lemma {:induction false} Entry(m: DepthMap, t: Tree, at: int, d: nat)
    requires Marked(m, t, at, d) && At(m, at + Size(t), d)
    ensures At(m, at, d)
  {
    match t
    case Then(a, b) => Entry(m, b, at + Size(a), d); Entry(m, a, at, d);
    case Until(a) => Entry(m, a, at, d);
    case Again(a) => Entry(m, a, at, d);
    case While(a, b) => Entry(m, a, at, d);
    case Case(arms) => EntryArms(m, arms, at, d);
    case _ =>
  }

  lemma {:induction false} EntryArms(m: DepthMap, arms: Arms, at: int, d: nat)
    requires MarkedArms(m, arms, at, d)
    ensures At(m, at, d)
  {
    match arms
    case Default(c) => Entry(m, c, at, d);
    case Arm(s, _, _, _) => Entry(m, s, at, d);
  }

  /** What the compiler leaves: a branch has its check. */
  ghost predicate CompiledAt(code: seq<int>, m: DepthMap, a: int)
    requires a in m
  {
    TypedAt(code, m, a) && code[a] != BRANCH && code[a] != BRANCH0
  }

  lemma TypedJump(code: seq<int>, m: DepthMap, x: int, offset: int, d: nat)
    requires Pair(code, x, BRANCH_CHECK, offset) && Wide(m, x, d) && At(m, x + 1 + offset, d)
    ensures CompiledAt(code, m, x)
  {
  }

  lemma TypedTest(code: seq<int>, m: DepthMap, x: int, op: int, offset: int, d: nat)
    requires Pair(code, x, op, offset) && (op == BRANCH0_CHECK || op == OF)
    requires Wide(m, x, d) && At(m, x + 2, d) && At(m, x + 1 + offset, d)
    ensures CompiledAt(code, m, x)
  {
  }

  lemma TypedLeaf(code: seq<int>, m: DepthMap, t: Tree, at: int, d: nat, x: int)
    requires t.Number? || t.Plain? || t.Leave?
    requires Laid(code, t, at) && Marked(m, t, at, d) && At(m, at + Size(t), d) && WellNested(t, d > 0)
    requires x in m && at <= x < at + Size(t)
    ensures CompiledAt(code, m, x)
  {
    assert x == at;
  }

  lemma {:induction false} CompiledTyped(code: seq<int>, m: DepthMap, t: Tree, at: int, d: nat, x: int)
    requires Laid(code, t, at) && Marked(m, t, at, d) && At(m, at + Size(t), d) && WellNested(t, d > 0)
    requires x in m && at <= x < at + Size(t)
    ensures CompiledAt(code, m, x)
    decreases t, 1
  {
    hide CompiledAt, Size, ArmsSize, Laid, LaidArms, Marked, MarkedArms, WellNested, WellNestedArms;
    match t
    case Nop => Sizes(t, t);
    case Number(_) => TypedLeaf(code, m, t, at, d, x);
    case Plain(_) => TypedLeaf(code, m, t, at, d, x);
    case Leave => TypedLeaf(code, m, t, at, d, x);
    case Then(a, b) => CompiledTypedThen(code, m, a, b, at, d, x);
    case If(a) => CompiledTypedIf(code, m, a, at, d, x);
    case IfElse(a, b) => CompiledTypedIfElse(code, m, a, b, at, d, x);
    case Until(_) => CompiledTypedLoop(code, m, t, at, d, x);
    case Again(_) => CompiledTypedLoop(code, m, t, at, d, x);
    case While(a, b) => CompiledTypedWhile(code, m, a, b, at, d, x);
    case Do(question, plus, a) => CompiledTypedDo(code, m, question, plus, a, at, d, x);
    case Case(arms) => CompiledTypedCase(code, m, arms, at, d, x);
  }

  lemma CompiledTypedThen(code: seq<int>, m: DepthMap, a: Tree, b: Tree, at: int, d: nat, x: int)
    requires var t := Then(a, b);
             && Laid(code, t, at) && Marked(m, t, at, d) && At(m, at + Size(t), d) && WellNested(t, d > 0)
             && x in m && at <= x < at + Size(t)
    ensures CompiledAt(code, m, x)
    decreases Then(a, b), 0
  {
    hide CompiledAt, Size;
    Sizes(a, b);
    Entry(m, b, at + Size(a), d);
    if x < at + Size(a) { CompiledTyped(code, m, a, at, d, x); } else { CompiledTyped(code, m, b, at + Size(a), d, x); }
  }

  lemma CompiledTypedIf(code: seq<int>, m: DepthMap, a: Tree, at: int, d: nat, x: int)
    requires var t := If(a);
             && Laid(code, t, at) && Marked(m, t, at, d) && At(m, at + Size(t), d) && WellNested(t, d > 0)
             && x in m && at <= x < at + Size(t)
    ensures CompiledAt(code, m, x)
    decreases If(a), 0
  {
    hide CompiledAt, Size;
    Sizes(a, a);
    Entry(m, a, at + 2, d);
    if x == at { TypedTest(code, m, x, BRANCH0_CHECK, Size(a) + 1, d); } else { CompiledTyped(code, m, a, at + 2, d, x); }
  }

  lemma CompiledTypedCase(code: seq<int>, m: DepthMap, arms: Arms, at: int, d: nat, x: int)
    requires var t := Case(arms);
             && Laid(code, t, at) && Marked(m, t, at, d) && At(m, at + Size(t), d) && WellNested(t, d > 0)
             && x in m && at <= x < at + Size(t)
    ensures CompiledAt(code, m, x)
    decreases arms, 2
  {
    CaseSize(arms);
    CompiledTypedArms(code, m, arms, at, d, x);
  }

  lemma LoopParts(code: seq<int>, m: DepthMap, t: Tree, at: int, d: nat)
    requires (t.Until? || t.Again?) && Laid(code, t, at) && Marked(m, t, at, d) && WellNested(t, d > 0)
    ensures var op, back := if t.Until? then BRANCH0_CHECK else BRANCH_CHECK, at + Size(t.body);
            && Laid(code, t.body, at) && Pair(code, back, op, -(Size(t.body) + 1))
            && Marked(m, t.body, at, d) && Wide(m, back, d) && WellNested(t.body, d > 0) && Size(t) == Size(t.body) + 2
  {
    hide Size;
    Sizes(t.body, t.body);
  }

  lemma CompiledTypedLoop(code: seq<int>, m: DepthMap, t: Tree, at: int, d: nat, x: int)
    requires t.Until? || t.Again?
    requires Laid(code, t, at) && Marked(m, t, at, d) && At(m, at + Size(t), d) && WellNested(t, d > 0)
    requires x in m && at <= x < at + Size(t)
    ensures CompiledAt(code, m, x)
    decreases t, 0
  {
    hide CompiledAt, Size, Laid, WellNested;
    LoopParts(code, m, t, at, d);
    var back := at + Size(t.body);
    Entry(m, t.body, at, d);
    if x < back { CompiledTyped(code, m, t.body, at, d, x); }
    else if t.Until? { TypedTest(code, m, x, BRANCH0_CHECK, -(Size(t.body) + 1), d); }
    else { TypedJump(code, m, x, -(Size(t.body) + 1), d); }
  }

  lemma CompiledTypedDo(code: seq<int>, m: DepthMap, question: bool, plus: bool, a: Tree, at: int, d: nat, x: int)
    requires var t := Do(question, plus, a);
             && Laid(code, t, at) && Marked(m, t, at, d) && At(m, at + Size(t), d) && WellNested(t, d > 0)
             && x in m && at <= x < at + Size(t)
    ensures CompiledAt(code, m, x)
    decreases Do(question, plus, a), 0
  {
    Entry(m, a, at + 2, d + 1);
    if at + 2 <= x < at + 2 + Size(a) { CompiledTyped(code, m, a, at + 2, d + 1, x); }
  }

  lemma CompiledTypedIfElse(code: seq<int>, m: DepthMap, a: Tree, b: Tree, at: int, d: nat, x: int)
    requires var t := IfElse(a, b);
             && Laid(code, t, at) && Marked(m, t, at, d) && At(m, at + Size(t), d) && WellNested(t, d > 0)
             && x in m && at <= x < at + Size(t)
    ensures CompiledAt(code, m, x)
    decreases IfElse(a, b), 0
  {
    hide CompiledAt, Size;
    Sizes(a, b);
    var mid := at + 2 + Size(a);
    Entry(m, a, at + 2, d);
    Entry(m, b, mid + 2, d);
    if x == at { TypedTest(code, m, x, BRANCH0_CHECK, Size(a) + 3, d); }
    else if x == mid { TypedJump(code, m, x, Size(b) + 1, d); }
    else if x < mid { CompiledTyped(code, m, a, at + 2, d, x); }
    else { CompiledTyped(code, m, b, mid + 2, d, x); }
  }

  lemma CompiledTypedWhile(code: seq<int>, m: DepthMap, a: Tree, b: Tree, at: int, d: nat, x: int)
    requires var t := While(a, b);
             && Laid(code, t, at) && Marked(m, t, at, d) && At(m, at + Size(t), d) && WellNested(t, d > 0)
             && x in m && at <= x < at + Size(t)
    ensures CompiledAt(code, m, x)
    decreases While(a, b), 0
  {
    hide CompiledAt, Size;
    Sizes(a, b);
    var test := at + Size(a);
    var back := test + 2 + Size(b);
    Entry(m, a, at, d);
    Entry(m, b, test + 2, d);
    if x < test { CompiledTyped(code, m, a, at, d, x); }
    else if x == test { TypedTest(code, m, x, BRANCH0_CHECK, Size(b) + 3, d); }
    else if x < back { CompiledTyped(code, m, b, test + 2, d, x); }
    else { TypedJump(code, m, x, -(Size(a) + Size(b) + 3), d); }
  }

  lemma {:induction false} CompiledTypedArms(code: seq<int>, m: DepthMap, arms: Arms, at: int, d: nat, x: int)
    requires LaidArms(code, arms, at) && MarkedArms(m, arms, at, d) && At(m, at + ArmsSize(arms), d)
    requires WellNestedArms(arms, d > 0)
    requires x in m && at <= x < at + ArmsSize(arms)
    ensures CompiledAt(code, m, x)
    decreases arms, 1
  {
    hide Size, ArmsSize;
    ArmSizes(arms);
    match arms
    case Default(c) =>
      if x < at + Size(c) { CompiledTyped(code, m, c, at, d, x); }
    case Arm(_, _, _, _) => CompiledTypedArm(code, m, arms, at, d, x);
  }

  lemma CompiledTypedArm(code: seq<int>, m: DepthMap, arms: Arms, at: int, d: nat, x: int)
    requires arms.Arm?
    requires LaidArms(code, arms, at) && MarkedArms(m, arms, at, d) && At(m, at + ArmsSize(arms), d)
    requires WellNestedArms(arms, d > 0)
    requires x in m && at <= x < at + ArmsSize(arms)
    ensures CompiledAt(code, m, x)
    decreases arms, 0
  {
    hide CompiledAt, Size, ArmsSize;
    ArmSizes(arms);
    if arms.rest.Arm? { ArmSizes(arms.rest); }
    var Arm(s, b, falls, rest) := arms;
    var of := at + Size(s);
    var branch := of + 2 + Size(b);
    EntryArms(m, rest, branch + 2, d);
    Entry(m, b, of + 2, d);
    if falls && rest.Arm? { Entry(m, rest.body, branch + 2 + Size(rest.select) + 2, d); }
    if x < of { CompiledTyped(code, m, s, at, d, x); }
    else if x == of { TypedTest(code, m, x, OF, Size(b) + 3, d); }
    else if x < branch { CompiledTyped(code, m, b, of + 2, d, x); }
    else if x == branch { TypedJump(code, m, x, Exit(arms), d); }
    else { CompiledTypedArms(code, m, rest, branch + 2, d, x); }
  }

  /** Two maps say the same about the cells from `lo` to `hi`. */
  ghost predicate Same(m: DepthMap, m': DepthMap, lo: int, hi: int) {
    forall x :: lo <= x < hi ==> (x in m <==> x in m') && (x in m ==> m[x] == m'[x])
  }

  ghost predicate Bounded(m: DepthMap, lo: int, hi: int) {
    forall x :: x in m ==> lo <= x < hi
  }

  lemma {:induction false} MarkedFrame(m: DepthMap, m': DepthMap, t: Tree, at: int, d: nat)
    requires Marked(m, t, at, d) && Same(m, m', at, at + Size(t))
    ensures Marked(m', t, at, d)
    decreases t, 1
  {
    hide Size, ArmsSize, Marked, MarkedArms, Same;
    match t
    case Nop => MarkedFrameLeaf(m, m', t, at, d);
    case Number(_) => MarkedFrameLeaf(m, m', t, at, d);
    case Plain(_) => MarkedFrameLeaf(m, m', t, at, d);
    case Leave => MarkedFrameLeaf(m, m', t, at, d);
    case Then(a, b) => MarkedFrameThen(m, m', a, b, at, d);
    case If(_) => MarkedFrameIf(m, m', t, at, d);
    case IfElse(a, b) => MarkedFrameIfElse(m, m', a, b, at, d);
    case Until(_) => MarkedFrameIf(m, m', t, at, d);
    case Again(_) => MarkedFrameIf(m, m', t, at, d);
    case While(a, b) => MarkedFrameWhile(m, m', a, b, at, d);
    case Do(_, _, _) => MarkedFrameDo(m, m', t, at, d);
    case Case(arms) => MarkedFrameCase(m, m', arms, at, d);
  }

  lemma MarkedFrameThen(m: DepthMap, m': DepthMap, a: Tree, b: Tree, at: int, d: nat)
    requires Marked(m, Then(a, b), at, d) && Same(m, m', at, at + Size(Then(a, b)))
    ensures Marked(m', Then(a, b), at, d)
    decreases Then(a, b), 0
  {
    hide Size;
    Sizes(a, b);
    MarkedFrame(m, m', a, at, d);
    MarkedFrame(m, m', b, at + Size(a), d);
  }

  lemma MarkedFrameIf(m: DepthMap, m': DepthMap, t: Tree, at: int, d: nat)
    requires t.If? || t.Until? || t.Again?
    requires Marked(m, t, at, d) && Same(m, m', at, at + Size(t))
    ensures Marked(m', t, at, d)
    decreases t, 0
  {
    hide Size;
    match t
    case If(a) => Sizes(a, a); MarkedFrame(m, m', a, at + 2, d);
    case Until(a) => Sizes(a, a); MarkedFrame(m, m', a, at, d);
    case Again(a) => Sizes(a, a); MarkedFrame(m, m', a, at, d);
  }

  lemma MarkedFrameDo(m: DepthMap, m': DepthMap, t: Tree, at: int, d: nat)
    requires t.Do? && Marked(m, t, at, d) && Same(m, m', at, at + Size(t))
    ensures Marked(m', t, at, d)
    decreases t, 0
  {
    hide Size;
    Sizes(t.body, t.body);
    MarkedFrame(m, m', t.body, at + 2, d + 1);
  }

  lemma MarkedFrameCase(m: DepthMap, m': DepthMap, arms: Arms, at: int, d: nat)
    requires Marked(m, Case(arms), at, d) && Same(m, m', at, at + Size(Case(arms)))
    ensures Marked(m', Case(arms), at, d)
    decreases arms, 2
  {
    CaseSize(arms);
    MarkedArmsFrame(m, m', arms, at, d);
  }

  lemma MarkedFrameLeaf(m: DepthMap, m': DepthMap, t: Tree, at: int, d: nat)
    requires t.Nop? || t.Number? || t.Plain? || t.Leave?
    requires Marked(m, t, at, d) && Same(m, m', at, at + Size(t))
    ensures Marked(m', t, at, d)
  {
  }

  lemma MarkedFrameIfElse(m: DepthMap, m': DepthMap, a: Tree, b: Tree, at: int, d: nat)
    requires Marked(m, IfElse(a, b), at, d) && Same(m, m', at, at + Size(IfElse(a, b)))
    ensures Marked(m', IfElse(a, b), at, d)
    decreases IfElse(a, b), 0
  {
    hide Size;
    Sizes(a, b);
    MarkedFrame(m, m', a, at + 2, d);
    MarkedFrame(m, m', b, at + Size(a) + 4, d);
  }

  lemma MarkedFrameWhile(m: DepthMap, m': DepthMap, a: Tree, b: Tree, at: int, d: nat)
    requires Marked(m, While(a, b), at, d) && Same(m, m', at, at + Size(While(a, b)))
    ensures Marked(m', While(a, b), at, d)
    decreases While(a, b), 0
  {
    hide Size;
    Sizes(a, b);
    MarkedFrame(m, m', a, at, d);
    MarkedFrame(m, m', b, at + Size(a) + 2, d);
  }

  lemma {:induction false} MarkedArmsFrame(m: DepthMap, m': DepthMap, arms: Arms, at: int, d: nat)
    requires MarkedArms(m, arms, at, d) && Same(m, m', at, at + ArmsSize(arms))
    ensures MarkedArms(m', arms, at, d)
    decreases arms, 1
  {
    hide Size, ArmsSize;
    ArmSizes(arms);
    match arms
    case Default(c) => MarkedFrame(m, m', c, at, d);
    case Arm(s, b, _, rest) =>
      MarkedFrame(m, m', s, at, d);
      MarkedFrame(m, m', b, at + Size(s) + 2, d);
      MarkedArmsFrame(m, m', rest, at + Size(s) + 2 + Size(b) + 2, d);
  }

  /** The starts of two stretches of code, one behind the other. */
  lemma Join(m: DepthMap, m': DepthMap, lo: int, mid: int, mid': int, hi: int) returns (r: DepthMap)
    requires Bounded(m, lo, mid) && Bounded(m', mid', hi) && lo <= mid <= mid' <= hi
    ensures Bounded(r, lo, hi) && Same(m, r, lo, mid) && Same(m', r, mid', hi)
    ensures forall x :: mid <= x < mid' ==> x !in r
  {
    r := m + m';
  }

  /** One more instruction at `p`, in front of or behind the code from `lo` to `hi`. */
  lemma Add(m: DepthMap, lo: int, hi: int, p: int, d: nat) returns (r: DepthMap)
    requires Bounded(m, lo, hi) && lo <= hi && (p + 2 == lo || p == hi)
    ensures At(r, p, d) && p + 1 !in r && Same(m, r, lo, hi)
    ensures Bounded(r, if p == hi then lo else p, if p == hi then p + 2 else hi)
  {
    r := m[p := d];
  }

  lemma {:induction false} Mark(t: Tree, at: int, d: nat) returns (m: DepthMap)
    ensures Marked(m, t, at, d) && Bounded(m, at, at + Size(t))
    decreases t, 1
  {
    hide Marked, MarkedArms;
    match t
    case Nop => m := map[]; MarkLeaf(m, t, at, d);
    case Number(_) => m := map[at := d]; MarkLeaf(m, t, at, d);
    case Plain(_) => m := map[at := d]; MarkLeaf(m, t, at, d);
    case Leave => m := map[at := d]; MarkLeaf(m, t, at, d);
    case Then(a, b) => m := MarkThen(a, b, at, d);
    case If(a) => m := MarkIf(a, at, d);
    case IfElse(a, b) => m := MarkIfElse(a, b, at, d);
    case Until(a) => m := MarkBack(a, at, d); MarkedLoop(m, t, at, d);
    case Again(a) => m := MarkBack(a, at, d); MarkedLoop(m, t, at, d);
    case While(a, b) => m := MarkWhile(a, b, at, d);
    case Do(question, plus, a) => m := MarkDo(question, plus, a, at, d);
    case Case(arms) => m := MarkCase(arms, at, d);
  }

  lemma MarkLeaf(m: DepthMap, t: Tree, at: int, d: nat)
    requires t.Nop? || t.Number? || t.Plain? || t.Leave?
    requires m == if t.Nop? then map[] else map[at := d]
    ensures Marked(m, t, at, d)
  {
  }

  lemma MarkedLoop(m: DepthMap, t: Tree, at: int, d: nat)
    requires t.Until? || t.Again?
    requires Marked(m, t.body, at, d) && Wide(m, at + Size(t.body), d)
    ensures Marked(m, t, at, d)
  {
  }

  lemma MarkThen(a: Tree, b: Tree, at: int, d: nat) returns (m: DepthMap)
    ensures Marked(m, Then(a, b), at, d) && Bounded(m, at, at + Size(Then(a, b)))
    decreases Then(a, b), 0
  {
    hide Size;
    Sizes(a, b);
    var mid := at + Size(a);
    var m1 := Mark(a, at, d);
    var m2 := Mark(b, mid, d);
    m := Join(m1, m2, at, mid, mid, mid + Size(b));
    MarkedFrame(m1, m, a, at, d);
    MarkedFrame(m2, m, b, mid, d);
  }

  lemma MarkIf(a: Tree, at: int, d: nat) returns (m: DepthMap)
    ensures Marked(m, If(a), at, d) && Bounded(m, at, at + Size(If(a)))
    decreases a, 2
  {
    hide Size;
    Sizes(a, a);
    var m1 := Mark(a, at + 2, d);
    m := Add(m1, at + 2, at + 2 + Size(a), at, d);
    MarkedFrame(m1, m, a, at + 2, d);
  }

  lemma MarkIfElse(a: Tree, b: Tree, at: int, d: nat) returns (m: DepthMap)
    ensures Marked(m, IfElse(a, b), at, d) && Bounded(m, at, at + Size(IfElse(a, b)))
    decreases IfElse(a, b), 0
  {
    hide Size;
    Sizes(a, b);
    var mid := at + 2 + Size(a);
    Sizes(b, b);
    var m1 := MarkIf(a, at, d);
    var m2 := MarkIf(b, mid, d);
    m := Join(m1, m2, at, mid, mid, mid + 2 + Size(b));
    MarkedFrame(m1, m, If(a), at, d);
    MarkedFrame(m2, m, If(b), mid, d);
  }

  lemma MarkBack(a: Tree, at: int, d: nat) returns (m: DepthMap)
    ensures Marked(m, a, at, d) && Wide(m, at + Size(a), d) && Bounded(m, at, at + Size(a) + 2)
    decreases a, 2
  {
    var m1 := Mark(a, at, d);
    m := Add(m1, at, at + Size(a), at + Size(a), d);
    MarkedFrame(m1, m, a, at, d);
  }

  /** Two stretches that end in a branch make a WHILE loop, or an arm of a CASE. */
  lemma JoinWhile(m1: DepthMap, m2: DepthMap, a: Tree, b: Tree, at: int, d: nat) returns (m: DepthMap)
    requires Marked(m1, a, at, d) && Wide(m1, at + Size(a), d) && Bounded(m1, at, at + Size(a) + 2)
    requires Marked(m2, b, at + Size(a) + 2, d) && Wide(m2, at + Size(a) + 2 + Size(b), d)
    requires Bounded(m2, at + Size(a) + 2, at + Size(a) + 2 + Size(b) + 2)
    ensures Marked(m, While(a, b), at, d) && Bounded(m, at, at + Size(While(a, b)))
  {
    hide Size;
    Sizes(a, b);
    var mid := at + Size(a) + 2;
    m := Join(m1, m2, at, mid, mid, mid + Size(b) + 2);
    MarkedFrame(m1, m, a, at, d);
    MarkedFrame(m2, m, b, mid, d);
  }

  lemma MarkWhile(a: Tree, b: Tree, at: int, d: nat) returns (m: DepthMap)
    ensures Marked(m, While(a, b), at, d) && Bounded(m, at, at + Size(While(a, b)))
    decreases While(a, b), 0
  {
    hide Marked, Size;
    Sizes(a, b);
    var m1 := MarkBack(a, at, d);
    var m2 := MarkBack(b, at + Size(a) + 2, d);
    m := JoinWhile(m1, m2, a, b, at, d);
  }

  lemma MarkDo(question: bool, plus: bool, a: Tree, at: int, d: nat) returns (m: DepthMap)
    ensures Marked(m, Do(question, plus, a), at, d) && Bounded(m, at, at + Size(Do(question, plus, a)))
    decreases Do(question, plus, a), 0
  {
    hide Size;
    Sizes(a, a);
    var m1 := MarkBack(a, at + 2, d + 1);
    m := Add(m1, at + 2, at + 4 + Size(a), at, d);
    MarkedFrame(m1, m, a, at + 2, d + 1);
  }

  lemma MarkCase(arms: Arms, at: int, d: nat) returns (m: DepthMap)
    ensures Marked(m, Case(arms), at, d) && Bounded(m, at, at + Size(Case(arms)))
    decreases arms, 3
  {
    m := MarkArms(arms, at, d);
  }

  lemma {:induction false} MarkArms(arms: Arms, at: int, d: nat) returns (m: DepthMap)
    ensures MarkedArms(m, arms, at, d) && Bounded(m, at, at + ArmsSize(arms))
    decreases arms, 2
  {
    hide Size, ArmsSize;
    ArmSizes(arms);
    match arms
    case Default(c) =>
      var m1 := Mark(c, at, d);
      m := m1[at + Size(c) := d];
      MarkedFrame(m1, m, c, at, d);
    case Arm(_, _, _, _) => m := MarkArm(arms, at, d);
  }

  lemma MarkArm(arms: Arms, at: int, d: nat) returns (m: DepthMap)
    requires arms.Arm?
    ensures MarkedArms(m, arms, at, d) && Bounded(m, at, at + ArmsSize(arms))
    decreases arms, 1
  {
    hide Marked, MarkedArms, Size, ArmsSize;
    var Arm(s, b, _, rest) := arms;
    ArmSizes(arms);
    Sizes(s, b);
    var next := at + Size(s) + 2 + Size(b) + 2;
    var m1 := MarkTest(arms, at, d);
    var m2 := MarkArms(rest, next, d);
    m := Join(m1, m2, at, next, next, next + ArmsSize(rest));
    MarkedFrame(m1, m, While(s, b), at, d);
    MarkedArmsFrame(m2, m, rest, next, d);
    MarkedArm(m, arms, at, d);
  }

  /** The selection and the body of an arm, each with the branch behind it, as in a WHILE loop. */
  lemma MarkTest(arms: Arms, at: int, d: nat) returns (m: DepthMap)
    requires arms.Arm?
    ensures var w := While(arms.select, arms.body); Marked(m, w, at, d) && Bounded(m, at, at + Size(w))
    decreases arms, 0
  {
    hide Marked, Size;
    var Arm(s, b, _, _) := arms;
    var m0 := MarkBack(s, at, d);
    var m1 := MarkBack(b, at + Size(s) + 2, d);
    m := JoinWhile(m0, m1, s, b, at, d);
  }

  lemma MarkedArm(m: DepthMap, arms: Arms, at: int, d: nat)
    requires arms.Arm? && Marked(m, While(arms.select, arms.body), at, d)
    requires MarkedArms(m, arms.rest, at + Size(arms.select) + 2 + Size(arms.body) + 2, d)
    ensures MarkedArms(m, arms, at, d)
  {
    hide Size;
  }

  lemma TypedSemi(code: seq<int>, m: DepthMap, x: int)
    requires Single(code, x, SEMI) && At(m, x, 0)
    ensures CompiledAt(code, m, x)
  {
  }

  lemma AllCompiled(code: seq<int>, m: DepthMap)
    requires forall a {:trigger a in m} :: a in m ==> CompiledAt(code, m, a)
    ensures Typed(code, m) && Unrun(code, m.Keys)
  {
    hide TypedAt;
  }

  lemma DefinitionTyped(code: seq<int>, t: Tree, at: int) returns (m: DepthMap)
    requires WellNested(t, false) && Laid(code, t, at) && Single(code, at + Size(t), SEMI)
    ensures Typed(code, m) && At(m, at, 0) && Unrun(code, m.Keys)
  {
    hide TypedAt, CompiledAt, Laid, WellNested, Marked;
    var exit := at + Size(t);
    var m1 := Mark(t, at, 0);
    m := m1[exit := 0];
    MarkedFrame(m1, m, t, at, 0);
    Entry(m, t, at, 0);
    forall x | x in m ensures CompiledAt(code, m, x) {
      if x < exit { CompiledTyped(code, m, t, at, 0, x); } else { TypedSemi(code, m, exit); }
    }
    AllCompiled(code, m);
  }

  /** A compiled definition stays on its instruction starts in every run, and its branches land on them. */
  lemma DefinitionStays(code: seq<int>, t: Tree, at: int, s: State) returns (starts: set<int>)
    requires WellNested(t, false) && Laid(code, t, at) && Single(code, at + Size(t), SEMI) && s.ip == at
    ensures Lands(code, starts) && StaysOn(code, s, starts) && Unrun(code, starts)
  {
    var m := DefinitionTyped(code, t, at);
    TypedStays(code, m, s);
    starts := m.Keys;
  }
}
