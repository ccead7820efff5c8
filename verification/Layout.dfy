/** The cells that a tree of control structures becomes, and where they lie in dictionary memory. */
module Layout {
  import opened Vm
  import opened Structured

  function Size(t: Tree): nat {
    match t
    case Nop => 0
    case Then(a, b) => Size(a) + Size(b)
    case Number(v) => if -16 <= v <= 16 then 1 else 2
    case Plain(_) => 1
    case Leave => 1
    case If(a) => 2 + Size(a)
    case IfElse(a, b) => 2 + Size(a) + 2 + Size(b)
    case Until(a) => Size(a) + 2
    case Again(a) => Size(a) + 2
    case While(a, b) => Size(a) + 2 + Size(b) + 2
    case Do(_, _, a) => 2 + Size(a) + 2
    case Case(arms) => ArmsSize(arms)
  }

  function ArmsSize(arms: Arms): nat {
    match arms
    case Default(c) => Size(c) + 1
    case Arm(s, b, _, rest) => Size(s) + 2 + Size(b) + 2 + ArmsSize(rest)
  }

  /** The offset in the branch that closes the first arm: to the body of the next arm after
      FALLTHROUGH, past ENDCASE otherwise. */
  function Exit(arms: Arms): int
    requires arms.Arm?
  {
    if arms.falls && arms.rest.Arm? then Size(arms.rest.select) + 3 else ArmsSize(arms.rest) + 1
  }

  /** The sizes of structures in terms of those of their parts. */
  lemma Sizes(a: Tree, b: Tree)
    ensures Size(Nop) == 0 && Size(Then(a, b)) == Size(a) + Size(b)
    ensures Size(If(a)) == Size(a) + 2 && Size(IfElse(a, b)) == Size(a) + Size(b) + 4
    ensures Size(Until(a)) == Size(Again(a)) == Size(a) + 2
    ensures Size(While(a, b)) == Size(a) + Size(b) + 4
    ensures forall question, plus :: Size(Do(question, plus, a)) == Size(a) + 4
  {
  }

  lemma CaseSize(arms: Arms)
    ensures Size(Case(arms)) == ArmsSize(arms)
  {
  }

  lemma ArmSizes(arms: Arms)
    ensures ArmsSize(arms) == match arms
                              case Default(c) => Size(c) + 1
                              case Arm(s, b, _, rest) => Size(s) + 2 + Size(b) + 2 + ArmsSize(rest)
  {
  }

  /** A one-cell instruction at `at`. */
  predicate Single(code: seq<int>, at: int, op: int) {
    0 <= at < |code| && code[at] == op
  }

  /** A two-cell instruction at `at`. */
  predicate Pair(code: seq<int>, at: int, op: int, arg: int) {
    0 <= at && at + 1 < |code| && code[at] == op && code[at + 1] == arg
  }

  /** The code of `t` lies at `at`, instruction by instruction. */
  predicate Laid(code: seq<int>, t: Tree, at: int) {
    match t
    case Nop => true
    case Then(a, b) => Laid(code, a, at) && Laid(code, b, at + Size(a))
    case Number(v) =>
      if 1 <= v <= 16 then Single(code, at, v)
      else if -16 <= v <= 0 then Single(code, at, ZERO - v)
      else Pair(code, at, LITERAL, v)
    case Plain(op) => Single(code, at, op)
    case Leave => Single(code, at, LEAVE)
    case If(a) => Pair(code, at, BRANCH0_CHECK, Size(a) + 1) && Laid(code, a, at + 2)
    case IfElse(a, b) =>
      && Pair(code, at, BRANCH0_CHECK, Size(a) + 3) && Laid(code, a, at + 2)
      && Pair(code, at + 2 + Size(a), BRANCH_CHECK, Size(b) + 1) && Laid(code, b, at + Size(a) + 4)
    case Until(a) => Laid(code, a, at) && Pair(code, at + Size(a), BRANCH0_CHECK, -(Size(a) + 1))
    case Again(a) => Laid(code, a, at) && Pair(code, at + Size(a), BRANCH_CHECK, -(Size(a) + 1))
    case While(a, b) =>
      && Laid(code, a, at)
      && Pair(code, at + Size(a), BRANCH0_CHECK, Size(b) + 3) && Laid(code, b, at + Size(a) + 2)
      && Pair(code, at + Size(a) + 2 + Size(b), BRANCH_CHECK, -(Size(a) + Size(b) + 3))
    case Do(question, plus, a) =>
      && Pair(code, at, if question then QDO else DO, at + Size(a) + 4) && Laid(code, a, at + 2)
      && Pair(code, at + 2 + Size(a), if plus then PLUS_LOOP else LOOP, -(Size(a) + 1))
    case Case(arms) => LaidArms(code, arms, at)
  }

  predicate LaidArms(code: seq<int>, arms: Arms, at: int) {
    match arms
    case Default(c) => Laid(code, c, at) && Single(code, at + Size(c), DROP)
    case Arm(s, b, _, rest) =>
      var of := at + Size(s);
      var branch := of + 2 + Size(b);
      && Laid(code, s, at)
      && Pair(code, of, OF, Size(b) + 3) && Laid(code, b, of + 2)
      && Pair(code, branch, BRANCH_CHECK, Exit(arms)) && LaidArms(code, rest, branch + 2)
  }

  lemma LaidThen(code: seq<int>, a: Tree, b: Tree, at: int)
    ensures Laid(code, Then(a, b), at) <==> Laid(code, a, at) && Laid(code, b, at + Size(a))
  {
  }

  lemma LaidIfElse(code: seq<int>, a: Tree, b: Tree, at: int)
    ensures Laid(code, IfElse(a, b), at) <==>
      && Pair(code, at, BRANCH0_CHECK, Size(a) + 3) && Laid(code, a, at + 2)
      && Pair(code, at + 2 + Size(a), BRANCH_CHECK, Size(b) + 1) && Laid(code, b, at + Size(a) + 4)
  {
  }

  lemma LaidWhile(code: seq<int>, a: Tree, b: Tree, at: int)
    ensures Laid(code, While(a, b), at) <==>
      && Laid(code, a, at)
      && Pair(code, at + Size(a), BRANCH0_CHECK, Size(b) + 3) && Laid(code, b, at + Size(a) + 2)
      && Pair(code, at + Size(a) + 2 + Size(b), BRANCH_CHECK, -(Size(a) + Size(b) + 3))
  {
  }

  lemma LaidLoop(code: seq<int>, t: Tree, at: int)
    requires t.Until? || t.Again?
    ensures Laid(code, t, at) <==>
      && Laid(code, t.body, at)
      && Pair(code, at + Size(t.body), if t.Until? then BRANCH0_CHECK else BRANCH_CHECK, -(Size(t.body) + 1))
  {
  }

  lemma LaidDo(code: seq<int>, question: bool, plus: bool, a: Tree, at: int)
    ensures Laid(code, Do(question, plus, a), at) <==>
      && Pair(code, at, if question then QDO else DO, at + Size(a) + 4) && Laid(code, a, at + 2)
      && Pair(code, at + 2 + Size(a), if plus then PLUS_LOOP else LOOP, -(Size(a) + 1))
  {
  }

  ghost predicate Agree(code: seq<int>, code': seq<int>, lo: nat, hi: nat) {
    hi <= |code| && hi <= |code'| && forall i :: lo <= i < hi ==> code'[i] == code[i]
  }

  /** The code of a tree depends only on the cells it occupies. */
  lemma {:induction false} LaidFrame(code: seq<int>, code': seq<int>, t: Tree, at: nat)
    requires Laid(code, t, at)
    requires Agree(code, code', at, at + Size(t))
    ensures Laid(code', t, at)
    decreases t, 1
  {
    hide Size, ArmsSize, Laid, LaidArms, Agree;
    match t
    case Nop => LaidFrameLeaf(code, code', t, at);
    case Number(_) => LaidFrameLeaf(code, code', t, at);
    case Plain(_) => LaidFrameLeaf(code, code', t, at);
    case Leave => LaidFrameLeaf(code, code', t, at);
    case Then(a, b) => LaidFrameThen(code, code', a, b, at);
    case If(_) => LaidFrameIf(code, code', t, at);
    case IfElse(a, b) => LaidFrameIfElse(code, code', a, b, at);
    case Until(_) => LaidFrameLoop(code, code', t, at);
    case Again(_) => LaidFrameLoop(code, code', t, at);
    case While(a, b) => LaidFrameWhile(code, code', a, b, at);
    case Do(_, _, _) => LaidFrameIf(code, code', t, at);
    case Case(arms) => LaidFrameCase(code, code', arms, at);
  }

  lemma LaidFrameThen(code: seq<int>, code': seq<int>, a: Tree, b: Tree, at: nat)
    requires Laid(code, Then(a, b), at) && Agree(code, code', at, at + Size(Then(a, b)))
    ensures Laid(code', Then(a, b), at)
    decreases Then(a, b), 0
  {
    hide Size;
    Sizes(a, b);
    LaidFrame(code, code', a, at);
    LaidFrame(code, code', b, at + Size(a));
  }

  lemma LaidFrameIf(code: seq<int>, code': seq<int>, t: Tree, at: nat)
    requires t.If? || t.Do?
    requires Laid(code, t, at) && Agree(code, code', at, at + Size(t))
    ensures Laid(code', t, at)
    decreases t, 0
  {
    hide Size;
    match t
    case If(a) => Sizes(a, a); LaidFrame(code, code', a, at + 2);
    case Do(_, _, a) => Sizes(a, a); LaidFrame(code, code', a, at + 2);
  }

  lemma LaidFrameLoop(code: seq<int>, code': seq<int>, t: Tree, at: nat)
    requires t.Until? || t.Again?
    requires Laid(code, t, at) && Agree(code, code', at, at + Size(t))
    ensures Laid(code', t, at)
    decreases t, 0
  {
    hide Size;
    Sizes(t.body, t.body);
    LaidFrame(code, code', t.body, at);
  }

  lemma LaidFrameCase(code: seq<int>, code': seq<int>, arms: Arms, at: nat)
    requires Laid(code, Case(arms), at) && Agree(code, code', at, at + Size(Case(arms)))
    ensures Laid(code', Case(arms), at)
    decreases arms, 2
  {
    CaseSize(arms);
    LaidArmsFrame(code, code', arms, at);
  }

  lemma LaidFrameLeaf(code: seq<int>, code': seq<int>, t: Tree, at: nat)
    requires t.Nop? || t.Number? || t.Plain? || t.Leave?
    requires Laid(code, t, at) && Agree(code, code', at, at + Size(t))
    ensures Laid(code', t, at)
  {
  }

  lemma LaidFrameIfElse(code: seq<int>, code': seq<int>, a: Tree, b: Tree, at: nat)
    requires Laid(code, IfElse(a, b), at) && Agree(code, code', at, at + Size(IfElse(a, b)))
    ensures Laid(code', IfElse(a, b), at)
    decreases IfElse(a, b), 0
  {
    hide Size;
    Sizes(a, b);
    LaidFrame(code, code', a, at + 2);
    LaidFrame(code, code', b, at + Size(a) + 4);
  }

  lemma LaidFrameWhile(code: seq<int>, code': seq<int>, a: Tree, b: Tree, at: nat)
    requires Laid(code, While(a, b), at) && Agree(code, code', at, at + Size(While(a, b)))
    ensures Laid(code', While(a, b), at)
    decreases While(a, b), 0
  {
    hide Size;
    Sizes(a, b);
    LaidFrame(code, code', a, at);
    LaidFrame(code, code', b, at + Size(a) + 2);
  }

  lemma {:induction false} LaidArmsFrame(code: seq<int>, code': seq<int>, arms: Arms, at: nat)
    requires LaidArms(code, arms, at)
    requires Agree(code, code', at, at + ArmsSize(arms))
    ensures LaidArms(code', arms, at)
    decreases arms, 1
  {
    hide Size, ArmsSize;
    ArmSizes(arms);
    match arms
    case Default(c) => LaidFrame(code, code', c, at);
    case Arm(s, b, _, rest) =>
      LaidFrame(code, code', s, at);
      LaidFrame(code, code', b, at + Size(s) + 2);
      LaidArmsFrame(code, code', rest, at + Size(s) + 2 + Size(b) + 2);
  }

  /** A tree has one code: wherever it lies at one place, it is the same cells. */
  lemma {:induction false} OneCode(code: seq<int>, code': seq<int>, t: Tree, at: int, i: int)
    requires Laid(code, t, at) && Laid(code', t, at) && at <= i < at + Size(t)
    ensures 0 <= i < |code| && i < |code'| && code[i] == code'[i]
    decreases t, 1
  {
    hide Size, ArmsSize;
    match t
    case Nop => Sizes(t, t);
    case Then(a, b) =>
      Sizes(a, b);
      if i < at + Size(a) { OneCode(code, code', a, at, i); } else { OneCode(code, code', b, at + Size(a), i); }
    case Number(_) => OneCodeLeaf(code, code', t, at, i);
    case Plain(_) => OneCodeLeaf(code, code', t, at, i);
    case Leave => OneCodeLeaf(code, code', t, at, i);
    case If(a) => Sizes(a, a); if i >= at + 2 { OneCode(code, code', a, at + 2, i); }
    case IfElse(a, b) => OneCodeIfElse(code, code', a, b, at, i);
    case Until(a) => Sizes(a, a); if i < at + Size(a) { OneCode(code, code', a, at, i); }
    case Again(a) => Sizes(a, a); if i < at + Size(a) { OneCode(code, code', a, at, i); }
    case While(a, b) => OneCodeWhile(code, code', a, b, at, i);
    case Do(_, _, a) => Sizes(a, a); if at + 2 <= i < at + 2 + Size(a) { OneCode(code, code', a, at + 2, i); }
    case Case(arms) => CaseSize(arms); OneCodeArms(code, code', arms, at, i);
  }

  lemma OneCodeLeaf(code: seq<int>, code': seq<int>, t: Tree, at: int, i: int)
    requires t.Number? || t.Plain? || t.Leave?
    requires Laid(code, t, at) && Laid(code', t, at) && at <= i < at + Size(t)
    ensures 0 <= i < |code| && i < |code'| && code[i] == code'[i]
  {
  }

  lemma OneCodeIfElse(code: seq<int>, code': seq<int>, a: Tree, b: Tree, at: int, i: int)
    requires var t := IfElse(a, b); Laid(code, t, at) && Laid(code', t, at) && at <= i < at + Size(t)
    ensures 0 <= i < |code| && i < |code'| && code[i] == code'[i]
    decreases IfElse(a, b), 0
  {
    hide Size;
    Sizes(a, b);
    if at + 2 <= i < at + 2 + Size(a) { OneCode(code, code', a, at + 2, i); }
    else if i >= at + Size(a) + 4 { OneCode(code, code', b, at + Size(a) + 4, i); }
  }

  lemma OneCodeWhile(code: seq<int>, code': seq<int>, a: Tree, b: Tree, at: int, i: int)
    requires var t := While(a, b); Laid(code, t, at) && Laid(code', t, at) && at <= i < at + Size(t)
    ensures 0 <= i < |code| && i < |code'| && code[i] == code'[i]
    decreases While(a, b), 0
  {
    hide Size;
    Sizes(a, b);
    if i < at + Size(a) { OneCode(code, code', a, at, i); }
    else if at + Size(a) + 2 <= i < at + Size(a) + 2 + Size(b) { OneCode(code, code', b, at + Size(a) + 2, i); }
  }

  lemma {:induction false} OneCodeArms(code: seq<int>, code': seq<int>, arms: Arms, at: int, i: int)
    requires LaidArms(code, arms, at) && LaidArms(code', arms, at) && at <= i < at + ArmsSize(arms)
    ensures 0 <= i < |code| && i < |code'| && code[i] == code'[i]
    decreases arms, 1
  {
    hide Size, ArmsSize;
    ArmSizes(arms);
    match arms
    case Default(c) => if i < at + Size(c) { OneCode(code, code', c, at, i); }
    case Arm(s, b, _, rest) =>
      var body := at + Size(s) + 2;
      var next := body + Size(b) + 2;
      if i < at + Size(s) { OneCode(code, code', s, at, i); }
      else if body <= i < body + Size(b) { OneCode(code, code', b, body, i); }
      else if i >= next { OneCodeArms(code, code', rest, next, i); }
  }

  /** The code of a tree that lies at `at`. */
  function CodeOf(t: Tree, at: int): (c: seq<int>)
    ensures |c| == Size(t)
  {
    match t
    case Nop => []
    case Then(a, b) => CodeOf(a, at) + CodeOf(b, at + Size(a))
    case Number(v) => if 1 <= v <= 16 then [v] else if -16 <= v <= 0 then [ZERO - v] else [LITERAL, v]
    case Plain(op) => [op]
    case Leave => [LEAVE]
    case If(a) => [BRANCH0_CHECK, Size(a) + 1] + CodeOf(a, at + 2)
    case IfElse(a, b) =>
      [BRANCH0_CHECK, Size(a) + 3] + (CodeOf(a, at + 2) + ([BRANCH_CHECK, Size(b) + 1] + CodeOf(b, at + Size(a) + 4)))
    case Until(a) => CodeOf(a, at) + [BRANCH0_CHECK, -(Size(a) + 1)]
    case Again(a) => CodeOf(a, at) + [BRANCH_CHECK, -(Size(a) + 1)]
    case While(a, b) =>
      CodeOf(a, at) + ([BRANCH0_CHECK, Size(b) + 3]
                       + (CodeOf(b, at + Size(a) + 2) + [BRANCH_CHECK, -(Size(a) + Size(b) + 3)]))
    case Do(question, plus, a) =>
      [if question then QDO else DO, at + Size(a) + 4]
      + (CodeOf(a, at + 2) + [if plus then PLUS_LOOP else LOOP, -(Size(a) + 1)])
    case Case(arms) => ArmsCode(arms, at)
  }

  function ArmsCode(arms: Arms, at: int): (c: seq<int>)
    ensures |c| == ArmsSize(arms)
  {
    match arms
    case Default(c) => CodeOf(c, at) + [DROP]
    case Arm(s, b, _, rest) =>
      CodeOf(s, at) + ([OF, Size(b) + 3]
                       + (CodeOf(b, at + Size(s) + 2)
                          + ([BRANCH_CHECK, Exit(arms)] + ArmsCode(rest, at + Size(s) + 2 + Size(b) + 2))))
  }

  lemma CodeThen(a: Tree, b: Tree, at: int)
    ensures CodeOf(Then(a, b), at) == CodeOf(a, at) + CodeOf(b, at + Size(a))
  {
  }

  lemma CodeIfElse(a: Tree, b: Tree, at: int)
    ensures CodeOf(IfElse(a, b), at)
         == [BRANCH0_CHECK, Size(a) + 3]
            + (CodeOf(a, at + 2) + ([BRANCH_CHECK, Size(b) + 1] + CodeOf(b, at + Size(a) + 4)))
  {
  }

  lemma CodeWhile(a: Tree, b: Tree, at: int)
    ensures CodeOf(While(a, b), at)
         == CodeOf(a, at) + ([BRANCH0_CHECK, Size(b) + 3]
                             + (CodeOf(b, at + Size(a) + 2) + [BRANCH_CHECK, -(Size(a) + Size(b) + 3)]))
  {
  }

  lemma CodeLoop(t: Tree, at: int)
    requires t.Until? || t.Again?
    ensures CodeOf(t, at)
         == CodeOf(t.body, at) + [if t.Until? then BRANCH0_CHECK else BRANCH_CHECK, -(Size(t.body) + 1)]
  {
  }

  lemma CodeDo(question: bool, plus: bool, a: Tree, at: int)
    ensures CodeOf(Do(question, plus, a), at)
         == [if question then QDO else DO, at + Size(a) + 4]
            + (CodeOf(a, at + 2) + [if plus then PLUS_LOOP else LOOP, -(Size(a) + 1)])
  {
  }

  lemma CodeArm(s: Tree, b: Tree, fall: bool, rest: Arms, at: int)
    ensures var of := at + Size(s);
            var branch := [BRANCH_CHECK, Exit(Arm(s, b, fall, rest))];
            ArmsCode(Arm(s, b, fall, rest), at) == CodeOf(s, at) + ([OF, Size(b) + 3] + (CodeOf(b, of + 2)
              + (branch + ArmsCode(rest, of + 2 + Size(b) + 2))))
  {
  }

  /** Cells that lie at `at`. */
  predicate Lies(code: seq<int>, c: seq<int>, at: nat) {
    at + |c| <= |code| && code[at..at + |c|] == c
  }

  lemma LieBoth(code: seq<int>, c: seq<int>, d: seq<int>, at: nat)
    requires Lies(code, c + d, at)
    ensures Lies(code, c, at) && Lies(code, d, at + |c|)
  {
    assert code[at..at + |c|] == code[at..at + |c + d|][..|c|];
    assert code[at + |c|..at + |c| + |d|] == code[at..at + |c + d|][|c|..];
  }

  lemma LieThree(code: seq<int>, c: seq<int>, d: seq<int>, e: seq<int>, at: nat)
    requires Lies(code, c + (d + e), at)
    ensures Lies(code, c, at) && Lies(code, d, at + |c|) && Lies(code, e, at + |c| + |d|)
  {
    hide Lies;
    LieBoth(code, c, d + e, at);
    LieBoth(code, d, e, at + |c|);
  }

  lemma LieFour(code: seq<int>, c: seq<int>, d: seq<int>, e: seq<int>, f: seq<int>, at: nat)
    requires Lies(code, c + (d + (e + f)), at)
    ensures Lies(code, c, at) && Lies(code, d, at + |c|) && Lies(code, e, at + |c| + |d|)
    ensures Lies(code, f, at + |c| + |d| + |e|)
  {
    hide Lies;
    LieBoth(code, c, d + (e + f), at);
    LieThree(code, d, e, f, at + |c|);
  }

  lemma LiePair(code: seq<int>, op: int, arg: int, at: nat)
    requires Lies(code, [op, arg], at)
    ensures Pair(code, at, op, arg)
  {
    assert code[at] == code[at..at + 2][0] && code[at + 1] == code[at..at + 2][1];
  }

  lemma LieSingle(code: seq<int>, op: int, at: nat)
    requires Lies(code, [op], at)
    ensures Single(code, at, op)
  {
    assert code[at] == code[at..at + 1][0];
  }

  /** There is code for every tree, at every place. */
  lemma {:induction false} CodeLaid(code: seq<int>, t: Tree, at: nat)
    requires Lies(code, CodeOf(t, at), at)
    ensures Laid(code, t, at)
    decreases t, 1
  {
    hide Size, ArmsSize, CodeOf, ArmsCode, Laid, LaidArms, Lies;
    match t
    case Nop => CodeLaidLeaf(code, t, at);
    case Number(_) => CodeLaidLeaf(code, t, at);
    case Plain(_) => CodeLaidLeaf(code, t, at);
    case Leave => CodeLaidLeaf(code, t, at);
    case Then(a, b) => CodeLaidThen(code, a, b, at);
    case If(a) => CodeLaidIf(code, a, at);
    case IfElse(a, b) => CodeLaidIfElse(code, a, b, at);
    case Until(_) => CodeLaidLoop(code, t, at);
    case Again(_) => CodeLaidLoop(code, t, at);
    case While(a, b) => CodeLaidWhile(code, a, b, at);
    case Do(question, plus, a) => CodeLaidDo(code, question, plus, a, at);
    case Case(arms) => CodeLaidCase(code, arms, at);
  }

  lemma CodeLaidLeaf(code: seq<int>, t: Tree, at: nat)
    requires t.Nop? || t.Number? || t.Plain? || t.Leave?
    requires Lies(code, CodeOf(t, at), at)
    ensures Laid(code, t, at)
  {
    var c := CodeOf(t, at);
    if |c| >= 1 { assert code[at] == code[at..at + |c|][0]; }
    if |c| >= 2 { assert code[at + 1] == code[at..at + |c|][1]; }
  }

  lemma CodeLaidThen(code: seq<int>, a: Tree, b: Tree, at: nat)
    requires Lies(code, CodeOf(Then(a, b), at), at)
    ensures Laid(code, Then(a, b), at)
    decreases Then(a, b), 0
  {
    hide Size, Lies, CodeOf, Laid;
    CodeThen(a, b, at);
    LieBoth(code, CodeOf(a, at), CodeOf(b, at + Size(a)), at);
    CodeLaid(code, a, at);
    CodeLaid(code, b, at + Size(a));
    LaidThen(code, a, b, at);
  }

  lemma CodeLaidIf(code: seq<int>, a: Tree, at: nat)
    requires Lies(code, CodeOf(If(a), at), at)
    ensures Laid(code, If(a), at)
    decreases If(a), 0
  {
    hide Size, Lies, Pair;
    LieBoth(code, [BRANCH0_CHECK, Size(a) + 1], CodeOf(a, at + 2), at);
    LiePair(code, BRANCH0_CHECK, Size(a) + 1, at);
    CodeLaid(code, a, at + 2);
  }

  lemma CodeLaidIfElse(code: seq<int>, a: Tree, b: Tree, at: nat)
    requires Lies(code, CodeOf(IfElse(a, b), at), at)
    ensures Laid(code, IfElse(a, b), at)
    decreases IfElse(a, b), 0
  {
    hide Size, Lies, Pair, Laid, CodeOf;
    CodeIfElse(a, b, at);
    var branch, past := [BRANCH0_CHECK, Size(a) + 3], [BRANCH_CHECK, Size(b) + 1];
    LieFour(code, branch, CodeOf(a, at + 2), past, CodeOf(b, at + Size(a) + 4), at);
    LiePair(code, BRANCH0_CHECK, Size(a) + 3, at);
    LiePair(code, BRANCH_CHECK, Size(b) + 1, at + 2 + Size(a));
    CodeLaid(code, a, at + 2);
    CodeLaid(code, b, at + Size(a) + 4);
    LaidIfElse(code, a, b, at);
  }

  lemma CodeLaidLoop(code: seq<int>, t: Tree, at: nat)
    requires t.Until? || t.Again?
    requires Lies(code, CodeOf(t, at), at)
    ensures Laid(code, t, at)
    decreases t, 0
  {
    hide Size, Lies, Pair, Laid, CodeOf;
    CodeLoop(t, at);
    var op := if t.Until? then BRANCH0_CHECK else BRANCH_CHECK;
    LieBoth(code, CodeOf(t.body, at), [op, -(Size(t.body) + 1)], at);
    LiePair(code, op, -(Size(t.body) + 1), at + Size(t.body));
    CodeLaid(code, t.body, at);
    LaidLoop(code, t, at);
  }

  lemma CodeLaidWhile(code: seq<int>, a: Tree, b: Tree, at: nat)
    requires Lies(code, CodeOf(While(a, b), at), at)
    ensures Laid(code, While(a, b), at)
    decreases While(a, b), 0
  {
    hide Size, Lies, Pair, Laid, CodeOf;
    CodeWhile(a, b, at);
    var out, back := Size(b) + 3, -(Size(a) + Size(b) + 3);
    LieFour(code, CodeOf(a, at), [BRANCH0_CHECK, out], CodeOf(b, at + Size(a) + 2), [BRANCH_CHECK, back], at);
    LiePair(code, BRANCH0_CHECK, out, at + Size(a));
    LiePair(code, BRANCH_CHECK, back, at + Size(a) + 2 + Size(b));
    CodeLaid(code, a, at);
    CodeLaid(code, b, at + Size(a) + 2);
    LaidWhile(code, a, b, at);
  }

  lemma CodeLaidDo(code: seq<int>, question: bool, plus: bool, a: Tree, at: nat)
    requires Lies(code, CodeOf(Do(question, plus, a), at), at)
    ensures Laid(code, Do(question, plus, a), at)
    decreases Do(question, plus, a), 0
  {
    hide Size, Lies, Pair, Laid, CodeOf;
    CodeDo(question, plus, a, at);
    var open, close := if question then QDO else DO, if plus then PLUS_LOOP else LOOP;
    LieThree(code, [open, at + Size(a) + 4], CodeOf(a, at + 2), [close, -(Size(a) + 1)], at);
    LiePair(code, open, at + Size(a) + 4, at);
    LiePair(code, close, -(Size(a) + 1), at + 2 + Size(a));
    CodeLaid(code, a, at + 2);
    LaidDo(code, question, plus, a, at);
  }

  lemma CodeLaidCase(code: seq<int>, arms: Arms, at: nat)
    requires Lies(code, CodeOf(Case(arms), at), at)
    ensures Laid(code, Case(arms), at)
    decreases arms, 2
  {
    hide Lies;
    CodeLaidArms(code, arms, at);
  }

  lemma {:induction false} CodeLaidArms(code: seq<int>, arms: Arms, at: nat)
    requires Lies(code, ArmsCode(arms, at), at)
    ensures LaidArms(code, arms, at)
    decreases arms, 1
  {
    hide Size, Lies, Pair, Laid, CodeOf;
    match arms
    case Default(c) =>
      LieBoth(code, CodeOf(c, at), [DROP], at);
      LieSingle(code, DROP, at + Size(c));
      CodeLaid(code, c, at);
    case Arm(_, _, _, _) => CodeLaidArm(code, arms, at);
  }

  lemma CodeLaidArm(code: seq<int>, arms: Arms, at: nat)
    requires arms.Arm?
    requires Lies(code, ArmsCode(arms, at), at)
    ensures LaidArms(code, arms, at)
    decreases arms, 0
  {
    hide Size, Lies, Pair, Laid, CodeOf, ArmsCode;
    var Arm(s, b, fall, rest) := arms;
    CodeArm(s, b, fall, rest, at);
    var of := at + Size(s);
    var branch := of + 2 + Size(b);
    var last := [BRANCH_CHECK, Exit(arms)] + ArmsCode(rest, branch + 2);
    LieFour(code, CodeOf(s, at), [OF, Size(b) + 3], CodeOf(b, of + 2), last, at);
    LieBoth(code, [BRANCH_CHECK, Exit(arms)], ArmsCode(rest, branch + 2), branch);
    LiePair(code, OF, Size(b) + 3, of);
    LiePair(code, BRANCH_CHECK, Exit(arms), branch);
    CodeLaid(code, s, at);
    CodeLaid(code, b, of + 2);
    CodeLaidArms(code, rest, branch + 2);
  }
}
