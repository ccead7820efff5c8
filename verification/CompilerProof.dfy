/**
 Compiled control structures mean what their trees mean: the simulation of `Structured.Exec` by
 `Vm.Run` on the cells of `Layout.Laid`, in both directions.
 */
module CompilerProof {
  import opened Wrappers
  import opened Cells
  import opened Vm
  import opened Structured
  import opened Layout

  /** The return stack holds the caller's cells, then leave address, limit and index of each loop. */
  ghost predicate Frames(ret: CellStack, env: Env)
    decreases |env.loops|
  {
    if env.loops == [] then ret == env.outer
    else match ret
      case Push(i, Push(_, Push(_, r))) => i == env.loops[0] && Frames(r, env.(loops := env.loops[1..]))
      case _ => false
  }

  lemma PeekUnder(ret: CellStack, depth: nat)
    requires ret.Push? && ret.under.Push? && ret.under.under.Push? && depth >= 3
    ensures ret.Peek(depth) == ret.under.under.under.Peek(depth - 3)
  {
    assert ret.Peek(depth) == ret.under.Peek(depth - 1);
    assert ret.under.Peek(depth - 1) == ret.under.under.Peek(depth - 2);
  }

  lemma {:induction false} FramesIndex(ret: CellStack, env: Env, k: nat)
    requires Frames(ret, env)
    ensures ret.Peek(3 * k) == LoopIndex(env, k)
    decreases k
  {
    if env.loops != [] && k > 0 {
      FramesIndex(ret.under.under.under, env.(loops := env.loops[1..]), k - 1);
      PeekUnder(ret, 3 * k);
    }
  }

  lemma FramesEnter(ret: CellStack, env: Env, leave: int, limit: int, index: int)
    requires Frames(ret, env)
    ensures Frames(Push(index, Push(limit, Push(leave, ret))), Enter(env, index))
  {
    assert ([index] + env.loops)[1..] == env.loops;
  }

  /** After `n` turns from `s` the machine is where result `r` says: at `exit` with the same return
      stack; at the leave address with the loop's three cells gone; faulted; or still running after at
      least `fuel` turns. */
  ghost predicate Follows(code: seq<int>, s: State, n: nat, r: Result, exit: int, fuel: nat) {
    match r
    case Done(d) => Run(code, s, n) == Running(State(exit, d, s.ret))
    case Left(d) =>
      (match s.ret
       case Push(_, Push(_, Push(leave, ret))) => Run(code, s, n) == Running(State(leave, d, ret))
       case _ => false)
    case Broken => Run(code, s, n) == Fault
    case Timeout => n >= fuel && Run(code, s, n).Running?
  }

  lemma FollowsAfter(code: seq<int>, s: State, m: nat, s': State, n: nat, r: Result, exit: int, fuel: nat)
    requires Run(code, s, m) == Running(s') && s'.ret == s.ret
    requires Follows(code, s', n, r, exit, fuel)
    ensures Follows(code, s, m + n, r, exit, fuel)
    ensures r.Timeout? && m > 0 ==> Follows(code, s, m + n, r, exit, fuel + 1)
  {
    RunConcat(code, s, m, n);
  }

  lemma OneStep(code: seq<int>, s: State)
    ensures Run(code, s, 1) == Step(code, s)
  {
    match Step(code, s) {
      case Running(s') => assert Run(code, s', 0) == Running(s');
      case _ =>
    }
  }

  lemma StepDrop(code: seq<int>, at: int, data: CellStack, ret: CellStack)
    requires Single(code, at, DROP)
    ensures Run(code, State(at, data, ret), 1) ==
            match data
            case Bottom => Fault
            case Push(_, d) => Running(State(at + 1, d, ret))
  {
    OneStep(code, State(at, data, ret));
  }

  lemma StepBranch0(code: seq<int>, at: int, offset: int, data: CellStack, ret: CellStack)
    requires Pair(code, at, BRANCH0_CHECK, offset)
    ensures Run(code, State(at, data, ret), 1) ==
            match data
            case Bottom => Fault
            case Push(x, d) => Running(State(if x != 0 then at + 2 else at + 1 + offset, d, ret))
  {
    OneStep(code, State(at, data, ret));
  }

  lemma StepBranch(code: seq<int>, at: int, offset: int, data: CellStack, ret: CellStack)
    requires Pair(code, at, BRANCH_CHECK, offset)
    ensures Run(code, State(at, data, ret), 1) == Running(State(at + 1 + offset, data, ret))
  {
    OneStep(code, State(at, data, ret));
  }

  lemma StepOf(code: seq<int>, at: int, offset: int, data: CellStack, ret: CellStack)
    requires Pair(code, at, OF, offset)
    ensures Run(code, State(at, data, ret), 1) ==
            match data
            case Push(x, Push(y, d)) =>
              Running(if x == y then State(at + 2, d, ret) else State(at + 1 + offset, Push(y, d), ret))
            case _ => Fault
  {
    OneStep(code, State(at, data, ret));
  }

  lemma StepDo(code: seq<int>, at: int, question: bool, leave: int, data: CellStack, ret: CellStack)
    requires Pair(code, at, if question then QDO else DO, leave)
    ensures Run(code, State(at, data, ret), 1) ==
            match data
            case Push(index, Push(limit, d)) =>
              Running(if question && index == limit then State(leave, d, ret)
                      else State(at + 2, d, Push(index, Push(limit, Push(leave, ret)))))
            case _ => Fault
  {
    OneStep(code, State(at, data, ret));
  }

  lemma StepLoop(code: seq<int>, at: int, plus: bool, offset: int, data: CellStack, ret: CellStack,
                 leave: int, limit: int, index: int)
    requires Pair(code, at, if plus then PLUS_LOOP else LOOP, offset)
    ensures Run(code, State(at, data, Push(index, Push(limit, Push(leave, ret)))), 1) ==
            if plus && data.Bottom? then Fault else
            var increment := if plus then data.top else 1;
            var d := if plus then data.under else data;
            var index' := Wrap(index + increment);
            Running(if LoopEnds(index', limit, increment < 0) then State(at + 2, d, ret)
                    else State(at + 1 + offset, d, Push(index', Push(limit, Push(leave, ret)))))
  {
    OneStep(code, State(at, data, Push(index, Push(limit, Push(leave, ret)))));
  }

  /** Trees of one instruction, or of none. */
  lemma SimulatesLeaf(code: seq<int>, t: Tree, at: int, data: CellStack, ret: CellStack, env: Env, fuel: nat)
    returns (n: nat)
    requires t.Nop? || t.Number? || t.Plain? || t.Leave?
    requires WellNested(t, env.loops != []) && Laid(code, t, at) && Frames(ret, env)
    ensures Follows(code, State(at, data, ret), n, Exec(t, data, env, fuel), at + Size(t), fuel)
  {
    n := if t.Nop? then 0 else 1;
    FramesIndex(ret, env, 0);
    FramesIndex(ret, env, 1);
    FramesIndex(ret, env, 2);
    OneStep(code, State(at, data, ret));
  }

  /** What the parts of a tree need for their simulation, and two trees whose meaning is that of a part. */
  lemma Parts(code: seq<int>, t: Tree, at: int, data: CellStack, env: Env, fuel: nat)
    requires WellNested(t, env.loops != []) && Laid(code, t, at)
    ensures match t
            case Then(a, b) =>
              && WellNested(a, env.loops != []) && WellNested(b, env.loops != [])
              && Laid(code, a, at) && Laid(code, b, at + Size(a)) && Size(t) == Size(a) + Size(b)
            case If(a) =>
              && WellNested(a, env.loops != []) && Pair(code, at, BRANCH0_CHECK, Size(a) + 1) && Laid(code, a, at + 2)
              && Size(t) == 2 + Size(a)
              && Exec(t, data, env, fuel)
                 == (match data case Bottom => Broken case Push(x, d) => if x != 0 then Exec(a, d, env, fuel) else Done(d))
            case IfElse(a, b) => WellNested(a, env.loops != []) && WellNested(b, env.loops != [])
            case Until(a) => WellNested(a, env.loops != [])
            case Again(a) => WellNested(a, env.loops != [])
            case While(a, b) => WellNested(a, env.loops != []) && WellNested(b, env.loops != [])
            case Do(_, _, a) => WellNested(a, true)
            case Case(arms) =>
              && WellNestedArms(arms, env.loops != []) && LaidArms(code, arms, at) && Size(t) == ArmsSize(arms)
              && Exec(t, data, env, fuel) == ExecArms(arms, data, env, fuel)
            case _ => true
  {
    hide Pair, ExecArms;
  }

  lemma {:induction false} Simulates(code: seq<int>, t: Tree, at: int, data: CellStack, ret: CellStack, env: Env, fuel: nat)
    returns (n: nat)
    requires WellNested(t, env.loops != [])
    requires Laid(code, t, at) && Frames(ret, env)
    ensures Follows(code, State(at, data, ret), n, Exec(t, data, env, fuel), at + Size(t), fuel)
    decreases fuel, t, 2
  {
    hide Step, Run, Frames, Follows, Exec, ExecArms, Laid, LaidArms, WellNested, WellNestedArms, Size, ArmsSize;
    Parts(code, t, at, data, env, fuel);
    match t
    case Nop => n := SimulatesLeaf(code, t, at, data, ret, env, fuel);
    case Number(_) => n := SimulatesLeaf(code, t, at, data, ret, env, fuel);
    case Plain(_) => n := SimulatesLeaf(code, t, at, data, ret, env, fuel);
    case Leave => n := SimulatesLeaf(code, t, at, data, ret, env, fuel);
    case Then(a, b) => n := SimulatesThen(code, a, b, at, data, ret, env, fuel);
    case If(a) => n := SimulatesIf(code, a, at, data, ret, env, fuel);
    case IfElse(a, b) => n := SimulatesIfElse(code, a, b, at, data, ret, env, fuel);
    case Until(_) => n := SimulatesUntil(code, t, at, data, ret, env, fuel);
    case Again(_) => n := SimulatesAgain(code, t, at, data, ret, env, fuel);
    case While(a, b) => n := SimulatesWhile(code, a, b, at, data, ret, env, fuel);
    case Do(_, _, _) => n := SimulatesDo(code, t, at, data, ret, env, fuel);
    case Case(arms) => n := SimulatesArms(code, arms, at, data, ret, env, fuel);
  }

  lemma SimulatesThen(code: seq<int>, a: Tree, b: Tree, at: int, data: CellStack, ret: CellStack, env: Env, fuel: nat)
    returns (n: nat)
    requires WellNested(a, env.loops != []) && WellNested(b, env.loops != [])
    requires Laid(code, a, at) && Laid(code, b, at + Size(a)) && Frames(ret, env)
    ensures Follows(code, State(at, data, ret), n, Exec(Then(a, b), data, env, fuel), at + Size(a) + Size(b), fuel)
    decreases fuel, Then(a, b), 1
  {
    hide Step, Run, Exec, Laid, WellNested, Frames, Size;
    ExecThen(a, b, data, env, fuel);
    var mid := at + Size(a);
    n := Simulates(code, a, at, data, ret, env, fuel);
    var r := Exec(a, data, env, fuel);
    if r.Done? {
      var m := Simulates(code, b, mid, r.data, ret, env, fuel);
      FollowsAfter(code, State(at, data, ret), n, State(mid, r.data, ret), m,
                   Exec(b, r.data, env, fuel), mid + Size(b), fuel);
      n := n + m;
    }
  }

  lemma SimulatesIf(code: seq<int>, a: Tree, at: int, data: CellStack, ret: CellStack, env: Env, fuel: nat)
    returns (n: nat)
    requires WellNested(a, env.loops != [])
    requires Pair(code, at, BRANCH0_CHECK, Size(a) + 1) && Laid(code, a, at + 2) && Frames(ret, env)
    ensures var r := match data case Bottom => Broken case Push(x, d) => if x != 0 then Exec(a, d, env, fuel) else Done(d);
            Follows(code, State(at, data, ret), n, r, at + 2 + Size(a), fuel)
    decreases fuel, If(a), 1
  {
    hide Step, Run, Exec, Laid, WellNested, Frames, Size;
    StepBranch0(code, at, Size(a) + 1, data, ret);
    n := 1;
    if data.Push? && data.top != 0 {
      var d := data.under;
      var m := Simulates(code, a, at + 2, d, ret, env, fuel);
      FollowsAfter(code, State(at, data, ret), 1, State(at + 2, d, ret), m,
                   Exec(a, d, env, fuel), at + 2 + Size(a), fuel);
      n := 1 + m;
    }
  }

  lemma SimulatesIfElse(code: seq<int>, a: Tree, b: Tree, at: int, data: CellStack, ret: CellStack, env: Env, fuel: nat)
    returns (n: nat)
    requires WellNested(a, env.loops != []) && WellNested(b, env.loops != [])
    requires Laid(code, IfElse(a, b), at) && Frames(ret, env)
    ensures Follows(code, State(at, data, ret), n, Exec(IfElse(a, b), data, env, fuel), at + Size(IfElse(a, b)), fuel)
    decreases fuel, IfElse(a, b), 1
  {
    hide Step, Run, Exec, Laid, WellNested, Frames, Size;
    ExecIfElse(a, b, data, env, fuel);
    LaidIfElse(code, a, b, at);
    Sizes(a, b);
    var s := State(at, data, ret);
    var exit := at + Size(IfElse(a, b));
    var mid := at + 2 + Size(a);
    StepBranch0(code, at, Size(a) + 3, data, ret);
    n := 1;
    if data.Push? {
      var d := data.under;
      if data.top != 0 {
        var m := Simulates(code, a, at + 2, d, ret, env, fuel);
        var r := Exec(a, d, env, fuel);
        FollowsAfter(code, s, 1, State(at + 2, d, ret), m, r, mid, fuel);
        n := 1 + m;
        if r.Done? {
          StepBranch(code, mid, Size(b) + 1, r.data, ret);
          FollowsAfter(code, s, n, State(mid, r.data, ret), 1, r, exit, fuel);
          n := n + 1;
        }
      } else {
        var m := Simulates(code, b, mid + 2, d, ret, env, fuel);
        FollowsAfter(code, s, 1, State(mid + 2, d, ret), m, Exec(b, d, env, fuel), exit, fuel);
        n := 1 + m;
      }
    }
  }

  lemma SimulatesUntil(code: seq<int>, t: Tree, at: int, data: CellStack, ret: CellStack, env: Env, fuel: nat)
    returns (n: nat)
    requires t.Until? && WellNested(t.body, env.loops != [])
    requires Laid(code, t, at) && Frames(ret, env)
    ensures Follows(code, State(at, data, ret), n, Exec(t, data, env, fuel), at + Size(t), fuel)
    decreases fuel, t, 1
  {
    hide Step, Run, Exec, Laid, WellNested, Frames, Size;
    var a := t.body;
    ExecUntil(a, data, env, fuel);
    LaidLoop(code, t, at);
    Sizes(a, a);
    var s := State(at, data, ret);
    var test := at + Size(a);
    n := Simulates(code, a, at, data, ret, env, fuel);
    var r := Exec(a, data, env, fuel);
    if r.Done? {
      StepBranch0(code, test, -(Size(a) + 1), r.data, ret);
      RunConcat(code, s, n, 1);
      n := n + 1;
      if r.data.Push? && r.data.top == 0 && fuel > 0 {
        var d := r.data.under;
        var m := SimulatesUntil(code, t, at, d, ret, env, fuel - 1);
        FollowsAfter(code, s, n, State(at, d, ret), m, Exec(t, d, env, fuel - 1), at + Size(t), fuel - 1);
        n := n + m;
      }
    }
  }

  lemma SimulatesAgain(code: seq<int>, t: Tree, at: int, data: CellStack, ret: CellStack, env: Env, fuel: nat)
    returns (n: nat)
    requires t.Again? && WellNested(t.body, env.loops != [])
    requires Laid(code, t, at) && Frames(ret, env)
    ensures Follows(code, State(at, data, ret), n, Exec(t, data, env, fuel), at + Size(t), fuel)
    decreases fuel, t, 1
  {
    hide Step, Run, Exec, Laid, WellNested, Frames, Size;
    var a := t.body;
    ExecAgain(a, data, env, fuel);
    LaidLoop(code, t, at);
    Sizes(a, a);
    var s := State(at, data, ret);
    n := Simulates(code, a, at, data, ret, env, fuel);
    var r := Exec(a, data, env, fuel);
    if r.Done? {
      StepBranch(code, at + Size(a), -(Size(a) + 1), r.data, ret);
      RunConcat(code, s, n, 1);
      n := n + 1;
      if fuel > 0 {
        var m := SimulatesAgain(code, t, at, r.data, ret, env, fuel - 1);
        FollowsAfter(code, s, n, State(at, r.data, ret), m, Exec(t, r.data, env, fuel - 1), at + Size(t), fuel - 1);
        n := n + m;
      }
    }
  }

  lemma SimulatesWhile(code: seq<int>, a: Tree, b: Tree, at: int, data: CellStack, ret: CellStack, env: Env, fuel: nat)
    returns (n: nat)
    requires WellNested(a, env.loops != []) && WellNested(b, env.loops != [])
    requires Laid(code, While(a, b), at) && Frames(ret, env)
    ensures Follows(code, State(at, data, ret), n, Exec(While(a, b), data, env, fuel), at + Size(While(a, b)), fuel)
    decreases fuel, While(a, b), 1
  {
    hide Step, Run, Exec, Laid, WellNested, Frames, Size;
    ExecWhile(a, b, data, env, fuel);
    LaidWhile(code, a, b, at);
    Sizes(a, b);
    var t := While(a, b);
    var s := State(at, data, ret);
    var test := at + Size(a);
    var exit := at + Size(t);
    n := Simulates(code, a, at, data, ret, env, fuel);
    var r := Exec(a, data, env, fuel);
    if r.Done? {
      StepBranch0(code, test, Size(b) + 3, r.data, ret);
      RunConcat(code, s, n, 1);
      n := n + 1;
      if r.data.Push? && r.data.top != 0 {
        var d := r.data.under;
        var m := SimulatesRound(code, b, test + 2, at, d, ret, env, fuel);
        var r2 := Exec(b, d, env, fuel);
        if r2.Done? {
          RunConcat(code, s, n, m);
          n := n + m;
          if fuel > 0 {
            var m2 := SimulatesWhile(code, a, b, at, r2.data, ret, env, fuel - 1);
            FollowsAfter(code, s, n, State(at, r2.data, ret), m2, Exec(t, r2.data, env, fuel - 1), exit, fuel - 1);
            n := n + m2;
          }
        } else {
          FollowsAfter(code, s, n, State(test + 2, d, ret), m, r2, exit, fuel);
          n := n + m;
        }
      }
    }
  }

  /** The body of a WHILE loop and its branch back to `head`. */
  lemma SimulatesRound(code: seq<int>, b: Tree, at: int, head: int, data: CellStack, ret: CellStack, env: Env, fuel: nat)
    returns (n: nat)
    requires WellNested(b, env.loops != []) && Laid(code, b, at) && Frames(ret, env)
    requires Pair(code, at + Size(b), BRANCH_CHECK, head - (at + Size(b) + 1))
    ensures Follows(code, State(at, data, ret), n, Exec(b, data, env, fuel), head, fuel)
    ensures Exec(b, data, env, fuel).Done? ==> n > 0
    decreases fuel, b, 3
  {
    hide Step, Run, Exec, Laid, WellNested, Frames, Size;
    n := Simulates(code, b, at, data, ret, env, fuel);
    var r := Exec(b, data, env, fuel);
    if r.Done? {
      StepBranch(code, at + Size(b), head - (at + Size(b) + 1), r.data, ret);
      RunConcat(code, State(at, data, ret), n, 1);
      n := n + 1;
    }
  }

  lemma SimulatesDo(code: seq<int>, t: Tree, at: int, data: CellStack, ret: CellStack, env: Env, fuel: nat)
    returns (n: nat)
    requires t.Do? && WellNested(t.body, true)
    requires Laid(code, t, at) && Frames(ret, env)
    ensures Follows(code, State(at, data, ret), n, Exec(t, data, env, fuel), at + Size(t), fuel)
    decreases fuel, t, 1
  {
    hide Step, Run, Exec, ExecLoop, Laid, WellNested, Frames, Size;
    ExecDo(t.question, t.plus, t.body, data, env, fuel);
    LaidDo(code, t.question, t.plus, t.body, at);
    Sizes(t.body, t.body);
    var s := State(at, data, ret);
    StepDo(code, at, t.question, at + Size(t), data, ret);
    n := 1;
    match data {
      case Push(index, Push(limit, d)) =>
        if !(t.question && index == limit) {
          var m := SimulatesLoop(code, t, at, d, limit, index, ret, env, fuel);
          RunConcat(code, s, 1, m);
          n := 1 + m;
        }
      case _ =>
    }
  }

  /** The loop body is about to run, its three cells on top of the return stack. */
  lemma SimulatesLoop(code: seq<int>, t: Tree, at: int, data: CellStack, limit: int, index: int, ret: CellStack,
                      env: Env, fuel: nat)
    returns (n: nat)
    requires t.Do? && WellNested(t.body, true)
    requires Laid(code, t, at) && Frames(ret, env)
    ensures var s := State(at + 2, data, Push(index, Push(limit, Push(at + Size(t), ret))));
            match ExecLoop(t.plus, t.body, data, limit, index, env, fuel)
            case Done(d) => Run(code, s, n) == Running(State(at + Size(t), d, ret))
            case Left(_) => false
            case Broken => Run(code, s, n) == Fault
            case Timeout => n >= fuel && Run(code, s, n).Running?
    decreases fuel, t, 0
  {
    hide Step, Run, Exec, Laid, WellNested, Frames, Size;
    var a := t.body;
    LaidDo(code, t.question, t.plus, a, at);
    Sizes(a, a);
    var ret1 := Push(index, Push(limit, Push(at + Size(t), ret)));
    var s := State(at + 2, data, ret1);
    var test := at + 2 + Size(a);
    FramesEnter(ret, env, at + Size(t), limit, index);
    n := Simulates(code, a, at + 2, data, ret1, Enter(env, index), fuel);
    var r := Exec(a, data, Enter(env, index), fuel);
    if r.Done? {
      StepLoop(code, test, t.plus, -(Size(a) + 1), r.data, ret, at + Size(t), limit, index);
      RunConcat(code, s, n, 1);
      n := n + 1;
      if t.plus ==> r.data.Push? {
        var increment := if t.plus then r.data.top else 1;
        var d := if t.plus then r.data.under else r.data;
        var index' := Wrap(index + increment);
        if !LoopEnds(index', limit, increment < 0) && fuel > 0 {
          var m := SimulatesLoop(code, t, at, d, limit, index', ret, env, fuel - 1);
          RunConcat(code, s, n, m);
          n := n + m;
        }
      }
    }
  }

  lemma SimulatesArms(code: seq<int>, arms: Arms, at: int, data: CellStack, ret: CellStack, env: Env, fuel: nat)
    returns (n: nat)
    requires WellNestedArms(arms, env.loops != [])
    requires LaidArms(code, arms, at) && Frames(ret, env)
    ensures Follows(code, State(at, data, ret), n, ExecArms(arms, data, env, fuel), at + ArmsSize(arms), fuel)
    decreases fuel, arms, 1
  {
    hide Step, Run, Exec, Laid, WellNested, Frames, Size;
    var s := State(at, data, ret);
    var exit := at + ArmsSize(arms);
    match arms
    case Default(c) =>
      n := Simulates(code, c, at, data, ret, env, fuel);
      var r := Exec(c, data, env, fuel);
      if r.Done? {
        StepDrop(code, at + Size(c), r.data, ret);
        RunConcat(code, s, n, 1);
        n := n + 1;
      }
    case Arm(sel, b, falls, rest) =>
      var of := at + Size(sel);
      var next := of + 2 + Size(b) + 2;
      n := Simulates(code, sel, at, data, ret, env, fuel);
      var r := Exec(sel, data, env, fuel);
      if r.Done? {
        StepOf(code, of, Size(b) + 3, r.data, ret);
        RunConcat(code, s, n, 1);
        n := n + 1;
        match r.data {
          case Push(x, Push(y, d)) =>
            if x == y {
              var m := SimulatesBody(code, arms, at, d, ret, env, fuel);
              FollowsAfter(code, s, n, State(of + 2, d, ret), m, ExecBody(arms, d, env, fuel), exit, fuel);
              n := n + m;
            } else {
              var e := Push(y, d);
              var m := SimulatesArms(code, rest, next, e, ret, env, fuel);
              FollowsAfter(code, s, n, State(next, e, ret), m, ExecArms(rest, e, env, fuel), exit, fuel);
              n := n + m;
            }
          case _ =>
        }
      }
  }

  lemma SimulatesBody(code: seq<int>, arms: Arms, at: int, data: CellStack, ret: CellStack, env: Env, fuel: nat)
    returns (n: nat)
    requires arms.Arm? && WellNestedArms(arms, env.loops != [])
    requires LaidArms(code, arms, at) && Frames(ret, env)
    ensures Follows(code, State(at + Size(arms.select) + 2, data, ret), n,
                    ExecBody(arms, data, env, fuel), at + ArmsSize(arms), fuel)
    decreases fuel, arms, 0
  {
    hide Step, Run, Exec, Laid, WellNested, Frames, Size;
    var Arm(sel, b, falls, rest) := arms;
    var start := at + Size(sel) + 2;
    var branch := start + Size(b);
    var s := State(start, data, ret);
    n := Simulates(code, b, start, data, ret, env, fuel);
    var r := Exec(b, data, env, fuel);
    if r.Done? {
      StepBranch(code, branch, Exit(arms), r.data, ret);
      RunConcat(code, s, n, 1);
      n := n + 1;
      if falls && rest.Arm? {
        var m := SimulatesBody(code, rest, branch + 2, r.data, ret, env, fuel);
        FollowsAfter(code, s, n, State(branch + 2 + Size(rest.select) + 2, r.data, ret), m,
                     ExecBody(rest, r.data, env, fuel), at + ArmsSize(arms), fuel);
        n := n + m;
      }
    }
  }
}
