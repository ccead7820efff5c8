/**
 From source to result: a definition that was compiled by the control words and is run by the loop that
 rewrites its branches leaves exactly the data stack that the direct semantics of its tree says.
 */
module Definitions {
  import opened Wrappers
  import opened Cells
  import opened Vm
  import opened Structured
  import opened Layout
  import opened CompilerProof
  import opened Threading
  import opened Discipline
  import opened ControlWords
  import opened Compilation
  import opened InnerLoop

  /** A LEAVE never gets past the DO loop around it. */
  lemma {:induction false} NeverLeft(t: Tree, data: CellStack, env: Env, fuel: nat)
    requires WellNested(t, false)
    ensures !Exec(t, data, env, fuel).Left?
    decreases fuel, t, 0
  {
    match t
    case Then(a, b) =>
      NeverLeft(a, data, env, fuel);
      var r := Exec(a, data, env, fuel);
      if r.Done? { NeverLeft(b, r.data, env, fuel); }
    case If(a) => if data.Push? { NeverLeft(a, data.under, env, fuel); }
    case IfElse(a, b) => if data.Push? { NeverLeft(a, data.under, env, fuel); NeverLeft(b, data.under, env, fuel); }
    case Until(a) =>
      NeverLeft(a, data, env, fuel);
      var r := Exec(a, data, env, fuel);
      if r.Done? && r.data.Push? && fuel > 0 { NeverLeft(t, r.data.under, env, fuel - 1); }
    case Again(a) =>
      NeverLeft(a, data, env, fuel);
      var r := Exec(a, data, env, fuel);
      if r.Done? && fuel > 0 { NeverLeft(t, r.data, env, fuel - 1); }
    case While(a, b) =>
      NeverLeft(a, data, env, fuel);
      var r := Exec(a, data, env, fuel);
      if r.Done? && r.data.Push? {
        NeverLeft(b, r.data.under, env, fuel);
        var q := Exec(b, r.data.under, env, fuel);
        if q.Done? && fuel > 0 { NeverLeft(t, q.data, env, fuel - 1); }
      }
    case Do(_, plus, a) =>
      match data {
        case Push(index, Push(limit, d)) => LoopNeverLeft(plus, a, d, limit, index, env, fuel);
        case _ =>
      }
    case Case(arms) => ArmsNeverLeft(arms, data, env, fuel);
    case _ =>
  }

  lemma {:induction false} LoopNeverLeft(plus: bool, body: Tree, data: CellStack, limit: int, index: int,
                                        env: Env, fuel: nat)
    ensures !ExecLoop(plus, body, data, limit, index, env, fuel).Left?
    decreases fuel
  {
    hide Exec;
    var r := Exec(body, data, Enter(env, index), fuel);
    if r.Done? && (plus ==> r.data.Push?) && fuel > 0 {
      var increment := if plus then r.data.top else 1;
      LoopNeverLeft(plus, body, if plus then r.data.under else r.data, limit, Wrap(index + increment), env, fuel - 1);
    }
  }

  lemma {:induction false} ArmsNeverLeft(arms: Arms, data: CellStack, env: Env, fuel: nat)
    requires WellNestedArms(arms, false)
    ensures !ExecArms(arms, data, env, fuel).Left?
    decreases fuel, arms, 1
  {
    match arms
    case Default(c) => NeverLeft(c, data, env, fuel);
    case Arm(s, _, _, rest) =>
      NeverLeft(s, data, env, fuel);
      match Exec(s, data, env, fuel) {
        case Done(Push(x, Push(y, d))) =>
          if x == y { BodyNeverLeft(arms, d, env, fuel); } else { ArmsNeverLeft(rest, Push(y, d), env, fuel); }
        case _ =>
      }
  }

  lemma {:induction false} BodyNeverLeft(arms: Arms, data: CellStack, env: Env, fuel: nat)
    requires arms.Arm? && WellNestedArms(arms, false)
    ensures !ExecBody(arms, data, env, fuel).Left?
    decreases fuel, arms, 0
  {
    NeverLeft(arms.body, data, env, fuel);
    var r := Exec(arms.body, data, env, fuel);
    if r.Done? && arms.falls && arms.rest.Arm? { BodyNeverLeft(arms.rest, r.data, env, fuel); }
  }

  /** A definition in dictionary memory: the code of its tree and `(;)`. */
  predicate Defined(code: seq<int>, t: Tree, at: int) {
    WellNested(t, false) && Laid(code, t, at) && Single(code, at + Size(t), SEMI)
  }

  /** The inner loop has just been entered, the caller's address on the return stack. */
  function Entered(at: int, data: CellStack, back: int, outer: CellStack): State {
    State(at, data, Push(back, outer))
  }

  function Meaning(t: Tree, data: CellStack, back: int, outer: CellStack, fuel: nat): Result {
    Exec(t, data, Env([], Push(back, outer)), fuel)
  }

  /** How the machine ends when the tree ends with `r`. */
  function Outcome(r: Result, back: int, outer: CellStack): Vm.Outcome
    requires r.Done? || r.Broken?
  {
    if r.Done? then Returned(State(back, r.data, outer)) else Fault
  }

  lemma MeaningRuns(code: seq<int>, t: Tree, at: int, data: CellStack, back: int, outer: CellStack, fuel: nat)
    returns (n: nat)
    requires Defined(code, t, at)
    ensures var r := Meaning(t, data, back, outer, fuel);
            var o := Run(code, Entered(at, data, back, outer), n);
            if r.Timeout? then n >= fuel && o.Running? else !r.Left? && o == Outcome(r, back, outer)
  {
    hide Exec, Laid, WellNested, Size;
    var env := Env([], Push(back, outer));
    var s := Entered(at, data, back, outer);
    NeverLeft(t, data, env, fuel);
    n := Simulates(code, t, at, data, s.ret, env, fuel);
    var r := Exec(t, data, env, fuel);
    if r.Done? {
      OneStep(code, State(at + Size(t), r.data, s.ret));
      RunConcat(code, s, n, 1);
      n := n + 1;
    }
  }

  /** The tree ends with `r` on some amount of fuel. */
  ghost predicate Means(t: Tree, data: CellStack, back: int, outer: CellStack, r: Result) {
    exists fuel: nat :: Meaning(t, data, back, outer, fuel) == r
  }

  /** Compiler correctness: the machine returns with a data stack, or faults, exactly when the tree does;
      the return stack is then the caller's again. */
  lemma CompiledMeans(code: seq<int>, t: Tree, at: int, data: CellStack, back: int, outer: CellStack, r: Result)
    requires Defined(code, t, at) && (r.Done? || r.Broken?)
    ensures Ends(code, Entered(at, data, back, outer), Outcome(r, back, outer)) <==> Means(t, data, back, outer, r)
  {
    var s, o := Entered(at, data, back, outer), Outcome(r, back, outer);
    if Means(t, data, back, outer, r) {
      var fuel: nat :| Meaning(t, data, back, outer, fuel) == r;
      var n := MeaningRuns(code, t, at, data, back, outer, fuel);
      assert Run(code, s, n) == o;
    }
    if Ends(code, s, o) {
      var n: nat :| Run(code, s, n) == o;
      var m := MeaningRuns(code, t, at, data, back, outer, n);
      if Run(code, s, m).Running? { RunMonotone(code, s, n, m); }
      EndsOnce(code, s, o, m);
      assert Meaning(t, data, back, outer, n) == r;
    }
  }

  /** However the machine ends, the tree does; so it runs for ever exactly when the tree does. */
  lemma CompiledEnds(code: seq<int>, t: Tree, at: int, data: CellStack, back: int, outer: CellStack, o: Vm.Outcome)
    requires Defined(code, t, at)
    ensures Ends(code, Entered(at, data, back, outer), o) <==>
            exists r: Result :: (r.Done? || r.Broken?) && o == Outcome(r, back, outer) && Means(t, data, back, outer, r)
  {
    var s := Entered(at, data, back, outer);
    if Ends(code, s, o) {
      var n: nat :| Run(code, s, n) == o;
      var m := MeaningRuns(code, t, at, data, back, outer, n);
      if Run(code, s, m).Running? { RunMonotone(code, s, n, m); }
      EndsOnce(code, s, o, m);
      var r := Meaning(t, data, back, outer, n);
      assert o == Outcome(r, back, outer) && Means(t, data, back, outer, r);
    }
    if r: Result :| (r.Done? || r.Broken?) && o == Outcome(r, back, outer) && Means(t, data, back, outer, r) {
      CompiledMeans(code, t, at, data, back, outer, r);
    }
  }

  /** The compiled ?DO: with equal limit and start it drops both and its body, whatever that is, never runs;
      otherwise it ends exactly as the compiled DO does. */
  lemma QuestionDo(code: seq<int>, code': seq<int>, plus: bool, body: Tree, at: int, data: CellStack,
                   limit: int, start: int, back: int, outer: CellStack, o: Vm.Outcome)
    requires Defined(code, Do(true, plus, body), at) && Defined(code', Do(false, plus, body), at)
    ensures var s := Entered(at, Push(start, Push(limit, data)), back, outer);
            Ends(code, s, o) <==> if start == limit then o == Returned(State(back, data, outer)) else Ends(code', s, o)
  {
    var both := Push(start, Push(limit, data));
    forall fuel: nat
      ensures Meaning(Do(true, plus, body), both, back, outer, fuel)
              == if start == limit then Done(data) else Meaning(Do(false, plus, body), both, back, outer, fuel)
    {
      ExecDo(true, plus, body, both, Env([], Push(back, outer)), fuel);
      ExecDo(false, plus, body, both, Env([], Push(back, outer)), fuel);
    }
    hide Meaning;
    CompiledEnds(code, Do(true, plus, body), at, both, back, outer, o);
    CompiledEnds(code', Do(false, plus, body), at, both, back, outer, o);
    if start == limit {
      assert Meaning(Do(true, plus, body), both, back, outer, 0) == Done(data);
      assert Means(Do(true, plus, body), both, back, outer, Done(data));
    } else {
      forall r ensures Means(Do(true, plus, body), both, back, outer, r) == Means(Do(false, plus, body), both, back, outer, r) {
      }
    }
  }

  /** ... and the same for the loop that rewrites branches as it goes. */
  lemma ThreadedMeans(code: seq<int>, t: Tree, at: int, data: CellStack, back: int, outer: CellStack, r: Result)
    returns (starts: set<int>)
    requires Defined(code, t, at) && (r.Done? || r.Broken?)
    ensures Lands(code, starts) && StaysOn(code, Entered(at, data, back, outer), starts)
    ensures SelfEnds(code, Entered(at, data, back, outer), starts, Outcome(r, back, outer))
            <==> Means(t, data, back, outer, r)
  {
    var s := Entered(at, data, back, outer);
    starts := DefinitionStays(code, t, at, s);
    ThreadingPreserves(code, s, starts, Outcome(r, back, outer));
    CompiledMeans(code, t, at, data, back, outer, r);
  }

  /** After any number of turns, each branch of a definition that has lost its check leads to the first instruction on its
      way that is no jump, unless it is on its way to a jump cycle; those with a check lead where they did. */
  lemma DefinitionThreaded(code: seq<int>, t: Tree, at: int, data: CellStack, back: int, outer: CellStack, n: nat)
    returns (starts: set<int>)
    requires Defined(code, t, at)
    ensures Lands(code, starts) && StaysOn(code, Entered(at, data, back, outer), starts)
    ensures var c := SelfRun(code, Entered(at, data, back, outer), n, starts).0;
            && |c| == |code|
            && (forall a, y {:trigger Rests(code, Target(code, a), y)} ::
                  a in starts && IsBranch(code[a]) && !IsCheck(c[a]) && Rests(code, Target(code, a), y) ==> Target(c, a) == y)
            && (forall a {:trigger a in starts} :: a in starts && IsCheck(c[a]) ==> Target(c, a) == Target(code, a))
  {
    hide SelfRun, Rests, Laid, WellNested;
    var s := Entered(at, data, back, outer);
    starts := DefinitionStays(code, t, at, s);
    ThreadingCompletes(code, s, n, starts);
  }

  /** `code` is the compiled tree, alone in a dictionary, and gets there in so many turns. */
  ghost predicate Reaching(t: Tree, entered: State, code: seq<int>, starts: set<int>, budget: nat, o: Vm.Outcome) {
    && |code| == Size(t) + 1 && Defined(code, t, 0) && Lands(code, starts) && StaysOn(code, entered, starts)
    && SelfRun(code, entered, budget, starts).1 == o
  }

  ghost predicate Reaches(t: Tree, entered: State, budget: nat, o: Vm.Outcome) {
    exists code, starts :: Reaching(t, entered, code, starts, budget, o)
  }

  /** From so many turns on, the compiled tree gets to this outcome, and to no other. */
  ghost predicate Enough(t: Tree, entered: State, turns: nat, o: Vm.Outcome) {
    forall budget: nat, p :: budget >= turns ==> (Reaches(t, entered, budget, p) <==> p == o)
  }

  /** There is a compiled definition for every tree. */
  lemma Definable(t: Tree, s: State) returns (code: seq<int>, starts: set<int>)
    requires WellNested(t, false) && s.ip == 0
    ensures |code| == Size(t) + 1 && Defined(code, t, 0) && Lands(code, starts) && StaysOn(code, s, starts)
  {
    hide Laid, WellNested, CodeOf, Size, Lands, StaysOn;
    code := CodeOf(t, 0) + [SEMI];
    assert code[0..|CodeOf(t, 0)|] == CodeOf(t, 0);
    CodeLaid(code, t, 0);
    starts := DefinitionStays(code, t, 0, s);
  }

  /** Compile a definition into an empty dictionary and run it for at most `budget` turns. */
  method CompileAndRun(t: Tree, data: CellStack, back: int, outer: CellStack, budget: nat) returns (o: Vm.Outcome)
    requires WellNested(t, false)
    ensures o == Fault ==> Means(t, data, back, outer, Broken)
    ensures o.Returned? ==> o.s.ip == back && o.s.ret == outer && Means(t, data, back, outer, Done(o.s.data))
    ensures Reaches(t, Entered(0, data, back, outer), budget, o)
  {
    var c := new Compiler(Size(t) + 1);
    var _ := Compile(c, t);
    ghost var s := c.cells[..];
    c.Append(SEMI);
    ghost var code := c.cells[..];
    KeepsLaid(s, code, Size(t), t, 0);
    var m := new Machine(c.cells, 0, data, Push(back, outer));
    ghost var starts := DefinitionStays(code, t, 0, m.Now());
    ThreadedStart(code, starts);
    o := m.Loop(budget, code, starts);
    assert Reaching(t, Entered(0, data, back, outer), code, starts, budget, o);
    if !o.Running? {
      EndsAsMeant(code, t, data, back, outer, starts, budget);
    }
  }

  lemma OneDefinition(code: seq<int>, code': seq<int>, t: Tree)
    requires Defined(code, t, 0) && Defined(code', t, 0) && |code| == |code'| == Size(t) + 1
    ensures code == code'
  {
    hide Laid, WellNested;
    forall i | 0 <= i < Size(t) ensures code[i] == code'[i] { OneCode(code, code', t, 0, i); }
  }

  lemma ReachesEnd(code: seq<int>, t: Tree, s: State, starts: set<int>, n: nat, budget: nat, o: Vm.Outcome)
    requires Reaching(t, s, code, starts, budget, o) && n <= budget && !Run(code, s, n).Running?
    ensures o == Run(code, s, n)
  {
    ThreadedStart(code, starts);
    var m := SelfRunFollows(code, code, s, budget, starts);
    if m >= n { RunMonotone(code, s, n, m); } else { RunMonotone(code, s, m, n); }
  }

  /** A tree that ends is reported, with its result, on every budget from some number of turns on. */
  lemma BudgetSuffices(t: Tree, data: CellStack, back: int, outer: CellStack, r: Result) returns (turns: nat)
    requires WellNested(t, false) && (r.Done? || r.Broken?) && Means(t, data, back, outer, r)
    ensures Enough(t, Entered(0, data, back, outer), turns, Outcome(r, back, outer))
  {
    var s := Entered(0, data, back, outer);
    var code, starts := Definable(t, s);
    var fuel: nat :| Meaning(t, data, back, outer, fuel) == r;
    turns := MeaningRuns(code, t, 0, data, back, outer, fuel);
    hide Reaching, Means, SelfRun, Meaning, Defined, Lands, StaysOn;
    forall budget: nat, p | budget >= turns
      ensures Reaches(t, s, budget, p) <==> p == Outcome(r, back, outer)
    {
      var o := ReachedBy(code, t, s, starts, budget);
      ReachesEnd(code, t, s, starts, turns, budget, o);
      if code', starts' :| Reaching(t, s, code', starts', budget, p) {
        SameCode(t, s, code, starts, budget, o, code', starts', budget, p);
        ReachesEnd(code', t, s, starts', turns, budget, p);
      }
    }
  }

  lemma ReachedBy(code: seq<int>, t: Tree, s: State, starts: set<int>, budget: nat) returns (o: Vm.Outcome)
    requires |code| == Size(t) + 1 && Defined(code, t, 0) && Lands(code, starts) && StaysOn(code, s, starts)
    ensures Reaching(t, s, code, starts, budget, o)
  {
    o := SelfRun(code, s, budget, starts).1;
  }

  lemma SameCode(t: Tree, s: State, code: seq<int>, starts: set<int>, n: nat, o: Vm.Outcome,
                 code': seq<int>, starts': set<int>, n': nat, o': Vm.Outcome)
    requires Reaching(t, s, code, starts, n, o) && Reaching(t, s, code', starts', n', o')
    ensures code == code'
  {
    OneDefinition(code, code', t);
  }

  lemma EndsAsMeant(code: seq<int>, t: Tree, data: CellStack, back: int, outer: CellStack, starts: set<int>, n: nat)
    requires Defined(code, t, 0)
    requires Lands(code, starts) && StaysOn(code, Entered(0, data, back, outer), starts)
    requires !SelfRun(code, Entered(0, data, back, outer), n, starts).1.Running?
    ensures var o := SelfRun(code, Entered(0, data, back, outer), n, starts).1;
            if o == Fault then Means(t, data, back, outer, Broken)
            else o.s.ip == back && o.s.ret == outer && Means(t, data, back, outer, Done(o.s.data))
  {
    var s := Entered(0, data, back, outer);
    ThreadedStart(code, starts);
    var k := SelfRunFollows(code, code, s, n, starts);
    var m := MeaningRuns(code, t, 0, data, back, outer, k);
    if Run(code, s, m).Running? { RunMonotone(code, s, k, m); }
    EndsOnce(code, s, Run(code, s, k), m);
  }
}
