/**
 Jump threading: the inner loop rewrites a branch the first time it runs, so that a jump to a jump goes
 straight to where the second one leads. The rewriting machine computes what `Vm.Run` computes.
 */
module Threading {
  import opened Wrappers
  import opened Slices
  import opened Vm

  predicate IsCheck(op: int) {
    op == BRANCH_CHECK || op == BRANCH0_CHECK
  }

  /** A branch that is always taken. */
  predicate IsJump(op: int) {
    op == BRANCH_CHECK || op == BRANCH
  }

  predicate IsBranch(op: int) {
    IsCheck(op) || op == BRANCH || op == BRANCH0
  }

  /** The instructions whose next cell is an operand. */
  predicate HasOperand(op: int) {
    IsBranch(op) || op in {LITERAL, LOOP, PLUS_LOOP, OF, DO, QDO}
  }

  /** The instruction without its check. */
  function Final(op: int): int {
    if op == BRANCH_CHECK then BRANCH else if op == BRANCH0_CHECK then BRANCH0 else op
  }

  /** Where the branch at `a` leads. */
  function Target(code: seq<int>, a: int): int
    requires 0 <= a && a + 1 < |code|
  {
    a + 1 + code[a + 1]
  }

  /** Operands are no instructions themselves, and branch operands land on instruction starts. */
  ghost predicate Lands(code: seq<int>, starts: set<int>) {
    forall a {:trigger a in starts} :: a in starts ==> LandsAt(code, starts, a)
  }

  ghost predicate LandsAt(code: seq<int>, starts: set<int>, a: int) {
    && 0 <= a < |code|
    && (HasOperand(code[a]) ==> a + 1 < |code| && a + 1 !in starts)
    && (IsBranch(code[a]) ==> Target(code, a) in starts)
  }

  /** The same instructions, up to checks and operands. */
  ghost predicate SameKinds(code: seq<int>, code': seq<int>, starts: set<int>) {
    |code| == |code'| && forall a {:trigger a in starts} :: a in starts && 0 <= a < |code| ==> Final(code'[a]) == Final(code[a])
  }

  /** The branches that have not run yet. */
  ghost function Unchecked(code: seq<int>, starts: set<int>): set<int>
    requires Lands(code, starts)
  {
    set a | a in starts && IsCheck(code[a])
  }

  /** The branch at `ip` loses its check. */
  ghost function Uncheck(code: seq<int>, ip: int, starts: set<int>): (c: seq<int>)
    requires Lands(code, starts) && ip in starts && IsCheck(code[ip])
    ensures Lands(c, starts) && SameKinds(code, c, starts) && Unchecked(c, starts) == Unchecked(code, starts) - {ip}
  {
    code[ip := Final(code[ip])]
  }

  /** The branch at `ip` leads to `target` from now on. */
  ghost function Redirect(code: seq<int>, ip: int, target: int, starts: set<int>): (c: seq<int>)
    requires Lands(code, starts) && ip in starts && IsBranch(code[ip]) && target in starts
    ensures Lands(c, starts) && SameKinds(code, c, starts) && Unchecked(c, starts) == Unchecked(code, starts)
  {
    code[ip + 1 := target - (ip + 1)]
  }

  /** `ficlVmOptimizeJumpToJump`. */
  ghost function Optimize(code: seq<int>, ip: int, starts: set<int>): (r: seq<int>)
    requires Lands(code, starts) && ip in starts
    ensures Lands(r, starts) && SameKinds(code, r, starts)
    ensures Unchecked(r, starts) <= Unchecked(code, starts) - {ip}
    decreases Unchecked(code, starts)
  {
    if !IsCheck(code[ip]) then code else
    var c := Uncheck(code, ip, starts);
    var destination := Target(c, ip);
    var c' := if c[destination] == BRANCH_CHECK then Optimize(c, destination, starts) else c;
    if c'[destination] == BRANCH then Redirect(c', ip, Target(c', destination), starts) else c'
  }

  /** Following `k` jumps from `x`. */
  ghost function Hops(code: seq<int>, x: int, k: nat): Option<int>
    decreases k
  {
    if k == 0 then Some(x)
    else if 0 <= x && x + 1 < |code| && IsJump(code[x]) then Hops(code, Target(code, x), k - 1)
    else None
  }

  ghost predicate Leads(code: seq<int>, x: int, y: int) {
    exists k: nat :: Hops(code, x, k) == Some(y)
  }

  lemma {:induction false} HopsConcat(code: seq<int>, x: int, y: int, j: nat, k: nat)
    requires Hops(code, x, j) == Some(y)
    ensures Hops(code, x, j + k) == Hops(code, y, k)
    decreases j
  {
    if j > 0 {
      HopsConcat(code, Target(code, x), y, j - 1, k);
    }
  }

  /** A jump at `y` extends the way from `x` by the way from where it leads. */
  lemma LeadsOn(code: seq<int>, x: int, y: int, z: int)
    requires Leads(code, x, y)
    requires 0 <= y && y + 1 < |code| && IsJump(code[y]) && Leads(code, Target(code, y), z)
    ensures Leads(code, x, z)
  {
    var j: nat :| Hops(code, x, j) == Some(y);
    var k: nat :| Hops(code, Target(code, y), k) == Some(z);
    assert Hops(code, y, k + 1) == Some(z);
    HopsConcat(code, x, y, j, k + 1);
  }

  /** `c` is `code` with some branches rewritten: each leads somewhere along the jumps its original leads to. */
  ghost predicate Threaded(code: seq<int>, c: seq<int>, starts: set<int>) {
    && Lands(code, starts) && Lands(c, starts) && SameKinds(code, c, starts)
    && forall a {:trigger a in starts} :: a in starts ==>
         if IsBranch(code[a]) then Leads(code, Target(code, a), Target(c, a))
         else HasOperand(code[a]) ==> c[a + 1] == code[a + 1]
  }

  lemma ThreadedStart(code: seq<int>, starts: set<int>)
    requires Lands(code, starts)
    ensures Threaded(code, code, starts)
  {
    forall a | a in starts && IsBranch(code[a]) ensures Leads(code, Target(code, a), Target(code, a)) {
      assert Hops(code, Target(code, a), 0) == Some(Target(code, a));
    }
  }

  lemma UncheckThreaded(code: seq<int>, c: seq<int>, ip: int, starts: set<int>)
    requires Threaded(code, c, starts) && ip in starts && IsCheck(c[ip])
    ensures Threaded(code, Uncheck(c, ip, starts), starts)
  {
    var c' := Uncheck(c, ip, starts);
    forall a | a in starts && HasOperand(code[a]) ensures c'[a + 1] == c[a + 1] {}
  }

  lemma RedirectThreaded(code: seq<int>, c: seq<int>, ip: int, target: int, starts: set<int>)
    requires Threaded(code, c, starts) && ip in starts && IsBranch(c[ip]) && target in starts
    requires Leads(code, Target(code, ip), target)
    ensures Threaded(code, Redirect(c, ip, target, starts), starts)
  {
    var c' := Redirect(c, ip, target, starts);
    forall a | a in starts && HasOperand(code[a]) && a != ip ensures c'[a + 1] == c[a + 1] {}
  }

  /** The rewriting keeps every branch on the way of its original, on jump cycles as well. */
  lemma {:induction false} OptimizeThreaded(code: seq<int>, c: seq<int>, ip: int, starts: set<int>)
    requires Threaded(code, c, starts) && ip in starts
    ensures Threaded(code, Optimize(c, ip, starts), starts)
    decreases Unchecked(c, starts)
  {
    if IsCheck(c[ip]) {
      var c1 := Uncheck(c, ip, starts);
      UncheckThreaded(code, c, ip, starts);
      var destination := Target(c1, ip);
      assert destination in starts && Leads(code, Target(code, ip), destination);
      var c2 := c1;
      if c1[destination] == BRANCH_CHECK {
        OptimizeThreaded(code, c1, destination, starts);
        c2 := Optimize(c1, destination, starts);
      }
      if c2[destination] == BRANCH {
        LeadsOn(code, Target(code, ip), destination, Target(c2, destination));
        RedirectThreaded(code, c2, ip, Target(c2, destination), starts);
      }
    }
  }

  // How far the rewriting gets: a branch that has run leads to the end of the way that it starts on.

  /** Every branch still has its check, as the compiler leaves it. */
  ghost predicate Unrun(code: seq<int>, starts: set<int>) {
    forall a {:trigger a in starts} :: a in starts && 0 <= a < |code| ==> code[a] != BRANCH && code[a] != BRANCH0
  }

  /** Following jumps from `x` gets to `y`, which is none. */
  ghost predicate Rests(code: seq<int>, x: int, y: int) {
    Leads(code, x, y) && 0 <= y < |code| && !IsJump(code[y])
  }

  /** Branches with a check are untouched; those without lead to where their way ends. `but` are still being rewritten. */
  ghost predicate Direct(code: seq<int>, c: seq<int>, starts: set<int>, but: set<int>)
    requires Lands(code, starts) && Lands(c, starts) && SameKinds(code, c, starts)
  {
    && (forall a {:trigger a in starts} :: a in starts && IsCheck(c[a]) ==> Target(c, a) == Target(code, a))
    && (forall a, y {:trigger Rests(code, Target(code, a), y)} ::
          a in starts && a !in but && IsBranch(c[a]) && !IsCheck(c[a]) && Rests(code, Target(code, a), y) ==> Target(c, a) == y)
  }

  /** A jump cycle has no end. */
  lemma CycleNeverRests(code: seq<int>, x: int, j: nat, y: int, k: nat)
    requires j >= 1 && Hops(code, x, j) == Some(x) && Hops(code, x, k) == Some(y)
    ensures !(0 <= y < |code| && !IsJump(code[y]))
    decreases k
  {
    if k >= j {
      HopsConcat(code, x, x, j, k - j);
      CycleNeverRests(code, x, j, y, k - j);
    } else {
      HopsConcat(code, x, y, k, j - k);
    }
  }

  /** On the way from where the jump at `x` leads, and back at `x`. */
  lemma NoRestOnCycle(code: seq<int>, x: int, y: int)
    requires 0 <= x && x + 1 < |code| && IsJump(code[x]) && Leads(code, Target(code, x), x)
    ensures !Rests(code, x, y)
  {
    var j: nat :| Hops(code, Target(code, x), j) == Some(x);
    assert Hops(code, x, j + 1) == Some(x);
    if Rests(code, x, y) {
      var k: nat :| Hops(code, x, k) == Some(y);
      CycleNeverRests(code, x, j + 1, y, k);
    }
  }

  /** The way on from a jump ends where the way to it ends. */
  lemma RestsOn(code: seq<int>, x: int, y: int)
    requires 0 <= x < |code| && (IsJump(code[x]) ==> x + 1 < |code|) && Rests(code, x, y)
    ensures if IsJump(code[x]) then Rests(code, Target(code, x), y) else y == x
  {
    var k: nat :| Hops(code, x, k) == Some(y);
    if IsJump(code[x]) {
      assert Hops(code, Target(code, x), k - 1) == Some(y);
    }
  }

  /** The rewriting leaves branches alone that have no check any more. */
  lemma {:induction false} OptimizeLeaves(c: seq<int>, ip: int, starts: set<int>, a: int)
    requires Lands(c, starts) && ip in starts && a in starts && IsBranch(c[a]) && !IsCheck(c[a])
    ensures var r := Optimize(c, ip, starts); r[a] == c[a] && r[a + 1] == c[a + 1]
    decreases Unchecked(c, starts)
  {
    if IsCheck(c[ip]) {
      var c1 := Uncheck(c, ip, starts);
      var destination := Target(c1, ip);
      if c1[destination] == BRANCH_CHECK { OptimizeLeaves(c1, destination, starts, a); }
    }
  }

  lemma UncheckDirect(code: seq<int>, c: seq<int>, ip: int, starts: set<int>, but: set<int>)
    requires Threaded(code, c, starts) && ip in starts && IsCheck(c[ip]) && Direct(code, c, starts, but)
    ensures Threaded(code, Uncheck(c, ip, starts), starts)
    ensures Direct(code, Uncheck(c, ip, starts), starts, but + {ip})
    ensures Target(Uncheck(c, ip, starts), ip) == Target(code, ip)
  {
    hide Rests, Leads, Hops;
    UncheckThreaded(code, c, ip, starts);
    var c' := Uncheck(c, ip, starts);
    forall a | a in starts && HasOperand(c[a]) ensures c'[a + 1] == c[a + 1] {}
  }

  /** The branches being rewritten lead to `ip` by jumps alone. */
  ghost predicate OnTheWay(code: seq<int>, starts: set<int>, but: set<int>, ip: int)
    requires Lands(code, starts) && ip in starts
  {
    && (but == {} || IsJump(code[ip]))
    && forall q {:trigger q in but} :: q in but ==> q in starts && IsBranch(code[q]) && Leads(code, Target(code, q), ip)
  }

  lemma OnTheWayOn(code: seq<int>, starts: set<int>, but: set<int>, ip: int)
    requires Lands(code, starts) && ip in starts && IsBranch(code[ip]) && OnTheWay(code, starts, but, ip)
    requires IsJump(code[Target(code, ip)])
    ensures OnTheWay(code, starts, but + {ip}, Target(code, ip))
  {
    var d := Target(code, ip);
    assert Hops(code, d, 0) == Some(d);
    forall q | q in but ensures Leads(code, Target(code, q), d) {
      LeadsOn(code, Target(code, q), ip, d);
    }
  }

  /** The jump that the branch at `ip` leads to is rewritten already, if its way has an end. */
  lemma NotOnTheWay(code: seq<int>, starts: set<int>, but: set<int>, ip: int, y: int)
    requires Lands(code, starts) && ip in starts && IsBranch(code[ip]) && OnTheWay(code, starts, but, ip)
    requires IsJump(code[Target(code, ip)]) && Rests(code, Target(code, ip), y)
    ensures Target(code, ip) !in but + {ip}
  {
    var d := Target(code, ip);
    assert Hops(code, d, 0) == Some(d);
    if d == ip {
      NoRestOnCycle(code, d, y);
    } else if d in but {
      LeadsOn(code, Target(code, d), ip, d);
      NoRestOnCycle(code, d, y);
    }
  }

  /** The last step of the rewriting: the branch at `ip` is direct, too. */
  lemma RedirectDirect(code: seq<int>, c: seq<int>, ip: int, starts: set<int>, but: set<int>)
    requires Threaded(code, c, starts) && ip in starts && IsBranch(c[ip]) && !IsCheck(c[ip])
    requires Direct(code, c, starts, but + {ip}) && Target(c, ip) == Target(code, ip)
    requires OnTheWay(code, starts, but, ip) && c[Target(code, ip)] != BRANCH_CHECK
    ensures var d := Target(code, ip);
            var r := if c[d] == BRANCH then Redirect(c, ip, Target(c, d), starts) else c;
            Lands(r, starts) && SameKinds(code, r, starts) && Direct(code, r, starts, but)
  {
    var d := Target(code, ip);
    var r := if c[d] == BRANCH then Redirect(c, ip, Target(c, d), starts) else c;
    assert d in starts && Final(c[d]) == Final(code[d]);
    hide Rests, Leads, Hops;
    forall a | a in starts && HasOperand(c[a]) && a != ip ensures r[a + 1] == c[a + 1] && r[a] == c[a] {}
    forall y | Rests(code, d, y) ensures Target(r, ip) == y {
      RestsOn(code, d, y);
      if IsJump(code[d]) {
        NotOnTheWay(code, starts, but, ip, y);
        assert Target(c, d) == y;
      }
    }
  }

  /** Rewriting a branch makes it direct, and all those that it leads to. */
  lemma {:induction false} OptimizeDirect(code: seq<int>, c: seq<int>, ip: int, starts: set<int>, but: set<int>)
    requires Threaded(code, c, starts) && ip in starts && Direct(code, c, starts, but)
    requires IsBranch(code[ip]) ==> OnTheWay(code, starts, but, ip)
    ensures Lands(Optimize(c, ip, starts), starts) && SameKinds(code, Optimize(c, ip, starts), starts)
    ensures Direct(code, Optimize(c, ip, starts), starts, but)
    decreases Unchecked(c, starts)
  {
    hide Direct, Rests, Leads, OnTheWay;
    OptimizeThreaded(code, c, ip, starts);
    if IsCheck(c[ip]) {
      var c1 := Uncheck(c, ip, starts);
      UncheckDirect(code, c, ip, starts, but);
      var d := Target(c1, ip);
      var c2 := c1;
      if c1[d] == BRANCH_CHECK {
        OnTheWayOn(code, starts, but, ip);
        OptimizeDirect(code, c1, d, starts, but + {ip});
        OptimizeThreaded(code, c1, d, starts);
        OptimizeLeaves(c1, d, starts, ip);
        c2 := Optimize(c1, d, starts);
        assert d !in Unchecked(c2, starts);
      }
      RedirectDirect(code, c2, ip, starts, but);
    }
  }

  /** One turn of the rewriting loop: the code it leaves behind and where it gets. */
  ghost function SelfStep(c: seq<int>, s: State, starts: set<int>): (seq<int>, Outcome)
    requires Lands(c, starts)
  {
    var c' := if s.ip in starts then Optimize(c, s.ip, starts) else c;
    (c', Step(c', s))
  }

  ghost function SelfRun(c: seq<int>, s: State, n: nat, starts: set<int>): (r: (seq<int>, Outcome))
    requires Lands(c, starts)
    ensures Lands(r.0, starts)
    decreases n
  {
    if n == 0 then (c, Running(s)) else
    match SelfStep(c, s, starts)
    case (c', Running(s')) => SelfRun(c', s', n - 1, starts)
    case r => r
  }

  lemma {:induction false} SelfRunThreads(code: seq<int>, c: seq<int>, s: State, n: nat, starts: set<int>)
    requires Threaded(code, c, starts) && Direct(code, c, starts, {})
    ensures Threaded(code, SelfRun(c, s, n, starts).0, starts) && Direct(code, SelfRun(c, s, n, starts).0, starts, {})
    decreases n
  {
    hide Step, Optimize, Direct, Threaded;
    ThreadedLands(code, c, starts);
    if n > 0 {
      var c' := c;
      if s.ip in starts {
        EmptyWay(code, starts, s.ip);
        OptimizeThreaded(code, c, s.ip, starts);
        OptimizeDirect(code, c, s.ip, starts, {});
        c' := Optimize(c, s.ip, starts);
      }
      match Step(c', s) {
        case Running(s') => SelfRunThreads(code, c', s', n - 1, starts);
        case _ =>
      }
    }
  }

  lemma ThreadedLands(code: seq<int>, c: seq<int>, starts: set<int>)
    requires Threaded(code, c, starts)
    ensures Lands(code, starts) && Lands(c, starts)
  {
  }

  lemma EmptyWay(code: seq<int>, starts: set<int>, ip: int)
    requires Lands(code, starts) && ip in starts
    ensures OnTheWay(code, starts, {}, ip)
  {
  }

  /** What has no check any more gets none again, and what has run has none. */
  lemma {:induction false} RunUnchecks(c: seq<int>, s: State, m: nat, n: nat, starts: set<int>)
    requires Lands(c, starts)
    ensures Unchecked(SelfRun(c, s, n, starts).0, starts) <= Unchecked(c, starts)
    ensures m < n && SelfRun(c, s, m, starts).1.Running? ==>
              SelfRun(c, s, m, starts).1.s.ip !in Unchecked(SelfRun(c, s, n, starts).0, starts)
    decreases n
  {
    hide Step, Optimize;
    if n > 0 {
      var (c', o) := SelfStep(c, s, starts);
      assert s.ip !in Unchecked(c', starts) && Unchecked(c', starts) <= Unchecked(c, starts);
      if o.Running? {
        RunUnchecks(c', o.s, if m > 0 then m - 1 else 0, n - 1, starts);
      }
    }
  }

  /**
   Threading is complete: in code that has not run before, a branch that has run has lost its check; and each branch
   without a check leads to the first instruction on its way that is no jump, if there is one at all.
   */
  lemma ThreadingCompletes(code: seq<int>, s: State, n: nat, starts: set<int>)
    requires Lands(code, starts) && Unrun(code, starts)
    ensures var c := SelfRun(code, s, n, starts).0;
            && |c| == |code|
            && (forall a, y {:trigger Rests(code, Target(code, a), y)} ::
                  a in starts && IsBranch(code[a]) && !IsCheck(c[a]) && Rests(code, Target(code, a), y) ==> Target(c, a) == y)
            && (forall a {:trigger a in starts} :: a in starts && IsCheck(c[a]) ==> Target(c, a) == Target(code, a))
            && (forall m: nat {:trigger SelfRun(code, s, m, starts)} ::
                  m < n && SelfRun(code, s, m, starts).1.Running? && SelfRun(code, s, m, starts).1.s.ip in starts
                  ==> !IsCheck(c[SelfRun(code, s, m, starts).1.s.ip]))
  {
    ThreadedStart(code, starts);
    SelfRunThreads(code, code, s, n, starts);
    var c := SelfRun(code, s, n, starts).0;
    hide SelfRun, Hops, Rests;
    forall a, y | a in starts && IsBranch(code[a]) && !IsCheck(c[a]) && Rests(code, Target(code, a), y)
      ensures Target(c, a) == y
    {
      assert Final(c[a]) == Final(code[a]);
    }
    forall m: nat | m < n && SelfRun(code, s, m, starts).1.Running? && SelfRun(code, s, m, starts).1.s.ip in starts
      ensures !IsCheck(c[SelfRun(code, s, m, starts).1.s.ip])
    {
      RunUnchecks(code, s, m, n, starts);
    }
  }

  /** The machine states in which instructions other than jumps start. */
  ghost function Visible(code: seq<int>, s: State): seq<State> {
    if 0 <= s.ip < |code| && IsJump(code[s.ip]) then [] else [s]
  }

  ghost function Trace(code: seq<int>, s: State, n: nat): seq<State>
    decreases n
  {
    if n == 0 then []
    else Visible(code, s) + match Step(code, s) { case Running(s') => Trace(code, s', n - 1) case _ => [] }
  }

  ghost function SelfTrace(c: seq<int>, s: State, n: nat, starts: set<int>): seq<State>
    requires Lands(c, starts)
    decreases n
  {
    if n == 0 then []
    else Visible(c, s) + match SelfStep(c, s, starts) { case (c', Running(s')) => SelfTrace(c', s', n - 1, starts) case _ => [] }
  }

  lemma {:induction false} TraceConcat(code: seq<int>, s: State, m: nat, n: nat)
    ensures Trace(code, s, m + n) ==
            Trace(code, s, m) + match Run(code, s, m) { case Running(s') => Trace(code, s', n) case _ => [] }
    decreases m
  {
    hide Step, Visible;
    if m > 0 && Step(code, s).Running? {
      var s' := Step(code, s).s;
      TraceConcat(code, s', m - 1, n);
      var rest := match Run(code, s', m - 1) { case Running(s'') => Trace(code, s'', n) case _ => [] };
      Associate(Visible(code, s), Trace(code, s', m - 1), rest);
    }
  }

  /** Jumps change nothing but the instruction pointer and leave no trace. */
  lemma {:induction false} HopsRun(code: seq<int>, x: int, y: int, k: nat, data: CellStack, ret: CellStack)
    requires Hops(code, x, k) == Some(y)
    ensures Run(code, State(x, data, ret), k) == Running(State(y, data, ret))
    ensures Trace(code, State(x, data, ret), k) == []
    decreases k
  {
    if k > 0 {
      HopsRun(code, Target(code, x), y, k - 1, data, ret);
    }
  }

  /** What one turn does depends on the instruction, up to its check, and on its operand. */
  lemma StepLocal(code: seq<int>, c: seq<int>, s: State)
    requires |c| == |code| && 0 <= s.ip < |code| && Final(c[s.ip]) == Final(code[s.ip])
    requires HasOperand(code[s.ip]) && s.ip + 1 < |code| ==> c[s.ip + 1] == code[s.ip + 1]
    ensures Step(c, s) == Step(code, s)
  {
  }

  /** Whether the branch at `ip` is taken, and with which data stack it goes on. */
  function Taken(op: int, data: CellStack): Option<(bool, CellStack)> {
    if IsJump(op) then Some((true, data))
    else match data
      case Bottom => None
      case Push(x, d) => Some((x == 0, d))
  }

  lemma StepBranchTaken(code: seq<int>, s: State)
    requires 0 <= s.ip && s.ip + 1 < |code| && IsBranch(code[s.ip])
    ensures Step(code, s) ==
            match Taken(code[s.ip], s.data)
            case None => Fault
            case Some((taken, d)) => Running(State(if taken then Target(code, s.ip) else s.ip + 2, d, s.ret))
  {
  }

  /** One turn on rewritten code is one turn on the original and then some jumps. */
  lemma StepFollows(code: seq<int>, c: seq<int>, s: State, starts: set<int>) returns (m: nat)
    requires Threaded(code, c, starts) && s.ip in starts
    ensures m >= 1 && Run(code, s, m) == Step(c, s)
    ensures Trace(code, s, m) == Visible(c, s)
  {
    hide Step, Hops;
    m := 1;
    if !IsBranch(code[s.ip]) {
      StepLocal(code, c, s);
    } else {
      StepBranchTaken(code, s);
      StepBranchTaken(c, s);
      match Taken(code[s.ip], s.data) {
        case Some((true, d)) =>
          assert Leads(code, Target(code, s.ip), Target(c, s.ip));
          var k: nat :| Hops(code, Target(code, s.ip), k) == Some(Target(c, s.ip));
          HopsRun(code, Target(code, s.ip), Target(c, s.ip), k, d, s.ret);
          m := 1 + k;
        case _ =>
      }
    }
  }

  /** The machine that never rewrites only ever fetches instructions from `starts`. */
  ghost predicate StaysOn(code: seq<int>, s: State, starts: set<int>) {
    forall n: nat {:trigger Run(code, s, n)} :: Run(code, s, n).Running? ==> Run(code, s, n).s.ip in starts
  }

  lemma StaysOnAfter(code: seq<int>, s: State, m: nat, s': State, starts: set<int>)
    requires StaysOn(code, s, starts) && Run(code, s, m) == Running(s')
    ensures StaysOn(code, s', starts)
  {
    forall n: nat | Run(code, s', n).Running? ensures Run(code, s', n).s.ip in starts {
      RunConcat(code, s, m, n);
      assert Run(code, s, m + n) == Run(code, s', n);
    }
  }

  lemma StartsOn(code: seq<int>, c: seq<int>, s: State, starts: set<int>)
    requires Threaded(code, c, starts) && StaysOn(code, s, starts)
    ensures s.ip in starts && Lands(c, starts) && Visible(Optimize(c, s.ip, starts), s) == Visible(c, s)
  {
    assert Run(code, s, 0) == Running(s);
  }

  /** Every run of the rewriting machine is a run of the other one, jumps aside. */
  lemma {:induction false} SelfRunFollows(code: seq<int>, c: seq<int>, s: State, n: nat, starts: set<int>) returns (m: nat)
    requires Threaded(code, c, starts) && StaysOn(code, s, starts)
    ensures Run(code, s, m) == SelfRun(c, s, n, starts).1
    ensures SelfRun(c, s, n, starts).1.Running? ==> m >= n
    ensures Trace(code, s, m) == SelfTrace(c, s, n, starts)
    decreases n
  {
    hide Step, Visible, Optimize, Threaded, StaysOn;
    if n == 0 {
      m := 0;
    } else {
      StartsOn(code, c, s, starts);
      var c' := Optimize(c, s.ip, starts);
      OptimizeThreaded(code, c, s.ip, starts);
      m := StepFollows(code, c', s, starts);
      match Step(c', s) {
        case Running(s') =>
          StaysOnAfter(code, s, m, s', starts);
          var m' := SelfRunFollows(code, c', s', n - 1, starts);
          RunConcat(code, s, m, m');
          TraceConcat(code, s, m, m');
          m := m + m';
        case _ =>
      }
    }
  }

  /** A run that is over, on one machine or the other. */
  ghost predicate Ends(code: seq<int>, s: State, o: Outcome) {
    !o.Running? && exists n: nat :: Run(code, s, n) == o
  }

  ghost predicate SelfEnds(c: seq<int>, s: State, starts: set<int>, o: Outcome)
    requires Lands(c, starts)
  {
    !o.Running? && exists n: nat :: SelfRun(c, s, n, starts).1 == o
  }

  lemma EndsOnce(code: seq<int>, s: State, o: Outcome, m: nat)
    requires Ends(code, s, o) && !Run(code, s, m).Running?
    ensures Run(code, s, m) == o
  {
    var n: nat :| Run(code, s, n) == o;
    if m <= n { RunMonotone(code, s, m, n); } else { RunMonotone(code, s, n, m); }
  }

  /** Jump threading preserves meaning: the machine that rewrites its code ends exactly when the other
      does, and in the same way; so it also goes on for ever exactly when the other does. */
  lemma ThreadingPreserves(code: seq<int>, s: State, starts: set<int>, o: Outcome)
    requires Lands(code, starts) && StaysOn(code, s, starts)
    ensures SelfEnds(code, s, starts, o) <==> Ends(code, s, o)
  {
    ThreadedStart(code, starts);
    if SelfEnds(code, s, starts, o) {
      var n: nat :| SelfRun(code, s, n, starts).1 == o;
      var m := SelfRunFollows(code, code, s, n, starts);
    }
    if Ends(code, s, o) {
      var n: nat :| Run(code, s, n) == o;
      var m := SelfRunFollows(code, code, s, n, starts);
      if Run(code, s, m).Running? {
        RunMonotone(code, s, n, m);
      }
      EndsOnce(code, s, o, m);
      assert SelfRun(code, s, n, starts).1 == o;
    }
  }

  // That the run stays on the starts is needed: in this code OF branches into the operand of a branch at 3, which
  // is an instruction as long as the branch has not been rewritten.
  const STRAY := [OF, 3, SEMI, BRANCH_CHECK, 1, BRANCH_CHECK, -6]

  const STRAY_STARTS := {0, 2, 3, 5}

  lemma StrayRuns(back: int, outer: CellStack)
    ensures Run(STRAY, State(3, Push(5, Push(1, Push(9, Bottom))), Push(back, outer)), 7)
            == Returned(State(back, Push(9, Bottom), outer))
  {
    var ret, data := Push(back, outer), Push(1, Push(9, Bottom));
    assert Run(STRAY, State(0, Push(1, data), ret), 2) == Returned(State(back, Push(9, Bottom), outer));
    assert Run(STRAY, State(4, data, ret), 4) == Run(STRAY, State(5, Push(1, data), ret), 3);
    assert Run(STRAY, State(0, Push(5, data), ret), 5) == Run(STRAY, State(4, data, ret), 4);
    assert Run(STRAY, State(5, Push(5, data), ret), 6) == Run(STRAY, State(0, Push(5, data), ret), 5);
  }

  lemma StrayLands()
    ensures Lands(STRAY, STRAY_STARTS)
  {
  }

  lemma StrayThreaded()
    ensures Lands(STRAY, STRAY_STARTS) && Optimize(STRAY, 3, STRAY_STARTS) == [OF, 3, SEMI, BRANCH, -4, BRANCH, -6]
  {
    StrayLands();
    hide Lands;
    var c := Uncheck(STRAY, 3, STRAY_STARTS);
    assert c == [OF, 3, SEMI, BRANCH, 1, BRANCH_CHECK, -6];
    var c' := Uncheck(c, 5, STRAY_STARTS);
    assert c' == [OF, 3, SEMI, BRANCH, 1, BRANCH, -6];
    assert Optimize(c, 5, STRAY_STARTS) == c';
  }

  /** Branches land on starts, but a run that gets to an operand ends in another way once the operand is rewritten. */
  lemma OperandRuns(back: int, outer: CellStack)
    ensures var s := State(3, Push(5, Push(1, Push(9, Bottom))), Push(back, outer));
            && Lands(STRAY, STRAY_STARTS) && Ends(STRAY, s, Returned(State(back, Push(9, Bottom), outer)))
            && SelfEnds(STRAY, s, STRAY_STARTS, Fault)
  {
    var ret, data := Push(back, outer), Push(1, Push(9, Bottom));
    StrayRuns(back, outer);
    StrayThreaded();
    var c := Optimize(STRAY, 3, STRAY_STARTS);
    assert Optimize(c, 0, STRAY_STARTS) == c;
    assert SelfStep(c, State(4, data, ret), STRAY_STARTS) == (c, Fault);
    assert SelfStep(c, State(0, Push(5, data), ret), STRAY_STARTS) == (c, Running(State(4, data, ret)));
    assert SelfStep(STRAY, State(3, Push(5, data), ret), STRAY_STARTS) == (c, Running(State(0, Push(5, data), ret)));
    assert SelfRun(c, State(4, data, ret), 1, STRAY_STARTS) == (c, Fault);
    assert SelfRun(c, State(0, Push(5, data), ret), 2, STRAY_STARTS) == (c, Fault);
    assert SelfRun(STRAY, State(3, Push(5, data), ret), 3, STRAY_STARTS) == (c, Fault);
  }
}
