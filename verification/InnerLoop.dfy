/** The rewriting inner loop itself, working on dictionary memory in place. */
module InnerLoop {
  import opened Vm
  import opened Threading

  class Machine {
    const code: array<int>
    var ip: int
    var data: CellStack
    var ret: CellStack

    constructor (code: array<int>, ip: int, data: CellStack, ret: CellStack)
      ensures this.code == code && Now() == State(ip, data, ret)
    {
      this.code, this.ip, this.data, this.ret := code, ip, data, ret;
    }

    function Now(): State
      reads this
    {
      State(ip, data, ret)
    }

    /** Patches the branch at `at`, and first those it leads to. */
    method OptimizeJumpToJump(at: int, ghost starts: set<int>)
      requires Lands(code[..], starts) && at in starts
      modifies code
      ensures code[..] == Optimize(old(code[..]), at, starts)
      decreases Unchecked(code[..], starts)
    {
      assert code[..][at] == code[at];
      if !IsCheck(code[at]) { return; }
      ghost var c1 := Uncheck(code[..], at, starts);
      code[at] := Final(code[at]);
      assert code[..] == c1;
      var destination := at + 1 + code[at + 1];
      assert destination == Target(c1, at);
      if code[destination] == BRANCH_CHECK {
        OptimizeJumpToJump(destination, starts);
      }
      ghost var c2 := code[..];
      assert Lands(c2, starts) && destination in starts;
      if code[destination] == BRANCH {
        code[at + 1] := destination + 1 + code[destination + 1] - (at + 1);
        assert code[..] == Redirect(c2, at, Target(c2, destination), starts);
      }
    }

    /** One turn: a branch that has not run yet is threaded first. */
    method Turn(ghost original: seq<int>, ghost starts: set<int>) returns (o: Outcome)
      requires Threaded(original, code[..], starts) && StaysOn(original, Now(), starts)
      modifies this, code
      ensures Lands(old(code[..]), starts) && (code[..], o) == SelfStep(old(code[..]), old(Now()), starts)
      ensures o.Running? ==>
                Now() == o.s && Threaded(original, code[..], starts) && StaysOn(original, Now(), starts)
    {
      hide Step, Threaded, StaysOn, Optimize;
      ghost var c, s := code[..], Now();
      StartsOn(original, c, s, starts);
      OptimizeThreaded(original, c, ip, starts);
      Thread(starts);
      ghost var m := StepFollows(original, code[..], s, starts);
      o := Step(code[..], State(ip, data, ret));
      if o.Running? {
        StaysOnAfter(original, s, m, o.s, starts);
        ip, data, ret := o.s.ip, o.s.data, o.s.ret;
      }
    }

    method Thread(ghost starts: set<int>)
      requires Lands(code[..], starts) && ip in starts
      modifies code
      ensures code[..] == Optimize(old(code[..]), ip, starts)
    {
      assert code[..][ip] == code[ip];
      if IsCheck(code[ip]) {
        OptimizeJumpToJump(ip, starts);
      }
    }

    /** At most `budget` turns. */
    method Loop(budget: nat, ghost original: seq<int>, ghost starts: set<int>) returns (o: Outcome)
      requires Threaded(original, code[..], starts) && StaysOn(original, Now(), starts)
      modifies this, code
      ensures (code[..], o) == SelfRun(old(code[..]), old(Now()), budget, starts)
      ensures o.Running? ==> Now() == o.s
    {
      hide Step, StaysOn, Optimize;
      var n := budget;
      o := Running(Now());
      while n > 0
        invariant o == Running(Now())
        invariant Threaded(original, code[..], starts) && StaysOn(original, Now(), starts)
        invariant SelfRun(code[..], Now(), n, starts) == SelfRun(old(code[..]), old(Now()), budget, starts)
      {
        o := Turn(original, starts);
        if !o.Running? { return; }
        n := n - 1;
      }
    }
  }
}
