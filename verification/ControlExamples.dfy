/** Small programs with known results, for every value they are given. */
module ControlExamples {
  import opened Wrappers
  import opened Vm
  import opened Structured

  /** `IF 1 ELSE 2 THEN` */
  lemma Chooses(x: int, d: CellStack, env: Env, fuel: nat)
    ensures Exec(IfElse(Number(1), Number(2)), Push(x, d), env, fuel) == Done(Push(if x == 0 then 2 else 1, d))
    ensures Exec(If(Number(1)), Push(x, d), env, fuel) == Done(if x == 0 then d else Push(1, d))
  {
  }

  /** `CASE 5 OF 1 ENDOF ENDCASE` */
  lemma Selects(x: int, d: CellStack, env: Env, fuel: nat)
    ensures Exec(Case(Arm(Number(5), Number(1), false, Default(Nop))), Push(x, d), env, fuel)
            == Done(if x == 5 then Push(1, d) else d)
  {
    var rest := Default(Nop);
    assert ExecArms(rest, Push(x, d), env, fuel) == Done(d);
    var arms := Arm(Number(5), Number(1), false, rest);
    assert ExecBody(arms, d, env, fuel) == Done(Push(1, d));
    assert ExecArms(arms, Push(x, d), env, fuel) == Done(if x == 5 then Push(1, d) else d);
  }

  /** `CASE 5 OF 1 FALLTHROUGH 6 OF 2 ENDOF ENDCASE` */
  lemma FallsThrough(x: int, d: CellStack, env: Env, fuel: nat)
    ensures var last := Arm(Number(6), Number(2), false, Default(Nop));
            Exec(Case(Arm(Number(5), Number(1), true, last)), Push(x, d), env, fuel)
            == Done(if x == 5 then Push(2, Push(1, d)) else if x == 6 then Push(2, d) else d)
  {
    var last := Arm(Number(6), Number(2), false, Default(Nop));
    var arms := Arm(Number(5), Number(1), true, last);
    assert ExecArms(Default(Nop), Push(x, d), env, fuel) == Done(d);
    assert ExecBody(last, Push(1, d), env, fuel) == Done(Push(2, Push(1, d)));
    assert ExecBody(last, d, env, fuel) == Done(Push(2, d));
    assert ExecArms(last, Push(x, d), env, fuel) == Done(if x == 6 then Push(2, d) else d);
    assert ExecBody(arms, d, env, fuel) == Done(Push(2, Push(1, d)));
    assert ExecArms(arms, Push(x, d), env, fuel)
        == Done(if x == 5 then Push(2, Push(1, d)) else if x == 6 then Push(2, d) else d);
  }

  /** `BEGIN DUP WHILE 1- REPEAT` counts down to 0. */
  lemma {:induction false} RepeatsWhile(n: nat, d: CellStack, env: Env, fuel: nat)
    requires n <= fuel && n <= 0x7fff_ffff
    ensures Exec(While(Plain(DUP), Plain(ONE_MINUS)), Push(n, d), env, fuel) == Done(Push(0, d))
    decreases n
  {
    ExecWhile(Plain(DUP), Plain(ONE_MINUS), Push(n, d), env, fuel);
    if n > 0 { RepeatsWhile(n - 1, d, env, fuel - 1); }
  }

  /** `BEGIN 1- DUP 0= UNTIL` does, too, but for its first step. */
  lemma {:induction false} RepeatsUntil(n: nat, d: CellStack, env: Env, fuel: nat)
    requires 1 <= n <= fuel && n <= 0x7fff_ffff
    ensures Exec(Until(Then(Plain(ONE_MINUS), Then(Plain(DUP), Plain(ZERO_EQUALS)))), Push(n, d), env, fuel) == Done(Push(0, d))
    decreases n
  {
    var body := Then(Plain(ONE_MINUS), Then(Plain(DUP), Plain(ZERO_EQUALS)));
    ExecUntil(body, Push(n, d), env, fuel);
    ExecThen(Plain(ONE_MINUS), Then(Plain(DUP), Plain(ZERO_EQUALS)), Push(n, d), env, fuel);
    ExecThen(Plain(DUP), Plain(ZERO_EQUALS), Push(n - 1, d), env, fuel);
    if n > 1 { RepeatsUntil(n - 1, d, env, fuel - 1); }
  }

  /** `BEGIN AGAIN` never ends, on any amount of fuel. */
  lemma {:induction false} RepeatsForEver(d: CellStack, env: Env, fuel: nat)
    ensures Exec(Again(Nop), d, env, fuel) == Timeout
    decreases fuel
  {
    ExecAgain(Nop, d, env, fuel);
    if fuel > 0 { RepeatsForEver(d, env, fuel - 1); }
  }

  /** `DO I J LEAVE LOOP` within another loop: both indices, once. */
  lemma LeavesAtOnce(limit: int, start: int, outer: int, d: CellStack, env: Env, fuel: nat)
    requires env.loops != [] && env.loops[0] == outer
    ensures Exec(Do(false, false, Then(Plain(INDEX_I), Then(Plain(INDEX_J), Leave))), Push(start, Push(limit, d)), env, fuel)
            == Done(Push(outer, Push(start, d)))
  {
    var body := Then(Plain(INDEX_I), Then(Plain(INDEX_J), Leave));
    var inner := Enter(env, start);
    ExecDo(false, false, body, Push(start, Push(limit, d)), env, fuel);
    ExecThen(Plain(INDEX_I), Then(Plain(INDEX_J), Leave), d, inner, fuel);
    ExecThen(Plain(INDEX_J), Leave, Push(start, d), inner, fuel);
    assert LoopIndex(inner, 1) == Some(outer);
  }
}
