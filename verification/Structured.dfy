/**
 Colon-definition bodies as trees of properly nested control structures, and what they mean:
 a direct semantics that knows nothing of code cells, branch offsets or leave addresses.
 */
module Structured {
  import opened Wrappers
  import opened Cells
  import opened Vm

  datatype Tree =
    | Nop
    | Then(first: Tree, rest: Tree)
    | Number(value: int)
    | Plain(op: int)
    | Leave
    | If(thn: Tree)                                // IF thn THEN
    | IfElse(thn: Tree, els: Tree)                 // IF thn ELSE els THEN
    | Until(body: Tree)                            // BEGIN body UNTIL
    | Again(body: Tree)                            // BEGIN body AGAIN
    | While(test: Tree, body: Tree)                // BEGIN test WHILE body REPEAT
    | Do(question: bool, plus: bool, body: Tree)   // DO or ?DO, body, LOOP or +LOOP
    | Case(arms: Arms)                             // CASE arms ENDCASE

  datatype Arms =
    | Default(otherwise: Tree)
    | Arm(select: Tree, body: Tree, falls: bool, rest: Arms)  // select OF body ENDOF (or FALLTHROUGH)

  /** LEAVE stands inside a DO loop and nowhere else. */
  predicate WellNested(t: Tree, inLoop: bool) {
    match t
    case Nop => true
    case Then(a, b) => WellNested(a, inLoop) && WellNested(b, inLoop)
    case Number(_) => true
    case Plain(op) => IsPlain(op)
    case Leave => inLoop
    case If(a) => WellNested(a, inLoop)
    case IfElse(a, b) => WellNested(a, inLoop) && WellNested(b, inLoop)
    case Until(a) => WellNested(a, inLoop)
    case Again(a) => WellNested(a, inLoop)
    case While(a, b) => WellNested(a, inLoop) && WellNested(b, inLoop)
    case Do(_, _, a) => WellNested(a, true)
    case Case(arms) => WellNestedArms(arms, inLoop)
  }

  predicate WellNestedArms(arms: Arms, inLoop: bool) {
    match arms
    case Default(c) => WellNested(c, inLoop)
    case Arm(s, b, _, rest) => WellNested(s, inLoop) && WellNested(b, inLoop) && WellNestedArms(rest, inLoop)
  }

  /** `Left`: a LEAVE is on its way out of the innermost loop.
      `Timeout`: the fuel did not last; fuel pays for backward branches only. */
  datatype Result = Done(data: CellStack) | Left(data: CellStack) | Broken | Timeout

  /** What surrounds a tree: the indices of the running loops, innermost first,
      and the return stack of the caller. */
  datatype Env = Env(loops: seq<int>, outer: CellStack)

  /** The index of the k-th enclosing loop; past the loops, I J K read the caller's cells. */
  function LoopIndex(env: Env, k: nat): Option<int> {
    if k < |env.loops| then Some(env.loops[k]) else env.outer.Peek(3 * (k - |env.loops|))
  }

  function Enter(env: Env, index: int): Env {
    env.(loops := [index] + env.loops)
  }

  function Exec(t: Tree, data: CellStack, env: Env, fuel: nat): Result
    decreases fuel, t, 0
  {
    match t
    case Nop => Done(data)
    case Then(a, b) =>
      (match Exec(a, data, env, fuel)
       case Done(d) => Exec(b, d, env, fuel)
       case r => r)
    case Number(v) => Done(Push(v, data))
    case Plain(op) =>
      if !IsPlain(op) then Broken else
      (match PlainStep(op, data, LoopIndex(env, 0), LoopIndex(env, 1), LoopIndex(env, 2))
       case None => Broken
       case Some(d) => Done(d))
    case Leave => Left(data)
    case If(a) =>
      (match data
       case Bottom => Broken
       case Push(x, d) => if x != 0 then Exec(a, d, env, fuel) else Done(d))
    case IfElse(a, b) =>
      (match data
       case Bottom => Broken
       case Push(x, d) => if x != 0 then Exec(a, d, env, fuel) else Exec(b, d, env, fuel))
    case Until(a) =>
      (match Exec(a, data, env, fuel)
       case Done(Bottom) => Broken
       case Done(Push(x, d)) =>
         if x != 0 then Done(d) else if fuel == 0 then Timeout else Exec(t, d, env, fuel - 1)
       case r => r)
    case Again(a) =>
      (match Exec(a, data, env, fuel)
       case Done(d) => if fuel == 0 then Timeout else Exec(t, d, env, fuel - 1)
       case r => r)
    case While(a, b) =>
      (match Exec(a, data, env, fuel)
       case Done(Bottom) => Broken
       case Done(Push(x, d)) =>
         if x == 0 then Done(d)
         else
           (match Exec(b, d, env, fuel)
            case Done(e) => if fuel == 0 then Timeout else Exec(t, e, env, fuel - 1)
            case r => r)
       case r => r)
    case Do(question, plus, a) =>
      (match data
       case Push(index, Push(limit, d)) =>
         if question && index == limit then Done(d) else ExecLoop(plus, a, d, limit, index, env, fuel)
       case _ => Broken)
    case Case(arms) => ExecArms(arms, data, env, fuel)
  }

  /** One counted loop whose body is about to run with `index`. */
  function ExecLoop(plus: bool, body: Tree, data: CellStack, limit: int, index: int, env: Env, fuel: nat): Result
    decreases fuel, body, 1
  {
    match Exec(body, data, Enter(env, index), fuel)
    case Left(d) => Done(d)
    case Done(d) =>
      if plus && d.Bottom? then Broken else
      var increment := if plus then d.top else 1;
      var d' := if plus then d.under else d;
      var index' := Wrap(index + increment);
      if LoopEnds(index', limit, increment < 0) then Done(d')
      else if fuel == 0 then Timeout
      else ExecLoop(plus, body, d', limit, index', env, fuel - 1)
    case r => r
  }

  /** Try the arms in order; the selected value is dropped by the arm that takes it, or by ENDCASE. */
  function ExecArms(arms: Arms, data: CellStack, env: Env, fuel: nat): Result
    decreases fuel, arms, 1
  {
    match arms
    case Default(c) =>
      (match Exec(c, data, env, fuel)
       case Done(Bottom) => Broken
       case Done(Push(_, d)) => Done(d)
       case r => r)
    case Arm(s, _, _, rest) =>
      (match Exec(s, data, env, fuel)
       case Done(Push(x, Push(y, d))) =>
         if x == y then ExecBody(arms, d, env, fuel) else ExecArms(rest, Push(y, d), env, fuel)
       case Done(_) => Broken
       case r => r)
  }

  /** Run the body of the first arm; after FALLTHROUGH go on with the next body, without its test. */
  function ExecBody(arms: Arms, data: CellStack, env: Env, fuel: nat): Result
    requires arms.Arm?
    decreases fuel, arms, 0
  {
    match Exec(arms.body, data, env, fuel)
    case Done(d) => if arms.falls && arms.rest.Arm? then ExecBody(arms.rest, d, env, fuel) else Done(d)
    case r => r
  }

  // The meaning of each structure in terms of the meanings of its parts.

  lemma ExecThen(a: Tree, b: Tree, data: CellStack, env: Env, fuel: nat)
    ensures Exec(Then(a, b), data, env, fuel) ==
            match Exec(a, data, env, fuel)
            case Done(d) => Exec(b, d, env, fuel)
            case r => r
  {
  }

  lemma ExecIfElse(a: Tree, b: Tree, data: CellStack, env: Env, fuel: nat)
    ensures Exec(IfElse(a, b), data, env, fuel) ==
            match data
            case Bottom => Broken
            case Push(x, d) => if x != 0 then Exec(a, d, env, fuel) else Exec(b, d, env, fuel)
  {
  }

  lemma ExecUntil(a: Tree, data: CellStack, env: Env, fuel: nat)
    ensures Exec(Until(a), data, env, fuel) ==
            match Exec(a, data, env, fuel)
            case Done(Bottom) => Broken
            case Done(Push(x, d)) =>
              if x != 0 then Done(d) else if fuel == 0 then Timeout else Exec(Until(a), d, env, fuel - 1)
            case r => r
  {
  }

  lemma ExecAgain(a: Tree, data: CellStack, env: Env, fuel: nat)
    ensures Exec(Again(a), data, env, fuel) ==
            match Exec(a, data, env, fuel)
            case Done(d) => if fuel == 0 then Timeout else Exec(Again(a), d, env, fuel - 1)
            case r => r
  {
  }

  lemma ExecWhile(a: Tree, b: Tree, data: CellStack, env: Env, fuel: nat)
    ensures Exec(While(a, b), data, env, fuel) ==
            match Exec(a, data, env, fuel)
            case Done(Bottom) => Broken
            case Done(Push(x, d)) =>
              if x == 0 then Done(d)
              else (match Exec(b, d, env, fuel)
                    case Done(e) => if fuel == 0 then Timeout else Exec(While(a, b), e, env, fuel - 1)
                    case r => r)
            case r => r
  {
  }

  lemma ExecDo(question: bool, plus: bool, a: Tree, data: CellStack, env: Env, fuel: nat)
    ensures Exec(Do(question, plus, a), data, env, fuel) ==
            match data
            case Push(index, Push(limit, d)) =>
              if question && index == limit then Done(d) else ExecLoop(plus, a, d, limit, index, env, fuel)
            case _ => Broken
  {
  }
}
