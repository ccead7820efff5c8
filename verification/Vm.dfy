/**
 The switch-threaded inner loop of Ficl, for the instructions the control words emit.
 Dictionary memory is a sequence of cells; an instruction pointer is an index into it.
 This machine never rewrites its code; `Threading` has the one that does.
 */
module Vm {
  import opened Wrappers
  import opened Cells

  // Instruction numbers, in the order of the token table.
  const LITERAL_MAX := 16
  const ZERO := 17
  const LITERAL_MIN := 33
  const PLUS := 37
  const MINUS := 38
  const ONE_PLUS := 39
  const ONE_MINUS := 40
  const SEMI := 43
  const EXIT := 44
  const DUP := 45
  const SWAP := 46
  const GREATER := 47
  const BRANCH_CHECK := 48
  const BRANCH := 49
  const BRANCH0_CHECK := 50
  const BRANCH0 := 51
  const LITERAL := 52
  const LOOP := 53
  const OF := 54
  const PLUS_LOOP := 55
  const DO := 76
  const QDO := 78
  const ZERO_LESS := 83
  const ZERO_EQUALS := 85
  const OVER := 88
  const ROT := 89
  const LESS := 99
  const EQUALS := 100
  const QUESTION_DUP := 102
  const DROP := 106
  const INDEX_I := 126
  const INDEX_J := 127
  const INDEX_K := 128
  const LEAVE := 133

  type CellStack = Stack<int>

  datatype State = State(ip: int, data: CellStack, ret: CellStack)

  /** `Returned` is the state after `(;)` or `(exit)` popped the caller's address. */
  datatype Outcome = Running(s: State) | Returned(s: State) | Fault

  /** The instructions that work on the data stack alone and fall through to the next cell. */
  predicate IsPlain(op: int) {
    op in {PLUS, MINUS, ONE_PLUS, ONE_MINUS, DUP, SWAP, GREATER, ZERO_LESS, ZERO_EQUALS, OVER, ROT,
           LESS, EQUALS, QUESTION_DUP, DROP, INDEX_I, INDEX_J, INDEX_K}
  }

  /** What a plain instruction leaves on the data stack; `i`, `j` and `k` are the loop indices it may read.
      None is a stack fault. */
  function PlainStep(op: int, data: CellStack, i: Option<int>, j: Option<int>, k: Option<int>): Option<CellStack>
    requires IsPlain(op)
  {
    if op == INDEX_I then PushIndex(data, i)
    else if op == INDEX_J then PushIndex(data, j)
    else if op == INDEX_K then PushIndex(data, k)
    else
      match data
      case Bottom => None
      case Push(x, d) =>
        if op == ONE_PLUS then Some(Push(Wrap(x + 1), d))
        else if op == ONE_MINUS then Some(Push(Wrap(x - 1), d))
        else if op == DUP then Some(Push(x, data))
        else if op == QUESTION_DUP then Some(if x != 0 then Push(x, data) else data)
        else if op == DROP then Some(d)
        else if op == ZERO_LESS then Some(Push(Flag(x < 0), d))
        else if op == ZERO_EQUALS then Some(Push(Flag(x == 0), d))
        else
          match d
          case Bottom => None
          case Push(y, e) =>
            if op == PLUS then Some(Push(Wrap(y + x), e))
            else if op == MINUS then Some(Push(Wrap(y - x), e))
            else if op == SWAP then Some(Push(y, Push(x, e)))
            else if op == OVER then Some(Push(y, data))
            else if op == GREATER then Some(Push(Flag(y > x), e))
            else if op == LESS then Some(Push(Flag(y < x), e))
            else if op == EQUALS then Some(Push(Flag(y == x), e))
            else
              match e
              case Bottom => None
              case Push(z, f) => Some(Push(z, Push(x, Push(y, f))))
  }

  function PushIndex(data: CellStack, index: Option<int>): Option<CellStack> {
    match index
    case None => None
    case Some(x) => Some(Push(x, data))
  }

  /** `BRANCH()`: the offset is relative to the cell that holds it. */
  function Jump(code: seq<int>, ip: int, data: CellStack, ret: CellStack): Outcome
    requires 0 <= ip < |code|
  {
    Running(State(ip + code[ip], data, ret))
  }

  /** `(loop)` and `(+loop)` go on unless the new index crossed the limit. */
  predicate LoopEnds(index: int, limit: int, backwards: bool) {
    backwards != (index >= limit)
  }

  function LoopStep(code: seq<int>, ip: int, data: CellStack, ret: CellStack, increment: int): Outcome
    requires 0 <= ip < |code|
  {
    match ret
    case Push(i, Push(limit, Push(leave, r))) =>
      var index := Wrap(i + increment);
      if LoopEnds(index, limit, increment < 0) then Running(State(ip + 1, data, r))
      else Jump(code, ip, data, Push(index, ret.under))
    case _ => Fault
  }

  /** Instructions with an operand cell; `ip` is the operand's address. */
  function OperandStep(op: int, code: seq<int>, ip: int, data: CellStack, ret: CellStack): Outcome {
    if !(0 <= ip < |code|) then Fault
    else if op == LITERAL then Running(State(ip + 1, Push(code[ip], data), ret))
    else if op == BRANCH_CHECK || op == BRANCH then Jump(code, ip, data, ret)
    else if op == LOOP then LoopStep(code, ip, data, ret, 1)
    else
      match data
      case Bottom => Fault
      case Push(x, d) =>
        if op == BRANCH0_CHECK || op == BRANCH0 then
          if x != 0 then Running(State(ip + 1, d, ret)) else Jump(code, ip, d, ret)
        else if op == PLUS_LOOP then LoopStep(code, ip, d, ret, x)
        else
          match d
          case Bottom => Fault
          case Push(y, e) =>
            if op == OF then
              if x == y then Running(State(ip + 1, e, ret)) else Jump(code, ip, d, ret)
            else if op == DO || (op == QDO && x != y) then
              Running(State(ip + 1, e, Push(x, Push(y, Push(code[ip], ret)))))
            else if op == QDO then Running(State(code[ip], e, ret))
            else Fault
  }

  /** One turn of the inner loop. */
  function Step(code: seq<int>, s: State): Outcome {
    var State(ip, data, ret) := s;
    if !(0 <= ip < |code|) then Fault else
    var op := code[ip];
    if 1 <= op <= LITERAL_MAX then Running(State(ip + 1, Push(op, data), ret))
    else if ZERO <= op <= LITERAL_MIN then Running(State(ip + 1, Push(ZERO - op, data), ret))
    else if IsPlain(op) then
      match PlainStep(op, data, ret.Peek(0), ret.Peek(3), ret.Peek(6))
      case None => Fault
      case Some(data') => Running(State(ip + 1, data', ret))
    else if op == SEMI || op == EXIT then
      match ret
      case Push(back, r) => Returned(State(back, data, r))
      case Bottom => Fault
    else if op == LEAVE then
      match ret
      case Push(_, Push(_, Push(leave, r))) => Running(State(leave, data, r))
      case _ => Fault
    else OperandStep(op, code, ip + 1, data, ret)
  }

  /** At most `n` turns, stopping early at a return or a fault. */
  function Run(code: seq<int>, s: State, n: nat): Outcome
    decreases n
  {
    if n == 0 then Running(s)
    else match Step(code, s)
      case Running(s') => Run(code, s', n - 1)
      case r => r
  }

  lemma {:induction false} RunConcat(code: seq<int>, s: State, m: nat, n: nat)
    ensures Run(code, s, m + n) ==
            match Run(code, s, m) { case Running(s') => Run(code, s', n) case r => r }
    decreases m
  {
    if m > 0 && Step(code, s).Running? {
      RunConcat(code, Step(code, s).s, m - 1, n);
    }
  }

  /** A run that is over stays over. */
  lemma RunMonotone(code: seq<int>, s: State, m: nat, n: nat)
    requires m <= n && !Run(code, s, m).Running?
    ensures Run(code, s, n) == Run(code, s, m)
  {
    RunConcat(code, s, m, n - m);
  }
}
