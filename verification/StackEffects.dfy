/** The instructions on the data stack, by their stack comments: what they take and what they leave, the top last. */
module StackEffects {
  import opened Wrappers
  import opened Cells
  import opened Vm

  /** The cells put on a stack one after the other. */
  function Stacked(cells: seq<int>, d: CellStack): CellStack {
    if cells == [] then d else Stacked(cells[1..], Push(cells[0], d))
  }

  function Depth(d: CellStack): nat {
    match d
    case Bottom => 0
    case Push(_, under) => 1 + Depth(under)
  }

  predicate IsIndex(op: int) {
    op == INDEX_I || op == INDEX_J || op == INDEX_K
  }

  /** How many cells are taken. */
  function Takes(op: int): (n: nat)
    ensures n <= 3
  {
    if IsIndex(op) then 0
    else if op in {DUP, QUESTION_DUP, DROP, ONE_PLUS, ONE_MINUS, ZERO_LESS, ZERO_EQUALS} then 1
    else if op in {SWAP, OVER, PLUS, MINUS, LESS, GREATER, EQUALS} then 2
    else 3
  }

  /** The number between the smallest and the largest cell that differs by a multiple of 2 to the 32. */
  predicate IsCellOf(r: int, x: int) {
    -0x8000_0000 <= r <= 0x7fff_ffff && (r - x) % 0x1_0000_0000 == 0
  }

  predicate IsFlagOf(r: int, b: bool) {
    r == if b then -1 else 0
  }

  /** `a` are the cells taken, and `r` those left in their place. */
  predicate Effect(op: int, a: seq<int>, r: seq<int>)
    requires |a| == Takes(op) && !IsIndex(op)
  {
    if op == DUP then r == [a[0], a[0]]                                       // x -- x x
    else if op == QUESTION_DUP then r == if a[0] == 0 then [0] else [a[0], a[0]]
    else if op == DROP then r == []                                           // x --
    else if op == ONE_PLUS then |r| == 1 && IsCellOf(r[0], a[0] + 1)
    else if op == ONE_MINUS then |r| == 1 && IsCellOf(r[0], a[0] - 1)
    else if op == ZERO_LESS then |r| == 1 && IsFlagOf(r[0], a[0] < 0)
    else if op == ZERO_EQUALS then |r| == 1 && IsFlagOf(r[0], a[0] == 0)
    else if op == SWAP then r == [a[1], a[0]]                                 // x y -- y x
    else if op == OVER then r == [a[0], a[1], a[0]]                           // x y -- x y x
    else if op == PLUS then |r| == 1 && IsCellOf(r[0], a[0] + a[1])
    else if op == MINUS then |r| == 1 && IsCellOf(r[0], a[0] - a[1])
    else if op == LESS then |r| == 1 && IsFlagOf(r[0], a[0] < a[1])
    else if op == GREATER then |r| == 1 && IsFlagOf(r[0], a[0] > a[1])
    else if op == EQUALS then |r| == 1 && IsFlagOf(r[0], a[0] == a[1])
    else r == [a[1], a[2], a[0]]                                              // x y z -- y z x
  }

  lemma StackedOne(x: int, d: CellStack)
    ensures Stacked([], d) == d && Stacked([x], d) == Push(x, d)
  {
    assert [x][1..] == [];
  }

  lemma StackedTwo(x: int, y: int, d: CellStack)
    ensures Stacked([x, y], d) == Push(y, Push(x, d))
  {
    assert [x, y][1..] == [y];
    StackedOne(y, Push(x, d));
  }

  lemma StackedThree(x: int, y: int, z: int, d: CellStack)
    ensures Stacked([x, y, z], d) == Push(z, Push(y, Push(x, d)))
  {
    assert [x, y, z][1..] == [y, z];
    StackedTwo(y, z, Push(x, d));
  }

  /** Enough cells on the stack: those on top give way to what the stack comment says, and the rest stays. */
  lemma PlainEffect(op: int, a: seq<int>, d: CellStack, i: Option<int>, j: Option<int>, k: Option<int>)
    returns (r: seq<int>)
    requires IsPlain(op) && !IsIndex(op) && |a| == Takes(op)
    ensures Effect(op, a, r) && PlainStep(op, Stacked(a, d), i, j, k) == Some(Stacked(r, d))
  {
    hide Stacked, Wrap;
    if |a| == 1 {
      StackedOne(a[0], d);
      assert a == [a[0]];
      r := OneEffect(op, a[0], d, i, j, k);
    } else if |a| == 2 {
      StackedTwo(a[0], a[1], d);
      assert a == [a[0], a[1]];
      r := TwoEffect(op, a[0], a[1], d, i, j, k);
    } else {
      StackedThree(a[0], a[1], a[2], d);
      assert a == [a[0], a[1], a[2]];
      r := [a[1], a[2], a[0]];
      StackedThree(a[1], a[2], a[0], d);
    }
  }

  lemma OneEffect(op: int, x: int, d: CellStack, i: Option<int>, j: Option<int>, k: Option<int>) returns (r: seq<int>)
    requires IsPlain(op) && Takes(op) == 1 && !IsIndex(op)
    ensures Effect(op, [x], r) && PlainStep(op, Push(x, d), i, j, k) == Some(Stacked(r, d))
  {
    hide Stacked, Wrap;
    StackedTwo(x, x, d);
    if op == DUP { r := [x, x]; }
    else if op == QUESTION_DUP { r := if x == 0 then [0] else [x, x]; }
    else if op == DROP { r := []; }
    else if op == ONE_PLUS { r := [Wrap(x + 1)]; }
    else if op == ONE_MINUS { r := [Wrap(x - 1)]; }
    else if op == ZERO_LESS { r := [if x < 0 then -1 else 0]; }
    else { r := [if x == 0 then -1 else 0]; }
    StackedOne(if r == [] then 0 else r[0], d);
    if |r| == 1 { assert r == [r[0]]; }
  }

  lemma TwoEffect(op: int, x: int, y: int, d: CellStack, i: Option<int>, j: Option<int>, k: Option<int>)
    returns (r: seq<int>)
    requires IsPlain(op) && Takes(op) == 2
    ensures Effect(op, [x, y], r) && PlainStep(op, Push(y, Push(x, d)), i, j, k) == Some(Stacked(r, d))
  {
    hide Stacked, Wrap;
    StackedTwo(y, x, d);
    StackedThree(x, y, x, d);
    if op == SWAP { r := [y, x]; }
    else if op == OVER { r := [x, y, x]; }
    else if op == PLUS { r := [Wrap(x + y)]; }
    else if op == MINUS { r := [Wrap(x - y)]; }
    else if op == LESS { r := [if x < y then -1 else 0]; }
    else if op == GREATER { r := [if x > y then -1 else 0]; }
    else { r := [if x == y then -1 else 0]; }
    StackedOne(r[0], d);
    if |r| == 1 { assert r == [r[0]]; }
  }

  /** Too few cells are a fault, and nothing else is; an index is put on top if there is one. */
  lemma PlainFaults(op: int, data: CellStack, i: Option<int>, j: Option<int>, k: Option<int>)
    requires IsPlain(op)
    ensures !IsIndex(op) ==> (PlainStep(op, data, i, j, k) == None <==> Depth(data) < Takes(op))
    ensures op == INDEX_I ==> PlainStep(op, data, i, j, k) == match i case None => None case Some(x) => Some(Push(x, data))
    ensures op == INDEX_J ==> PlainStep(op, data, i, j, k) == match j case None => None case Some(x) => Some(Push(x, data))
    ensures op == INDEX_K ==> PlainStep(op, data, i, j, k) == match k case None => None case Some(x) => Some(Push(x, data))
  {
    hide Wrap;
    if data.Push? && data.under.Push? { assert Depth(data.under) == 1 + Depth(data.under.under); }
  }
}
