/** How often the body of DO ... LOOP runs, on cells that wrap around. */
module CountedLoops {
  import opened Wrappers
  import opened Cells
  import opened Vm
  import opened Structured

  /** The body of a loop, `count` times in a row with the index going up by one; LEAVE ends it early. */
  function Repeat(body: Tree, data: CellStack, index: int, count: nat, env: Env, fuel: nat): Result
    requires count >= 1
    decreases count
  {
    match Exec(body, data, Enter(env, index), fuel)
    case Left(d) => Done(d)
    case Done(d) =>
      if count == 1 then Done(d)
      else if fuel == 0 then Timeout
      else Repeat(body, d, Wrap(index + 1), count - 1, env, fuel - 1)
    case r => r
  }

  /** The number of rounds; only an index that starts at the largest integer wraps around on its way. */
  function Trips(limit: int, start: int): nat
    requires INT_MIN <= limit <= INT_MAX && INT_MIN <= start <= INT_MAX
  {
    if start < limit then limit - start
    else if start == INT_MAX then 1 + (limit - INT_MIN)
    else 1
  }

  /** DO ... LOOP is its body repeated `Trips` times. */
  lemma {:induction false} LoopRepeats(body: Tree, data: CellStack, limit: int, index: int, env: Env, fuel: nat)
    requires INT_MIN <= limit <= INT_MAX && INT_MIN <= index <= INT_MAX
    ensures ExecLoop(false, body, data, limit, index, env, fuel)
            == Repeat(body, data, index, Trips(limit, index), env, fuel)
    decreases fuel
  {
    var r := Exec(body, data, Enter(env, index), fuel);
    if r.Done? && fuel > 0 && !LoopEnds(Wrap(index + 1), limit, false) {
      assert Wrap(index + 1) == if index == INT_MAX then INT_MIN else index + 1;
      LoopRepeats(body, r.data, limit, Wrap(index + 1), env, fuel - 1);
    }
  }

  /** The count is max(1, limit - start) unless the loop starts at the largest integer with a limit other
      than the smallest. */
  lemma TripsAreMax(limit: int, start: int)
    requires INT_MIN <= limit <= INT_MAX && INT_MIN <= start <= INT_MAX
    ensures Trips(limit, start) == (if limit - start > 1 then limit - start else 1)
            <==> !(start == INT_MAX && limit > INT_MIN)
  {
  }

  lemma {:induction false} Counted(x: int, d: CellStack, index: int, count: nat, env: Env, fuel: nat)
    requires 1 <= count <= fuel + 1 && INT_MIN <= x <= INT_MAX
    ensures Repeat(Plain(ONE_PLUS), Push(x, d), index, count, env, fuel) == Done(Push(Wrap(x + count), d))
    decreases count
  {
    if count > 1 {
      Counted(Wrap(x + 1), d, Wrap(index + 1), count - 1, env, fuel - 1);
      WrapTwice(x + 1, count - 1);
    }
  }

  lemma WrapTwice(x: int, y: int)
    ensures Wrap(Wrap(x) + y) == Wrap(x + y)
  {
    var k := (x + CELL_HIGH_BIT) / CELL_MODULUS;
    assert x == Wrap(x) + k * CELL_MODULUS;
    WrapMultiple(Wrap(x) + y, k);
  }

  lemma WrapMultiple(x: int, k: int)
    ensures Wrap(x + k * CELL_MODULUS) == Wrap(x)
  {
  }

  /** A loop that counts its rounds: from the largest integer with limit 0 they are more than two thousand million. */
  lemma CountingLoop(limit: int, start: int, d: CellStack, env: Env, fuel: nat)
    requires INT_MIN <= limit <= INT_MAX && INT_MIN <= start <= INT_MAX && fuel >= Trips(limit, start)
    ensures Exec(Do(false, false, Plain(ONE_PLUS)), Push(start, Push(limit, Push(0, d))), env, fuel)
            == Done(Push(Wrap(Trips(limit, start)), d))
    ensures limit == 0 && start == INT_MAX ==> Trips(limit, start) == 0x8000_0001
  {
    ExecDo(false, false, Plain(ONE_PLUS), Push(start, Push(limit, Push(0, d))), env, fuel);
    LoopRepeats(Plain(ONE_PLUS), Push(0, d), limit, start, env, fuel);
    Counted(0, d, start, Trips(limit, start), env, fuel);
  }

  // Loops that step by any constant: DO .. step +LOOP.

  /** The new index is past the limit: at it or above when counting up, below it when counting down. */
  predicate Past(index: int, limit: int, step: int) {
    if step < 0 then index < limit else index >= limit
  }

  /** The index after so many rounds, in 32 bits. */
  function IndexAfter(start: int, step: int, rounds: int): (i: int)
    ensures -0x8000_0000 <= i <= 0x7fff_ffff
  {
    Wrap(start + rounds * step)
  }

  /** Not past the limit after any of the rounds before the `n`th. */
  predicate Inside(limit: int, start: int, step: int, n: nat) {
    forall m :: 1 <= m < n ==> !Past(IndexAfter(start, step, m), limit, step)
  }

  /** The loop runs `n` rounds: after them the index is past the limit for the first time. */
  predicate Rounds(limit: int, start: int, step: int, n: nat) {
    n >= 1 && Inside(limit, start, step, n) && Past(IndexAfter(start, step, n), limit, step)
  }

  /** The body of a loop, `count` times in a row with the index going up by `step`; LEAVE ends it early. */
  function RepeatBy(body: Tree, data: CellStack, index: int, step: int, count: nat, env: Env, fuel: nat): Result
    requires count >= 1
    decreases count
  {
    match Exec(body, data, Enter(env, index), fuel)
    case Left(d) => Done(d)
    case Done(d) =>
      if count == 1 then Done(d)
      else if fuel == 0 then Timeout
      else RepeatBy(body, d, Wrap(index + step), step, count - 1, env, fuel - 1)
    case r => r
  }

  /**
   DO .. step +LOOP is its body repeated `n` times, on indices that are `step` apart, if the loop runs `n` rounds; or if
   it is not done when the fuel is, as a loop that never gets past its limit.
   */
  lemma {:induction false} PlusLoopRepeats(body: Tree, data: CellStack, limit: int, start: int, step: int, n: nat,
                                           env: Env, fuel: nat)
    requires -0x8000_0000 <= start <= 0x7fff_ffff && n >= 1
    requires Rounds(limit, start, step, n) || (Inside(limit, start, step, n) && n > fuel + 1)
    ensures ExecLoop(true, Then(body, Number(step)), data, limit, start, env, fuel)
            == RepeatBy(body, data, start, step, n, env, fuel)
    decreases fuel
  {
    hide Past, IndexAfter, LoopEnds;
    ExecThen(body, Number(step), data, Enter(env, start), fuel);
    assert IndexAfter(start, step, 1) == Wrap(start + step) by { OneRound(start, step); }
    EndsPast(Wrap(start + step), limit, step);
    var r := Exec(body, data, Enter(env, start), fuel);
    if r.Done? && n > 1 {
      assert !Past(IndexAfter(start, step, 1), limit, step);
      if fuel > 0 {
        var next := IndexAfter(start, step, 1);
        RoundsLater(limit, start, step, n);
        PlusLoopRepeats(body, r.data, limit, next, step, n - 1, env, fuel - 1);
      }
    }
  }

  lemma OneRound(start: int, step: int)
    ensures IndexAfter(start, step, 1) == Wrap(start + step)
  {
  }

  lemma EndsPast(index: int, limit: int, step: int)
    ensures LoopEnds(index, limit, step < 0) <==> Past(index, limit, step)
  {
  }

  lemma MoreRounds(start: int, step: int, m: int, k: int)
    ensures IndexAfter(IndexAfter(start, step, m), step, k) == IndexAfter(start, step, m + k)
  {
    WrapTwice(start + m * step, k * step);
    assert start + m * step + k * step == start + (m + k) * step;
  }

  /** After the first round, one round less. */
  lemma RoundsLater(limit: int, start: int, step: int, n: nat)
    requires n > 1 && Inside(limit, start, step, n)
    ensures Inside(limit, IndexAfter(start, step, 1), step, n - 1)
    ensures Rounds(limit, start, step, n) ==> Rounds(limit, IndexAfter(start, step, 1), step, n - 1)
  {
    hide Past, IndexAfter;
    var next := IndexAfter(start, step, 1);
    forall m | 1 <= m < n - 1 ensures !Past(IndexAfter(next, step, m), limit, step) {
      MoreRounds(start, step, 1, m);
      assert !Past(IndexAfter(start, step, m + 1), limit, step);
    }
    MoreRounds(start, step, 1, n - 1);
  }

  /** After `n` rounds the loop goes on as one that starts at `next`. */
  ghost predicate GoesOnFrom(limit: int, start: int, step: int, n: nat, next: int) {
    forall m: nat :: m >= 1 ==> (Rounds(limit, next, step, m) <==> Rounds(limit, start, step, n + m))
  }

  lemma InsideOn(limit: int, start: int, step: int, n: nat)
    requires n >= 1 && Inside(limit, start, step, n) && !Past(IndexAfter(start, step, n), limit, step)
    ensures GoesOnFrom(limit, start, step, n, IndexAfter(start, step, n))
  {
    hide Rounds, IndexAfter;
    var next := IndexAfter(start, step, n);
    forall m: nat | m >= 1 ensures Rounds(limit, next, step, m) <==> Rounds(limit, start, step, n + m) {
      RoundsOn(limit, start, step, n, m);
    }
  }

  /** Counting goes on after `n` rounds as it does from the index reached. */
  lemma RoundsOn(limit: int, start: int, step: int, n: nat, m: nat)
    requires n >= 1 && m >= 1 && Inside(limit, start, step, n) && !Past(IndexAfter(start, step, n), limit, step)
    ensures Rounds(limit, start, step, n + m) <==> Rounds(limit, IndexAfter(start, step, n), step, m)
  {
    hide Past, IndexAfter;
    var next := IndexAfter(start, step, n);
    MoreRounds(start, step, n, m);
    if Inside(limit, start, step, n + m) {
      forall k | 1 <= k < m ensures !Past(IndexAfter(next, step, k), limit, step) {
        MoreRounds(start, step, n, k);
        assert !Past(IndexAfter(start, step, n + k), limit, step);
      }
    }
    if Inside(limit, next, step, m) {
      forall k | 1 <= k < n + m ensures !Past(IndexAfter(start, step, k), limit, step) {
        if k > n {
          MoreRounds(start, step, n, k - n);
          assert !Past(IndexAfter(next, step, k - n), limit, step);
        }
      }
    }
  }

  lemma TimesAtMost(m: int, n: int, k: int)
    requires m <= n && k >= 0
    ensures m * k <= n * k && (m + 1) * k == m * k + k
  {
  }

  lemma QuotientBounds(x: int, k: int)
    requires k > 0
    ensures x / k * k <= x < x / k * k + k && (x >= 0 ==> x / k >= 0)
  {
  }

  lemma BelowLimit(start: int, limit: int, k: int, n: int)
    requires k >= 1 && n == 1 + (start - limit) / k
    ensures limit - k <= start - n * k < limit && start - (n - 1) * k >= limit
  {
    QuotientBounds(start - limit, k);
    assert n * k == (n - 1) * k + k;
  }

  lemma Downward(start: int, k: int, m: int)
    ensures start + m * -k == start - m * k
  {
  }

  /**
   Counting down from the limit or above it: `1 + (start - limit) / k` rounds. If the last of these steps is past the
   smallest integer instead, the index becomes a large one, and the loop goes on from there.
   */
  lemma CountsDown(limit: int, start: int, k: int)
    requires -0x8000_0000 <= limit <= start <= 0x7fff_ffff && 1 <= k <= 0x8000_0000
    ensures var n := 1 + (start - limit) / k;
            && n >= 1
            && (start - n * k >= -0x8000_0000 ==> Rounds(limit, start, -k, n))
            && (start - n * k < -0x8000_0000 ==>
                GoesOnFrom(limit, start, -k, n, start - n * k + 0x1_0000_0000))
  {
    var n, step := 1 + (start - limit) / k, -k;
    QuotientBounds(start - limit, k);
    BelowLimit(start, limit, k, n);
    forall m | 1 <= m < n ensures !Past(IndexAfter(start, step, m), limit, step) {
      TimesAtMost(m, n - 1, k);
      TimesAtMost(0, m, k);
      Downward(start, k, m);
    }
    Downward(start, k, n);
    if start - n * k < -0x8000_0000 {
      WrapMultiple(start - n * k, 1);
      assert IndexAfter(start, step, n) == start - n * k + 0x1_0000_0000;
      InsideOn(limit, start, step, n);
    }
  }

  /** Counting up from below the limit: `(limit - start + k - 1) / k` rounds, unless the index wraps on the last of them. */
  lemma CountsUp(limit: int, start: int, k: int)
    requires -0x8000_0000 <= start < limit <= 0x7fff_ffff && 1 <= k <= 0x7fff_ffff
    ensures var n := (limit - start + k - 1) / k;
            && n >= 1
            && (start + n * k <= 0x7fff_ffff ==> Rounds(limit, start, k, n))
            && (start + n * k > 0x7fff_ffff ==>
                GoesOnFrom(limit, start, k, n, start + n * k - 0x1_0000_0000))
  {
    var n := (limit - start + k - 1) / k;
    QuotientBounds(limit - start + k - 1, k);
    assert n * k == (n - 1) * k + k;
    forall m | 1 <= m < n ensures !Past(IndexAfter(start, k, m), limit, k) {
      TimesAtMost(m, n - 1, k);
      TimesAtMost(0, m, k);
    }
    if start + n * k > 0x7fff_ffff {
      WrapMultiple(start + n * k, -1);
      assert IndexAfter(start, k, n) == start + n * k - 0x1_0000_0000;
      InsideOn(limit, start, k, n);
    }
  }

  /** A start that is past the limit already: one round, unless the index wraps and is not past it any more. A step of 0
      ends the loop after one round, or never. */
  lemma StartsPast(limit: int, start: int, step: int)
    requires -0x8000_0000 <= limit <= 0x7fff_ffff && -0x8000_0000 <= start <= 0x7fff_ffff
    requires -0x8000_0000 <= step <= 0x7fff_ffff
    ensures step < 0 && start < limit && start + step >= -0x8000_0000 ==> Rounds(limit, start, step, 1)
    ensures step < 0 && start < limit && start + step < -0x8000_0000 ==>
              (Rounds(limit, start, step, 1) <==> start + step + 0x1_0000_0000 < limit)
    ensures step >= 0 && start >= limit && start + step <= 0x7fff_ffff ==> Rounds(limit, start, step, 1)
    ensures step >= 0 && start >= limit && start + step > 0x7fff_ffff ==>
              (Rounds(limit, start, step, 1) <==> start + step - 0x1_0000_0000 >= limit)
    ensures step == 0 ==> forall n: nat :: Rounds(limit, start, step, n) <==> n == 1 && start >= limit
  {
    OneRound(start, step);
    WrapMultiple(start + step, 1);
    WrapMultiple(start + step, -1);
    if step == 0 {
      forall n: nat ensures Rounds(limit, start, step, n) <==> n == 1 && start >= limit {
        assert IndexAfter(start, 0, n) == start && IndexAfter(start, 0, 1) == start;
      }
    }
  }

  /** The indices of a loop that counts down, on top of each other. */
  function Countdown(start: int, k: int, n: nat, d: CellStack): CellStack
    decreases n
  {
    if n == 0 then d else Countdown(start - k, k, n - 1, Push(start, d))
  }

  /** `limit start DO I -k +LOOP` leaves the indices from `start` down to the last one that is not below the limit. */
  lemma CountingDown(limit: int, start: int, k: int, d: CellStack, env: Env, fuel: nat)
    requires -0x8000_0000 <= limit <= start <= 0x7fff_ffff && 1 <= k <= 0x8000_0000
    requires var n := 1 + (start - limit) / k; start - n * k >= -0x8000_0000 && fuel >= n
    ensures Exec(Do(false, true, Then(Plain(INDEX_I), Number(-k))), Push(start, Push(limit, d)), env, fuel)
            == Done(Countdown(start, k, 1 + (start - limit) / k, d))
  {
    var body, n := Then(Plain(INDEX_I), Number(-k)), 1 + (start - limit) / k;
    CountsDown(limit, start, k);
    hide Rounds;
    ExecDo(false, true, body, Push(start, Push(limit, d)), env, fuel);
    PlusLoopRepeats(Plain(INDEX_I), d, limit, start, -k, n, env, fuel);
    IndicesLeft(start, k, n, d, env, fuel);
  }

  lemma {:induction false} IndicesLeft(start: int, k: int, n: nat, d: CellStack, env: Env, fuel: nat)
    requires 1 <= n <= fuel && start <= 0x7fff_ffff && k >= 1 && start - n * k >= -0x8000_0000
    ensures RepeatBy(Plain(INDEX_I), d, start, -k, n, env, fuel) == Done(Countdown(start, k, n, d))
    decreases n
  {
    assert n * k == (n - 1) * k + k;
    TimesAtMost(0, n - 1, k);
    if n > 1 {
      IndicesLeft(start - k, k, n - 1, Push(start, d), env, fuel - 1);
    }
  }

  /** From 4 down to 1: four indices. */
  lemma FourDownToOne(d: CellStack, env: Env, fuel: nat)
    requires fuel >= 4
    ensures Exec(Do(false, true, Then(Plain(INDEX_I), Number(-1))), Push(4, Push(1, d)), env, fuel)
            == Done(Push(1, Push(2, Push(3, Push(4, d)))))
  {
    CountingDown(1, 4, 1, d, env, fuel);
    assert Countdown(4, 1, 4, d) == Countdown(2, 1, 2, Push(3, Push(4, d)));
  }
}
