/**
 * The matrix-vector product of the threading lab: the `n` rows of the
 * matrix are split into `threadCount` contiguous ranges, one per worker,
 * and each worker computes the entries of `y = A x` for the rows of its
 * range. Doubles are modelled as exact reals.
 */
module RowPartition {

  /** The rows one worker handles: `startRow` up to, not including, `endRow`. */
  datatype Task = Task(startRow: nat, endRow: nat)

  function Min(a: nat, b: nat): nat
  {
    if a <= b then a else b
  }

  /**
   * Where range `t` starts when `n` rows go to `threadCount` workers: every
   * range gets `n / threadCount` rows, and the first `n % threadCount`
   * ranges one more.
   */
  function RangeStart(n: nat, threadCount: nat, t: nat): nat
    requires threadCount > 0
  {
    t * (n / threadCount) + Min(t, n % threadCount)
  }

  /** The number of rows in range `t`. */
  function RangeSize(n: nat, threadCount: nat, t: nat): nat
    requires threadCount > 0
  {
    n / threadCount + (if t < n % threadCount then 1 else 0)
  }

  /** Each range ends where the next one starts, `RangeSize` rows after its own start. */
  lemma RangeStep(n: nat, threadCount: nat, t: nat)
    requires threadCount > 0
    ensures RangeStart(n, threadCount, t + 1) == RangeStart(n, threadCount, t) + RangeSize(n, threadCount, t)
  {
    var q := n / threadCount;
    assert (t + 1) * q == t * q + q;
  }

  /** The first range starts at row 0 and the last one ends at row `n`. */
  lemma RangesSpan(n: nat, threadCount: nat)
    requires threadCount > 0
    ensures RangeStart(n, threadCount, 0) == 0
    ensures RangeStart(n, threadCount, threadCount) == n
  {
    assert threadCount * (n / threadCount) + n % threadCount == n;
  }

  /** Range sizes are `n / threadCount` or one more, so any two differ by at most one. */
  lemma RangesBalanced(n: nat, threadCount: nat, t: nat, u: nat)
    requires threadCount > 0
    ensures n / threadCount <= RangeSize(n, threadCount, t) <= n / threadCount + 1
    ensures RangeSize(n, threadCount, t) - RangeSize(n, threadCount, u) <= 1
  {
  }

  /** Later ranges start no earlier: range `t` ends at or before range `u` starts when `t < u`. */
  lemma {:induction false} RangesOrdered(n: nat, threadCount: nat, t: nat, u: nat)
    requires threadCount > 0 && t < u
    ensures RangeStart(n, threadCount, t + 1) <= RangeStart(n, threadCount, u)
    decreases u - t
  {
    if t + 1 < u {
      RangeStep(n, threadCount, t + 1);
      RangesOrdered(n, threadCount, t + 1, u);
    }
  }

  /** Row `i` lies in range `t`. */
  predicate InRange(n: nat, threadCount: nat, t: nat, i: nat)
    requires threadCount > 0
  {
    RangeStart(n, threadCount, t) <= i < RangeStart(n, threadCount, t + 1)
  }

  /** The range, searched from `t` on, that holds row `i`. */
  function OwnerFrom(n: nat, threadCount: nat, i: nat, t: nat): (r: nat)
    requires threadCount > 0 && t < threadCount && RangeStart(n, threadCount, t) <= i < n
    ensures t <= r < threadCount && InRange(n, threadCount, r, i)
    decreases threadCount - t
  {
    RangeStep(n, threadCount, t);
    RangesSpan(n, threadCount);
    if i < RangeStart(n, threadCount, t + 1) then t
    else OwnerFrom(n, threadCount, i, t + 1)
  }

  /** The worker whose range holds row `i`. */
  function Owner(n: nat, threadCount: nat, i: nat): (r: nat)
    requires threadCount > 0 && i < n
  {
    RangesSpan(n, threadCount);
    OwnerFrom(n, threadCount, i, 0)
  }

  /** The ranges cover the rows `[0, n)` exactly once: every row lies in one range and in no other. */
  lemma RowsCoveredOnce(n: nat, threadCount: nat, i: nat, t: nat)
    requires threadCount > 0 && i < n && t < threadCount
    ensures Owner(n, threadCount, i) < threadCount && InRange(n, threadCount, Owner(n, threadCount, i), i)
    ensures InRange(n, threadCount, t, i) <==> t == Owner(n, threadCount, i)
  {
    var o := Owner(n, threadCount, i);
    if t < o {
      RangesOrdered(n, threadCount, t, o);
    } else if o < t {
      RangesOrdered(n, threadCount, o, t);
    }
  }

  /** No range lies beyond the rows: every range ends at or before `n`. */
  lemma RangesWithin(n: nat, threadCount: nat, t: nat)
    requires threadCount > 0 && t < threadCount
    ensures RangeStart(n, threadCount, t) <= RangeStart(n, threadCount, t + 1) <= n
  {
    RangeStep(n, threadCount, t);
    RangesSpan(n, threadCount);
    if t + 1 < threadCount {
      RangesOrdered(n, threadCount, t, threadCount);
    }
  }

  /**
   * The partition loop of `main`: with `current` starting at 0, task `t`
   * runs from `current` for `n / threadCount` rows, plus one while
   * `t < n % threadCount`, and `current` moves to its end.
   */
  method PlanRows(n: nat, threadCount: nat) returns (tasks: array<Task>)
    requires threadCount > 0
    ensures fresh(tasks) && tasks.Length == threadCount
    ensures forall t :: 0 <= t < threadCount ==>
      tasks[t] == Task(RangeStart(n, threadCount, t), RangeStart(n, threadCount, t + 1))
  {
    tasks := new Task[threadCount](_ => Task(0, 0));
    var rowsPerThread := n / threadCount;
    var remainder := n % threadCount;
    var current := 0;
    for t := 0 to threadCount
      invariant current == RangeStart(n, threadCount, t)
      invariant forall s :: 0 <= s < t ==>
        tasks[s] == Task(RangeStart(n, threadCount, s), RangeStart(n, threadCount, s + 1))
    {
      var startRow := current;
      var endRow := startRow + rowsPerThread + (if t < remainder then 1 else 0);
      RangeStep(n, threadCount, t);
      current := endRow;
      tasks[t] := Task(startRow, endRow);
    }
  }

  /** The sum of `a[j] * x[j]` over `j < k`. */
  function Dot(a: seq<real>, x: seq<real>, k: nat): real
    requires k <= |a| && k <= |x|
  {
    if k == 0 then 0.0 else Dot(a, x, k - 1) + a[k - 1] * x[k - 1]
  }

  /** Entry `i` of `A x`: row `i` of `A` against `x`, over the length of `x`. */
  function Entry(A: seq<seq<real>>, x: seq<real>, i: nat): real
    requires i < |A| && |x| <= |A[i]|
  {
    Dot(A[i], x, |x|)
  }

  /** The rows of `A` are at least as long as `x`, so every product the workers form exists. */
  predicate Conformable(A: seq<seq<real>>, x: seq<real>)
  {
    forall i :: 0 <= i < |A| ==> |x| <= |A[i]|
  }

  /**
   * One worker: for each row of its range it sums the products of the
   * row with `x` and stores the sum in `y`. It writes no entry of `y`
   * outside its range.
   */
  method Worker(A: seq<seq<real>>, x: seq<real>, y: array<real>, task: Task)
    requires Conformable(A, x) && task.endRow <= |A| && task.endRow <= y.Length
    modifies y
    ensures forall i :: task.startRow <= i < task.endRow ==> y[i] == Entry(A, x, i)
    ensures forall i :: 0 <= i < y.Length && !(task.startRow <= i < task.endRow) ==> y[i] == old(y[i])
  {
    var i := task.startRow;
    while i < task.endRow
      invariant task.startRow <= i <= task.endRow || i == task.startRow
      invariant forall r :: task.startRow <= r < i ==> y[r] == Entry(A, x, r)
      invariant forall r :: 0 <= r < y.Length && !(task.startRow <= r < i) ==> y[r] == old(y[r])
    {
      var sum := 0.0;
      for j := 0 to |x|
        invariant sum == Dot(A[i], x, j)
      {
        sum := sum + A[i][j] * x[j];
      }
      y[i] := sum;
      i := i + 1;
    }
  }

  /**
   * All workers of a plan, one after another. Their ranges are disjoint,
   * so the order does not matter; afterwards every entry of `y` is the
   * matching entry of `A x`.
   */
  method MultiplyAll(A: seq<seq<real>>, x: seq<real>, y: array<real>, threadCount: nat)
    requires threadCount > 0 && Conformable(A, x) && y.Length == |A|
    modifies y
    ensures forall i :: 0 <= i < y.Length ==> y[i] == Entry(A, x, i)
  {
    var n := |A|;
    var tasks := PlanRows(n, threadCount);
    RangesSpan(n, threadCount);
    ghost var done := 0;
    for t := 0 to threadCount
      invariant forall s :: 0 <= s < threadCount ==>
        tasks[s] == Task(RangeStart(n, threadCount, s), RangeStart(n, threadCount, s + 1))
      invariant done == RangeStart(n, threadCount, t) && done <= n
      invariant forall i :: 0 <= i < done ==> y[i] == Entry(A, x, i)
    {
      var task := tasks[t];
      RangesWithin(n, threadCount, t);
      Worker(A, x, y, task);
      done := task.endRow;
    }
  }
}
