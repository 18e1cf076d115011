/**
 * The benchmark around the ordered list: the warm-up that fills the list,
 * the per-worker loop that applies a stream of operations and keeps the six
 * counters, and the driver that runs every worker's stream against one
 * shared list and one shared set of counters.
 *
 * The random streams of the original are inputs here: a worker receives its
 * operations as a sequence of (kind, key) pairs, the warm-up receives the
 * keys it draws, and the driver receives the order in which the workers'
 * operations take effect (a schedule of worker indices).
 */
module Benchmark {
  import opened OrderedList

  datatype Kind = MemberOp | InsertOp | DeleteOp

  /** One operation a worker applies: its kind and its key. */
  datatype Op = Op(kind: Kind, key: int)

  /** The six counters: attempts and successes per operation kind. */
  datatype Tally = Tally(memberTotal: nat, insertTotal: nat, deleteTotal: nat,
                         memberOk: nat, insertOk: nat, deleteOk: nat)

  const Zero := Tally(0, 0, 0, 0, 0, 0)

  function Attempts(t: Tally): nat
  {
    t.memberTotal + t.insertTotal + t.deleteTotal
  }

  /** No success counter is ahead of its attempt counter. */
  predicate OkWithinTotals(t: Tally)
  {
    t.memberOk <= t.memberTotal && t.insertOk <= t.insertTotal && t.deleteOk <= t.deleteTotal
  }

  function Plus(a: Tally, b: Tally): Tally
  {
    Tally(a.memberTotal + b.memberTotal, a.insertTotal + b.insertTotal, a.deleteTotal + b.deleteTotal,
          a.memberOk + b.memberOk, a.insertOk + b.insertOk, a.deleteOk + b.deleteOk)
  }

  /** The total counter of `kind`. */
  function TotalOf(t: Tally, kind: Kind): nat
  {
    match kind
    case MemberOp => t.memberTotal
    case InsertOp => t.insertTotal
    case DeleteOp => t.deleteTotal
  }

  /** The success counter of `kind`. */
  function OkOf(t: Tally, kind: Kind): nat
  {
    match kind
    case MemberOp => t.memberOk
    case InsertOp => t.insertOk
    case DeleteOp => t.deleteOk
  }

  /**
   * The counting rule of one worker iteration: the total of the operation's
   * kind moves by one, its success counter moves by one exactly when the
   * operation returned true, and no other counter moves.
   */
  function Count(t: Tally, kind: Kind, ok: bool): (r: Tally)
    ensures forall k :: TotalOf(r, k) == TotalOf(t, k) + (if k == kind then 1 else 0)
    ensures forall k :: OkOf(r, k) == OkOf(t, k) + (if k == kind && ok then 1 else 0)
  {
    var d := if ok then 1 else 0;
    match kind
    case MemberOp => t.(memberTotal := t.memberTotal + 1, memberOk := t.memberOk + d)
    case InsertOp => t.(insertTotal := t.insertTotal + 1, insertOk := t.insertOk + d)
    case DeleteOp => t.(deleteTotal := t.deleteTotal + 1, deleteOk := t.deleteOk + d)
  }

  /** What one operation does to the abstract key sequence, and what it returns. */
  function Apply(keys: seq<int>, op: Op): (seq<int>, bool)
  {
    match op.kind
    case MemberOp => (keys, op.key in keys)
    case InsertOp => (SortedInsert(keys, op.key), op.key !in keys)
    case DeleteOp => (Without(keys, op.key), op.key in keys)
  }

  /**
   * The keys after applying `ops` in order to `keys`, and the counters those
   * operations contribute; no success counter passes its total.
   */
  function Replay(keys: seq<int>, ops: seq<Op>): (r: (seq<int>, Tally))
    ensures OkWithinTotals(r.1)
    decreases |ops|
  {
    if ops == [] then (keys, Zero)
    else
      var (ks, t) := Replay(keys, ops[..|ops| - 1]);
      var (ks', ok) := Apply(ks, ops[|ops| - 1]);
      (ks', Count(t, ops[|ops| - 1].kind, ok))
  }

  /** Replaying one more operation: apply it to the keys, count it in the tally. */
  lemma ReplayStep(keys: seq<int>, ops: seq<Op>, i: nat)
    requires i < |ops|
    ensures Replay(keys, ops[..i + 1]) ==
      var (ks, t) := Replay(keys, ops[..i]);
      var (ks', ok) := Apply(ks, ops[i]);
      (ks', Count(t, ops[i].kind, ok))
  {
    assert ops[..i + 1][..i] == ops[..i];
  }

  /** Replaying one more operation applies it to the keys and counts it. */
  lemma ReplaySnoc(keys: seq<int>, done: seq<Op>, op: Op)
    ensures Replay(keys, done + [op]) ==
      var (ks, t) := Replay(keys, done);
      var (ks', ok) := Apply(ks, op);
      (ks', Count(t, op.kind, ok))
  {
    assert (done + [op])[..|done|] == done;
  }

  lemma PlusCount(a: Tally, t: Tally, kind: Kind, ok: bool)
    ensures Plus(a, Count(t, kind, ok)) == Count(Plus(a, t), kind, ok)
  {
  }

  /** Every operation is attempted exactly once: the attempt counters add up to `|ops|`. */
  lemma {:induction false} ReplayAttempts(keys: seq<int>, ops: seq<Op>)
    ensures Attempts(Replay(keys, ops).1) == |ops|
    decreases |ops|
  {
    if ops != [] {
      ReplayAttempts(keys, ops[..|ops| - 1]);
    }
  }

  /** How many of `ops` have kind `kind`. */
  function KindCount(ops: seq<Op>, kind: Kind): nat
  {
    if ops == [] then 0
    else KindCount(ops[..|ops| - 1], kind) + (if ops[|ops| - 1].kind == kind then 1 else 0)
  }

  /** Each kind's attempt counter ends up equal to the number of operations of that kind. */
  lemma {:induction false} ReplayKindTotals(keys: seq<int>, ops: seq<Op>, kind: Kind)
    ensures TotalOf(Replay(keys, ops).1, kind) == KindCount(ops, kind)
    decreases |ops|
  {
    if ops != [] {
      ReplayKindTotals(keys, ops[..|ops| - 1], kind);
    }
  }

  /** Every operation keeps the list strictly ascending. */
  lemma {:induction false} ReplayAscending(keys: seq<int>, ops: seq<Op>)
    requires StrictlyAscending(keys)
    ensures StrictlyAscending(Replay(keys, ops).0)
    decreases |ops|
  {
    if ops != [] {
      var prefix := ops[..|ops| - 1];
      var op := ops[|ops| - 1];
      ReplayAscending(keys, prefix);
      var ks := Replay(keys, prefix).0;
      if op.kind == InsertOp {
        SortedInsertAscending(ks, op.key);
      } else if op.kind == DeleteOp {
        WithoutAscending(ks, op.key);
      }
    }
  }

  /** The warm-up's operations: one Insert per drawn key. */
  function Inserts(draws: seq<int>): (ops: seq<Op>)
    ensures |ops| == |draws|
  {
    if draws == [] then []
    else Inserts(draws[..|draws| - 1]) + [Op(InsertOp, draws[|draws| - 1])]
  }

  /** The warm-up's `j`-th attempt inserts the `j`-th key drawn. */
  lemma {:induction false} InsertsEach(draws: seq<int>, j: nat)
    requires j < |draws|
    ensures Inserts(draws)[j] == Op(InsertOp, draws[j])
  {
    var init := draws[..|draws| - 1];
    if j < |init| {
      InsertsEach(init, j);
    }
  }

  /** One more warm-up attempt: the drawn key is inserted into the keys so far. */
  lemma InsertsStep(keys: seq<int>, draws: seq<int>, a: nat)
    requires a < |draws|
    ensures Replay(keys, Inserts(draws[..a + 1])) ==
      var (ks, t) := Replay(keys, Inserts(draws[..a]));
      (SortedInsert(ks, draws[a]), Count(t, InsertOp, draws[a] !in ks))
  {
    var ops := Inserts(draws[..a + 1]);
    assert draws[..a + 1][..a] == draws[..a];
    assert ops == Inserts(draws[..a]) + [Op(InsertOp, draws[a])];
    assert ops[..a] == Inserts(draws[..a]);
    ReplayStep(keys, ops, a);
    assert ops[..a + 1] == ops;
  }

  /** During the warm-up, every successful Insert adds exactly one key and a failed one none. */
  lemma {:induction false} ReplayInsertsGrowth(keys: seq<int>, draws: seq<int>)
    requires StrictlyAscending(keys)
    ensures |Replay(keys, Inserts(draws)).0| == |keys| + Replay(keys, Inserts(draws)).1.insertOk
    decreases |draws|
  {
    if draws != [] {
      var prefix := draws[..|draws| - 1];
      var k := draws[|draws| - 1];
      var ops := Inserts(draws);
      assert ops == Inserts(prefix) + [Op(InsertOp, k)];
      assert ops[..|draws| - 1] == Inserts(prefix);
      ReplayInsertsGrowth(keys, prefix);
      ReplayAscending(keys, Inserts(prefix));
      var (ks, t) := Replay(keys, Inserts(prefix));
      SortedInsertLength(ks, k);
      ReplayStep(keys, ops, |draws| - 1);
      assert ops[..|draws|] == ops;
      assert Replay(keys, ops) == (SortedInsert(ks, k), Count(t, InsertOp, k !in ks));
    }
  }

  /** The shared counters structure, updated in place by every worker. */
  class Counters {
    var memberTotal: nat
    var insertTotal: nat
    var deleteTotal: nat
    var memberOk: nat
    var insertOk: nat
    var deleteOk: nat

    constructor ()
      ensures Snapshot() == Zero
    {
      memberTotal, insertTotal, deleteTotal := 0, 0, 0;
      memberOk, insertOk, deleteOk := 0, 0, 0;
    }

    function Snapshot(): Tally
      reads this
    {
      Tally(memberTotal, insertTotal, deleteTotal, memberOk, insertOk, deleteOk)
    }
  }

  /**
   * One iteration of a worker: bump the attempt counter of the operation's
   * kind, run the operation on the list, and bump the kind's success counter
   * when it returned true.
   */
  method Execute(list: List, op: Op, c: Counters) returns (ok: bool)
    requires list.Valid() && c !in list.Repr
    modifies list.Repr, c
    ensures list.Valid() && fresh(list.Repr - old(list.Repr)) && c !in list.Repr
    ensures (list.Keys, ok) == Apply(old(list.Keys), op)
    ensures c.Snapshot() == Count(old(c.Snapshot()), op.kind, ok)
  {
    match op.kind
    case MemberOp =>
      c.memberTotal := c.memberTotal + 1;
      ok := list.Member(op.key);
      if ok { c.memberOk := c.memberOk + 1; }
    case InsertOp =>
      c.insertTotal := c.insertTotal + 1;
      ok := list.Insert(op.key);
      if ok { c.insertOk := c.insertOk + 1; }
    case DeleteOp =>
      c.deleteTotal := c.deleteTotal + 1;
      ok := list.Delete(op.key);
      if ok { c.deleteOk := c.deleteOk + 1; }
  }

  /**
   * A worker: applies its operations in order; the list ends as `Replay`
   * says and the counters grow by `Replay`'s tally.
   */
  method Worker(list: List, ops: seq<Op>, c: Counters)
    requires list.Valid() && c !in list.Repr
    modifies list.Repr, c
    ensures list.Valid() && fresh(list.Repr - old(list.Repr)) && c !in list.Repr
    ensures list.Keys == Replay(old(list.Keys), ops).0
    ensures c.Snapshot() == Plus(old(c.Snapshot()), Replay(old(list.Keys), ops).1)
  {
    var i := 0;
    while i < |ops|
      invariant 0 <= i <= |ops|
      invariant list.Valid() && fresh(list.Repr - old(list.Repr)) && c !in list.Repr
      invariant list.Keys == Replay(old(list.Keys), ops[..i]).0
      invariant c.Snapshot() == Plus(old(c.Snapshot()), Replay(old(list.Keys), ops[..i]).1)
    {
      ghost var t := Replay(old(list.Keys), ops[..i]).1;
      ghost var before := c.Snapshot();
      var ok := Execute(list, ops[i], c);
      ReplayStep(old(list.Keys), ops, i);
      PlusCount(old(c.Snapshot()), t, ops[i].kind, ok);
      i := i + 1;
    }
    assert ops[..|ops|] == ops;
  }

  /** The keys after the warm-up attempts `draws`, and how many of them inserted a key. */
  ghost function WarmUp(keys: seq<int>, draws: seq<int>): (seq<int>, nat)
  {
    var (ks, t) := Replay(keys, Inserts(draws));
    (ks, t.insertOk)
  }

  /** One more warm-up attempt inserts the drawn key, and counts it when it was absent. */
  lemma WarmUpStep(keys: seq<int>, draws: seq<int>, a: nat)
    requires a < |draws|
    ensures WarmUp(keys, draws[..a + 1]) ==
      var (ks, ins) := WarmUp(keys, draws[..a]);
      (SortedInsert(ks, draws[a]), if draws[a] in ks then ins else ins + 1)
  {
    InsertsStep(keys, draws, a);
  }

  /**
   * The warm-up: insert drawn keys until `n` inserts succeeded or `50 * n`
   * attempts were made. `draws` is the random key stream; it is long enough
   * for every attempt the loop can make.
   */
  method Populate(list: List, n: nat, draws: seq<int>) returns (ins: nat, attempts: nat)
    requires list.Valid() && |draws| >= 50 * n
    modifies list.Repr
    ensures list.Valid() && fresh(list.Repr - old(list.Repr))
    ensures ins <= n && attempts <= 50 * n && ins <= attempts
    ensures ins == n || attempts == 50 * n
    ensures list.Keys == Replay(old(list.Keys), Inserts(draws[..attempts])).0
    ensures ins == Replay(old(list.Keys), Inserts(draws[..attempts])).1.insertOk
    ensures |list.Keys| == |old(list.Keys)| + ins
  {
    var limit := n * 50;
    ins, attempts := 0, 0;
    ghost var keys := list.Keys;
    AscendingPairs(keys);
    while ins < n && attempts < limit
      invariant ins <= n && attempts <= limit && ins <= attempts
      invariant list.Valid() && fresh(list.Repr - old(list.Repr))
      invariant (list.Keys, ins) == WarmUp(keys, draws[..attempts])
    {
      WarmUpStep(keys, draws, attempts);
      var ok := list.Insert(draws[attempts]);
      if ok {
        ins := ins + 1;
      }
      attempts := attempts + 1;
    }
    ReplayInsertsGrowth(old(list.Keys), draws[..attempts]);
  }

  /** How many times worker `t` appears in `schedule`. */
  function Occurrences(schedule: seq<nat>, t: nat): nat
  {
    if schedule == [] then 0
    else Occurrences(schedule[..|schedule| - 1], t) + (if schedule[|schedule| - 1] == t then 1 else 0)
  }

  /** A prefix of the schedule has given worker `t` no more turns than the whole schedule. */
  lemma {:induction false} OccurrencesPrefix(schedule: seq<nat>, i: nat, t: nat)
    requires i <= |schedule|
    ensures Occurrences(schedule[..i], t) <= Occurrences(schedule, t)
    decreases |schedule| - i
  {
    if i < |schedule| {
      OccurrencesPrefix(schedule, i + 1, t);
      assert schedule[..i + 1][..i] == schedule[..i];
    } else {
      assert schedule[..i] == schedule;
    }
  }

  /** Turn `i` of the schedule is one more turn for its worker and for no other. */
  lemma OccurrencesStep(schedule: seq<nat>, i: nat)
    requires i < |schedule|
    ensures forall t ::
      Occurrences(schedule[..i + 1], t) ==
      Occurrences(schedule[..i], t) + (if schedule[i] == t then 1 else 0)
  {
    assert schedule[..i + 1][..i] == schedule[..i];
  }

  /** The turns of workers `0 .. n - 1` together. */
  function OccurrenceSum(schedule: seq<nat>, n: nat): nat
  {
    if n == 0 then 0 else OccurrenceSum(schedule, n - 1) + Occurrences(schedule, n - 1)
  }

  lemma {:induction false} OccurrenceSumAppend(schedule: seq<nat>, x: nat, n: nat)
    ensures OccurrenceSum(schedule + [x], n) == OccurrenceSum(schedule, n) + (if x < n then 1 else 0)
  {
    assert (schedule + [x])[..|schedule|] == schedule;
    if n > 0 {
      OccurrenceSumAppend(schedule, x, n - 1);
    }
  }

  /** When every turn belongs to one of workers `0 .. n - 1`, their turns add up to the schedule's length. */
  lemma {:induction false} OccurrenceSumLength(schedule: seq<nat>, n: nat)
    requires forall x :: x in schedule ==> x < n
    ensures OccurrenceSum(schedule, n) == |schedule|
    decreases |schedule|
  {
    if schedule == [] {
      OccurrenceSumUniform(schedule, n, 0);
    } else {
      var prefix := schedule[..|schedule| - 1];
      assert schedule == prefix + [schedule[|schedule| - 1]];
      assert forall x :: x in prefix ==> x in schedule;
      assert schedule[|schedule| - 1] in schedule;
      OccurrenceSumLength(prefix, n);
      OccurrenceSumAppend(prefix, schedule[|schedule| - 1], n);
    }
  }

  lemma {:induction false} OccurrenceSumUniform(schedule: seq<nat>, n: nat, ops: nat)
    requires forall t :: 0 <= t < n ==> Occurrences(schedule, t) == ops
    ensures OccurrenceSum(schedule, n) == n * ops
  {
    if n > 0 {
      OccurrenceSumUniform(schedule, n - 1, ops);
    }
  }

  /**
   * With `threads` workers of `opsPerThread` operations each, any schedule
   * that gives every worker all its turns has `threads * opsPerThread` steps,
   * so that many operations are attempted in all.
   */
  lemma TotalOperations(schedule: seq<nat>, threads: nat, opsPerThread: nat)
    requires forall i :: 0 <= i < |schedule| ==> schedule[i] < threads
    requires forall t :: 0 <= t < threads ==> Occurrences(schedule, t) == opsPerThread
    ensures |schedule| == threads * opsPerThread
  {
    assert forall x :: x in schedule ==> x < threads;
    OccurrenceSumLength(schedule, threads);
    OccurrenceSumUniform(schedule, threads, opsPerThread);
  }

  /**
   * `schedule` is a possible order of turns for the workers owning `streams`:
   * every turn names a worker, and no worker gets more turns than it has
   * operations.
   */
  ghost predicate Fits(streams: seq<seq<Op>>, schedule: seq<nat>)
  {
    (forall i :: 0 <= i < |schedule| ==> schedule[i] < |streams|) &&
    (forall t :: 0 <= t < |streams| ==> Occurrences(schedule, t) <= |streams[t]|)
  }

  lemma FitsPrefix(streams: seq<seq<Op>>, schedule: seq<nat>, i: nat)
    requires Fits(streams, schedule) && i <= |schedule|
    ensures Fits(streams, schedule[..i])
  {
    forall t | 0 <= t < |streams| ensures Occurrences(schedule[..i], t) <= |streams[t]| {
      OccurrencesPrefix(schedule, i, t);
    }
  }

  /**
   * The operations in the order `schedule` gives them effect: turn `i` takes
   * the next operation, not yet taken, of worker `schedule[i]`.
   */
  ghost function Interleaving(streams: seq<seq<Op>>, schedule: seq<nat>): (r: seq<Op>)
    requires Fits(streams, schedule)
    ensures |r| == |schedule|
    decreases |schedule|
  {
    if schedule == [] then []
    else
      var prefix := schedule[..|schedule| - 1];
      var t := schedule[|schedule| - 1];
      FitsPrefix(streams, schedule, |schedule| - 1);
      Interleaving(streams, prefix) + [streams[t][Occurrences(prefix, t)]]
  }

  /** Turn `i` of the schedule adds one operation to the interleaving: the next one of its worker. */
  lemma InterleavingStep(streams: seq<seq<Op>>, schedule: seq<nat>, i: nat)
    requires Fits(streams, schedule) && i < |schedule|
    ensures Fits(streams, schedule[..i]) && Fits(streams, schedule[..i + 1])
    ensures schedule[i] < |streams| && Occurrences(schedule[..i], schedule[i]) < |streams[schedule[i]]|
    ensures Interleaving(streams, schedule[..i + 1]) ==
      Interleaving(streams, schedule[..i]) + [streams[schedule[i]][Occurrences(schedule[..i], schedule[i])]]
  {
    FitsPrefix(streams, schedule, i);
    FitsPrefix(streams, schedule, i + 1);
    assert schedule[..i + 1][..i] == schedule[..i];
  }

  /**
   * The pool of workers sharing one list and one set of counters. Each worker
   * `t` owns the stream `streams[t]`; `schedule` is the order in which their
   * operations take effect, each operation as one indivisible step, and
   * gives worker `t` exactly `|streams[t]|` turns. The list and the counters
   * end as if the interleaved operations had run one after another.
   */
  method RunWorkers(list: List, c: Counters, streams: seq<seq<Op>>, schedule: seq<nat>)
    requires list.Valid() && c !in list.Repr
    requires Fits(streams, schedule)
    requires forall t :: 0 <= t < |streams| ==> Occurrences(schedule, t) == |streams[t]|
    modifies list.Repr, c
    ensures list.Valid() && fresh(list.Repr - old(list.Repr)) && c !in list.Repr
    ensures list.Keys == Replay(old(list.Keys), Interleaving(streams, schedule)).0
    ensures c.Snapshot() == Plus(old(c.Snapshot()), Replay(old(list.Keys), Interleaving(streams, schedule)).1)
  {
    var ops := Interleave(streams, schedule);
    Worker(list, ops, c);
  }

  /**
   * The run-wide total: when each of the pool's workers performs
   * `opsPerThread` operations, the attempt counters of the whole run add up
   * to the number of workers times `opsPerThread`.
   */
  lemma PoolAttempts(keys: seq<int>, streams: seq<seq<Op>>, schedule: seq<nat>, opsPerThread: nat)
    requires Fits(streams, schedule)
    requires forall t :: 0 <= t < |streams| ==> Occurrences(schedule, t) == opsPerThread
    ensures Attempts(Replay(keys, Interleaving(streams, schedule)).1) == |streams| * opsPerThread
  {
    ReplayAttempts(keys, Interleaving(streams, schedule));
    TotalOperations(schedule, |streams|, opsPerThread);
  }

  /**
   * The order in which the operations of the pool take effect: each turn of
   * `schedule` takes the next operation of its worker, keeping one cursor
   * per worker.
   */
  method Interleave(streams: seq<seq<Op>>, schedule: seq<nat>) returns (ops: seq<Op>)
    requires Fits(streams, schedule)
    ensures ops == Interleaving(streams, schedule)
  {
    var next := seq(|streams|, _ => 0);
    ops := [];
    var i := 0;
    while i < |schedule|
      invariant 0 <= i <= |schedule|
      invariant Fits(streams, schedule[..i])
      invariant |next| == |streams|
      invariant forall t :: 0 <= t < |streams| ==> next[t] == Occurrences(schedule[..i], t)
      invariant ops == Interleaving(streams, schedule[..i])
    {
      var t := schedule[i];
      InterleavingStep(streams, schedule, i);
      OccurrencesStep(schedule, i);
      ops := ops + [streams[t][next[t]]];
      next := next[t := next[t] + 1];
      i := i + 1;
    }
    assert schedule[..i] == schedule;
  }
}
