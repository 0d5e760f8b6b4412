/**
 Histories of one server lock (src/lock-referee-server.c): the books of waits, wakes and drops always
 balance, and for keys that only use the value 1, as mutexes do, the lock is a counting semaphore with
 a FIFO queue, which the sweeping of unused locks cannot disturb.
 */
module RefereeTheory {
  import opened Basics
  import opened Referee

  datatype Op = Wait(w: Waiter) | Wake(num: nat, val: int) | Drop(i: nat) | Collect

  /** A lock together with what happened so far; `arrivals` lists the waits that were not dropped. */
  datatype Log = Log(lock: Lock, delivered: seq<Waiter>, arrivals: seq<Waiter>, waits: nat, requested: nat, drops: nat)

  const EMPTY := Log(FRESH, [], [], 0, 0, 0)

  function Step(g: Log, op: Op): Log {
    match op
    case Wait(w) =>
      g.(lock := AddWaiter(g.lock, w), arrivals := g.arrivals + [w], waits := g.waits + 1,
         delivered := if ReturnsAtOnce(g.lock, w) then g.delivered + [w] else g.delivered)
    case Wake(num, val) =>
      g.(lock := WakeWaiters(g.lock, num, val), requested := g.requested + num,
         delivered := g.delivered + Chosen(g.lock.queue, num, val))
    case Drop(i) =>
      if i < |g.lock.queue| then
        var k := |g.delivered| + i;
        g.(lock := DropWaiter(g.lock, i), drops := g.drops + 1,
           arrivals := if k < |g.arrivals| then g.arrivals[..k] + g.arrivals[k + 1..] else g.arrivals)
      else g
    case Collect =>
      if IsUnused(g.lock) then g.(lock := FRESH) else g
  }

  function History(ops: seq<Op>): Log {
    if ops == [] then EMPTY else Step(History(ops[..|ops| - 1]), ops[|ops| - 1])
  }

  lemma {:induction false} SelectionSizes(q: seq<Waiter>, num: nat, val: int)
    ensures |Chosen(q, num, val)| + |Left(q, num, val)| == |q|
    ensures |Chosen(q, num, val)| <= num
  {
    if q != [] && num > 0 {
      SelectionSizes(q[1..], if q[0].val > val then num else num - 1, val);
    }
  }

  /** The waiters of `q`, in order, that the value `val` releases, respectively does not release. */
  function Eligible(q: seq<Waiter>, val: int, yes: bool): seq<Waiter> {
    if q == [] then []
    else (if (q[0].val <= val) == yes then [q[0]] else []) + Eligible(q[1..], val, yes)
  }

  /**
   What a wake request does to the queue: up to some cut exactly the eligible waiters leave and the
   others stay in order, beyond the cut nothing moves; the cut is the end unless `num` waiters left.
   */
  lemma {:induction false} SelectionExactly(q: seq<Waiter>, num: nat, val: int) returns (cut: nat)
    ensures cut <= |q|
    ensures Chosen(q, num, val) == Eligible(q[..cut], val, true)
    ensures Left(q, num, val) == Eligible(q[..cut], val, false) + q[cut..]
    ensures |Chosen(q, num, val)| == num || (cut == |q| && |Chosen(q, num, val)| < num)
  {
    if q == [] || num == 0 {
      cut := 0;
    } else {
      var c := SelectionExactly(q[1..], if q[0].val > val then num else num - 1, val);
      cut := c + 1;
      assert q[..cut][1..] == q[1..][..c] && q[cut..] == q[1..][c..];
    }
  }

  // ---------------------------------------------------------------- any values

  /** The books: every wait is delivered, queued or dropped; the counter is waits - wakes - drops. */
  ghost predicate Balanced(g: Log) {
    && g.lock.nwaiter == g.waits - g.requested - g.drops
    && g.waits == |g.delivered| + |g.lock.queue| + g.drops
    && g.lock.nwaiter == |g.lock.queue| + |g.delivered| - g.requested
  }

  lemma {:induction false} BooksBalance(ops: seq<Op>)
    ensures Balanced(History(ops))
  {
    if ops != [] {
      var g := History(ops[..|ops| - 1]);
      BooksBalance(ops[..|ops| - 1]);
      var op := ops[|ops| - 1];
      if op.Wake? { SelectionSizes(g.lock.queue, op.num, op.val); }
    }
  }

  /**
   A new waiter whose value is covered goes on at once exactly when more wake-ups are banked than
   clients are queued. Behind clients that a banked wake-up does not suit, it is queued all the same.
   */
  lemma ReturnsAtOnceExactly(ops: seq<Op>, w: Waiter)
    requires History(ops).lock.maxWake >= w.val
    ensures var g := History(ops);
            ReturnsAtOnce(g.lock, w) <==> g.requested - |g.delivered| > |g.lock.queue|
  {
    BooksBalance(ops);
  }

  lemma TwoOps(a: Op, b: Op)
    ensures History([a, b]) == Step(Step(EMPTY, a), b)
  {
    assert [a, b][..1] == [a] && [a][..0] == [];
    assert History([a]) == Step(History([]), a);
  }

  lemma HeadTooHigh(w: Waiter, num: nat, val: int)
    requires w.val > val
    ensures Left([w], num, val) == [w] && Chosen([w], num, val) == []
  {
    assert [w][1..] == [];
  }

  /** The first client falls asleep, and a wake-up of too low a value passes it over. */
  lemma PassedOver(w: Waiter, val: int)
    requires w.val > val >= 0
    ensures var g := Step(Step(EMPTY, Wait(w)), Wake(1, val));
            g.lock == Lock(0, val, [w]) && g.delivered == [] && g.requested == 1
  {
    hide Chosen, Left;
    HeadTooHigh(w, 1, val);
    assert Step(EMPTY, Wait(w)).lock.queue == [w];
  }

  /** The family of cases: `w` takes the place in the books, and `x` sleeps on its own wake-up. */
  lemma CoveredButQueued(w: Waiter, x: Waiter, val: int)
    requires w.val > val >= x.val && val >= 0
    ensures var g := History([Wait(w), Wake(1, val)]);
            && g.requested > |g.delivered| && g.lock.maxWake >= x.val
            && !ReturnsAtOnce(g.lock, x)
            && Step(g, Wait(x)).lock.queue == [w, x]
  {
    hide History;
    TwoOps(Wait(w), Wake(1, val));
    PassedOver(w, val);
  }

  /** The position behind the last sweep that took the lock away. */
  function Since(ops: seq<Op>): (r: nat)
    ensures r <= |ops|
  {
    if ops == [] then 0
    else if ops[|ops| - 1].Collect? && IsUnused(History(ops[..|ops| - 1]).lock) then |ops|
    else Since(ops[..|ops| - 1])
  }

  /** The recorded wake value is the largest one requested since the lock was created, or 0. */
  lemma {:induction false} MaxWakeExactly(ops: seq<Op>)
    ensures var max := History(ops).lock.maxWake;
            && max >= 0
            && (forall k :: Since(ops) <= k < |ops| && ops[k].Wake? ==> ops[k].val <= max)
            && (max == 0 || exists k :: Since(ops) <= k < |ops| && ops[k].Wake? && ops[k].val == max)
  {
    if ops != [] {
      var n := |ops| - 1;
      var front, op := ops[..n], ops[n];
      MaxWakeExactly(front);
      var max0, max := History(front).lock.maxWake, History(ops).lock.maxWake;
      if Since(ops) != |ops| && max0 != 0 && max == max0 {
        var k :| Since(front) <= k < n && front[k].Wake? && front[k].val == max0;
        assert ops[k] == front[k];
      }
      assert forall k :: 0 <= k < n ==> ops[k] == front[k];
    }
  }

  // ---------------------------------------------------------------- mutex keys

  /** All waits and wakes of the history use the value 1. */
  ghost predicate MutexKey(ops: seq<Op>) {
    forall k :: 0 <= k < |ops| ==> (ops[k].Wait? ==> ops[k].w.val == 1) && (ops[k].Wake? ==> ops[k].val == 1)
  }

  /** A counting semaphore: free passes, sleepers in order of arrival, and who has passed. */
  datatype Semaphore = Semaphore(passes: nat, sleepers: seq<Waiter>, passed: seq<Waiter>)

  function SemStep(s: Semaphore, op: Op): Semaphore {
    match op
    case Wait(w) =>
      if s.passes > 0 then s.(passes := s.passes - 1, passed := s.passed + [w])
      else s.(sleepers := s.sleepers + [w])
    case Wake(num, _) =>
      var k := Min(num, |s.sleepers|);
      Semaphore(s.passes + num - k, s.sleepers[k..], s.passed + s.sleepers[..k])
    case Drop(i) =>
      if i < |s.sleepers| then s.(sleepers := s.sleepers[..i] + s.sleepers[i + 1..]) else s
    case Collect => s
  }

  function SemHistory(ops: seq<Op>): Semaphore {
    if ops == [] then Semaphore(0, [], []) else SemStep(SemHistory(ops[..|ops| - 1]), ops[|ops| - 1])
  }

  /** The semaphore that a server lock stands for. */
  ghost function Abstract(g: Log): Semaphore {
    Semaphore(if g.lock.nwaiter < 0 then -g.lock.nwaiter else 0, g.lock.queue, g.delivered)
  }

  ghost predicate MutexLock(l: Lock) {
    && AllVal(l.queue, 1)
    && |l.queue| == (if l.nwaiter > 0 then l.nwaiter else 0)
    && (l.nwaiter < 0 ==> l.maxWake >= 1)
  }

  lemma SemaphoreStep(g: Log, op: Op)
    requires MutexLock(g.lock) && MutexKey([op])
    ensures MutexLock(Step(g, op).lock)
    ensures Abstract(Step(g, op)) == SemStep(Abstract(g), op)
    ensures op.Wait? ==> (ReturnsAtOnce(g.lock, op.w) <==> Abstract(g).passes > 0)
  {
    assert [op][0] == op;
    if op.Wake? { UniformSelection(g.lock.queue, op.num, 1); }
  }

  /**
   The server lock of a mutex refines a counting semaphore: after any history, its counter, its queue
   and the order of its deliveries are the semaphore's, and a new waiter goes on at once exactly when
   a pass is left.
   */
  lemma {:induction false} RefinesSemaphore(ops: seq<Op>)
    requires MutexKey(ops)
    ensures MutexLock(History(ops).lock)
    ensures Abstract(History(ops)) == SemHistory(ops)
    ensures forall id :: ReturnsAtOnce(History(ops).lock, Waiter(id, 1)) <==> SemHistory(ops).passes > 0
  {
    if ops != [] {
      var front, op := ops[..|ops| - 1], ops[|ops| - 1];
      RefinesSemaphore(front);
      SemaphoreStep(History(front), op);
    }
  }

  lemma Regrouped(a: seq<Waiter>, q: seq<Waiter>, k: nat)
    requires k <= |q|
    ensures a + q[..k] + q[k..] == a + q
  {
    assert q[..k] + q[k..] == q;
  }

  lemma WithoutOne(a: seq<Waiter>, q: seq<Waiter>, i: nat)
    requires i < |q|
    ensures var all, k := a + q, |a| + i;
            all[..k] + all[k + 1..] == a + (q[..i] + q[i + 1..])
  {
    var all, k := a + q, |a| + i;
    assert all[..k] == a + q[..i] && all[k + 1..] == q[i + 1..];
  }

  lemma ServedStep(g: Log, op: Op)
    requires MutexLock(g.lock) && MutexKey([op]) && g.delivered + g.lock.queue == g.arrivals
    ensures Step(g, op).delivered + Step(g, op).lock.queue == Step(g, op).arrivals
  {
    hide Chosen, Left;
    assert [op][0] == op;
    match op
    case Wait(w) =>
      if ReturnsAtOnce(g.lock, w) {
        assert g.delivered == g.arrivals;
      } else {
        assert g.delivered + (g.lock.queue + [w]) == g.arrivals + [w];
      }
    case Wake(num, _) =>
      UniformSelection(g.lock.queue, num, 1);
      Regrouped(g.delivered, g.lock.queue, Min(num, |g.lock.queue|));
    case Drop(i) =>
      if i < |g.lock.queue| {
        WithoutOne(g.delivered, g.lock.queue, i);
      }
    case Collect =>
  }

  /** First come, first served: who has passed, then who sleeps, is the order of the arrivals. */
  lemma {:induction false} FirstComeFirstServed(ops: seq<Op>)
    requires MutexKey(ops)
    ensures History(ops).delivered + History(ops).lock.queue == History(ops).arrivals
  {
    if ops != [] {
      var front, op := ops[..|ops| - 1], ops[|ops| - 1];
      FirstComeFirstServed(front);
      RefinesSemaphore(front);
      ServedStep(History(front), op);
    }
  }

  // ---------------------------------------------------------------- sweeping

  /** The sweep takes the lock of a mutex exactly if it is the semaphore that nobody has touched. */
  lemma UnusedExactly(ops: seq<Op>)
    requires MutexKey(ops)
    ensures IsUnused(History(ops).lock) <==> SemHistory(ops).passes == 0 && SemHistory(ops).sleepers == []
  {
    RefinesSemaphore(ops);
    BooksBalance(ops);
  }

  function WithoutSweeps(ops: seq<Op>): seq<Op> {
    if ops == [] then []
    else var front := WithoutSweeps(ops[..|ops| - 1]);
         if ops[|ops| - 1].Collect? then front else front + [ops[|ops| - 1]]
  }

  lemma {:induction false} SweepsInvisible(ops: seq<Op>)
    requires MutexKey(ops)
    ensures MutexKey(WithoutSweeps(ops)) && SemHistory(WithoutSweeps(ops)) == SemHistory(ops)
  {
    if ops != [] {
      var front, op := ops[..|ops| - 1], ops[|ops| - 1];
      SweepsInvisible(front);
      var wf := WithoutSweeps(front);
      if !op.Collect? {
        assert (wf + [op])[..|wf|] == wf;
      }
    }
  }

  /** Dropping and recreating the lock of a mutex key, at any times, changes no delivery and no answer. */
  lemma SweepsUnobservable(ops: seq<Op>)
    requires MutexKey(ops)
    ensures var g, h := History(ops), History(WithoutSweeps(ops));
            && g.delivered == h.delivered && g.lock.queue == h.lock.queue
            && (forall id :: ReturnsAtOnce(g.lock, Waiter(id, 1)) <==> ReturnsAtOnce(h.lock, Waiter(id, 1)))
  {
    SweepsInvisible(ops);
    RefinesSemaphore(ops);
    RefinesSemaphore(WithoutSweeps(ops));
    assert Abstract(History(ops)) == Abstract(History(WithoutSweeps(ops)));
  }
}
