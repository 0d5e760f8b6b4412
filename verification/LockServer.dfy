/**
 The whole table of locks over time (src/lock-referee-server.c): whatever requests arrive for whatever keys, and
 whenever unused locks are swept away and created again, the lock found under a key is the lock that the requests
 for this key alone have made.
 */
module LockServer {
  import opened Referee
  import opened LockTable
  import RefereeTheory

  /** The table after a sequence of requests, starting with no lock at all. */
  function TableHistory(rs: seq<Request>): map<int, Entry> {
    if rs == [] then map[] else TableStep(TableHistory(rs[..|rs| - 1]), rs[|rs| - 1])
  }

  /** What a request is for one key, if anything; a sweep passes over a lock with a cleanup job. */
  function Relevant(r: Request, key: int, job: bool): seq<RefereeTheory.Op> {
    match r
    case Ask(k, w) => if k == key then [RefereeTheory.Wait(w)] else []
    case Rouse(k, num, val) => if k == key then [RefereeTheory.Wake(num, val)] else []
    case Forget(k, i) => if k == key then [RefereeTheory.Drop(i)] else []
    case SetJob(_, _) => []
    case SweepAll => if job then [] else [RefereeTheory.Collect]
  }

  function KeyOps(rs: seq<Request>, key: int): seq<RefereeTheory.Op> {
    if rs == [] then []
    else
      var front := rs[..|rs| - 1];
      KeyOps(front, key) + Relevant(rs[|rs| - 1], key, Lookup(TableHistory(front), key).job)
  }

  /** Who goes on by a request, given the lock under the key. */
  function Delivers(r: Request, key: int, lock: Lock): seq<Waiter> {
    match r
    case Ask(k, w) => if k == key && ReturnsAtOnce(lock, w) then [w] else []
    case Rouse(k, num, val) => if k == key then Chosen(lock.queue, num, val) else []
    case _ => []
  }

  /** Who has been let go on, in this order, by the locks that the table held for the key. */
  function TableDelivered(rs: seq<Request>, key: int): seq<Waiter> {
    if rs == [] then []
    else
      var front := rs[..|rs| - 1];
      TableDelivered(front, key) + Delivers(rs[|rs| - 1], key, Lookup(TableHistory(front), key).lock)
  }

  lemma HistorySnoc(ops: seq<RefereeTheory.Op>, op: RefereeTheory.Op)
    ensures RefereeTheory.History(ops + [op]) == RefereeTheory.Step(RefereeTheory.History(ops), op)
  {
    assert (ops + [op])[..|ops|] == ops;
  }

  /** What a request does to the lock under a key; requests for other keys leave it alone. */
  function LockStep(l: Lock, job: bool, key: int, r: Request): Lock {
    match r
    case Ask(k, w) => if k == key then AddWaiter(l, w) else l
    case Rouse(k, num, val) => if k == key then WakeWaiters(l, num, val) else l
    case Forget(k, i) => if k == key && i < |l.queue| then DropWaiter(l, i) else l
    case SetJob(_, _) => l
    case SweepAll => if IsUnused(l) && !job then FRESH else l
  }

  lemma LookupStep(t: map<int, Entry>, key: int, r: Request)
    ensures Lookup(TableStep(t, r), key).lock == LockStep(Lookup(t, key).lock, Lookup(t, key).job, key, r)
  {
    hide AddWaiter, WakeWaiters, DropWaiter;
  }

  /** The history of the key takes the same step. */
  lemma HistoryStep(ops: seq<RefereeTheory.Op>, key: int, job: bool, r: Request)
    ensures var g, g' := RefereeTheory.History(ops), RefereeTheory.History(ops + Relevant(r, key, job));
            g'.lock == LockStep(g.lock, job, key, r) && g'.delivered == g.delivered + Delivers(r, key, g.lock)
  {
    hide RefereeTheory.History, AddWaiter, WakeWaiters, DropWaiter, Chosen;
    var more, g := Relevant(r, key, job), RefereeTheory.History(ops);
    assert g.delivered + [] == g.delivered;
    if more == [] {
      assert ops + more == ops;
    } else {
      HistorySnoc(ops, more[0]);
    }
  }

  /** The table is a map of histories: for every key, every value and every job. */
  lemma {:induction false} TableRefines(rs: seq<Request>, key: int)
    ensures Lookup(TableHistory(rs), key).lock == RefereeTheory.History(KeyOps(rs, key)).lock
    ensures TableDelivered(rs, key) == RefereeTheory.History(KeyOps(rs, key)).delivered
  {
    if rs != [] {
      hide RefereeTheory.History, TableStep, LockStep, Relevant, Delivers, Lookup;
      var front, r := rs[..|rs| - 1], rs[|rs| - 1];
      TableRefines(front, key);
      LookupStep(TableHistory(front), key, r);
      HistoryStep(KeyOps(front, key), key, Lookup(TableHistory(front), key).job, r);
    }
  }

  /** What was last said about a cleanup job for the key. */
  function LastJob(rs: seq<Request>, key: int): bool {
    if rs == [] then false
    else
      var r := rs[|rs| - 1];
      if r.SetJob? && r.key == key then r.on else LastJob(rs[..|rs| - 1], key)
  }

  /** Sweeps lose no job: a lock with a job stays, and a lock created again has none. */
  lemma {:induction false} JobsKept(rs: seq<Request>, key: int)
    ensures Lookup(TableHistory(rs), key).job == LastJob(rs, key)
  {
    if rs != [] {
      hide AddWaiter, WakeWaiters, DropWaiter;
      JobsKept(rs[..|rs| - 1], key);
    }
  }

  /** All waits and wakes for the key use the value 1. */
  ghost predicate MutexRequests(rs: seq<Request>, key: int) {
    forall i :: 0 <= i < |rs| ==>
      && (rs[i].Ask? && rs[i].key == key ==> rs[i].w.val == 1)
      && (rs[i].Rouse? && rs[i].key == key ==> rs[i].val == 1)
  }

  lemma {:induction false} MutexOps(rs: seq<Request>, key: int)
    requires MutexRequests(rs, key)
    ensures RefereeTheory.MutexKey(KeyOps(rs, key))
  {
    if rs != [] {
      MutexOps(rs[..|rs| - 1], key);
    }
  }

  /**
   For a mutex key the table is a counting semaphore with a FIFO queue: deliveries, queue and answers are those of the
   semaphore that never heard of the other keys, of jobs and of sweeps, and the lock is swept only if it is untouched.
   */
  lemma MutexKeySemaphore(rs: seq<Request>, key: int)
    requires MutexRequests(rs, key)
    ensures var sem := RefereeTheory.SemHistory(RefereeTheory.WithoutSweeps(KeyOps(rs, key)));
            var lock := Lookup(TableHistory(rs), key).lock;
            && TableDelivered(rs, key) == sem.passed && lock.queue == sem.sleepers
            && (forall id :: ReturnsAtOnce(lock, Waiter(id, 1)) <==> sem.passes > 0)
            && (IsUnused(lock) <==> sem.passes == 0 && sem.sleepers == [])
  {
    var ops := KeyOps(rs, key);
    TableRefines(rs, key);
    MutexOps(rs, key);
    RefereeTheory.SweepsInvisible(ops);
    RefereeTheory.RefinesSemaphore(ops);
    RefereeTheory.UnusedExactly(ops);
  }
}
