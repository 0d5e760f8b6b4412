/**
 What holds in every run of the mutex (src/thread-win32.c): safety for at most 255 threads, the
 exact bound on the number of threads, and the life of a mutex whose owner died.
 */
module MutexRuns {
  import opened LockWord
  import opened Referee
  import opened MutexProtocol
  import opened MutexSafety

  // ---------------------------------------------------------------- runs

  lemma {:induction false} ExecConcat(s: State, a: seq<Label>, b: seq<Label>)
    ensures Exec(s, a + b) == Exec(Exec(s, a), b)
    decreases |b|
  {
    if b == [] {
      assert a + b == a;
    } else {
      var b' := b[..|b| - 1];
      assert (a + b)[..|a + b| - 1] == a + b';
      ExecConcat(s, a, b');
    }
  }

  lemma ExecSnoc(s: State, a: seq<Label>, l: Label)
    ensures Exec(s, a + [l]) == Apply(Exec(s, a), l)
  {
    assert (a + [l])[..|a + [l]| - 1] == a;
  }

  /** Every step but a wake request moves its own thread only. */
  lemma MovesItself(s: State, t: Tid, call: Call)
    requires t in s.threads && !s.threads[t].UnlockWake?
    ensures t in Advance(s, t, call).threads
    ensures Advance(s, t, call).threads == s.threads[t := Advance(s, t, call).threads[t]]
  {
    hide Owner, NeedRecover, Count, Registering, Wrap, ClearOwner, ClearRegistering, MtxLockval, UnlockVal;
    hide Released, WakeNext, Chosen, Left, AddWaiter;
  }

  /** The step of one thread moves no other thread, except that it may release sleepers. */
  lemma Bystanders(s: State, t: Tid, call: Call, u: Tid)
    requires t in s.threads && u in s.threads && u != t
    ensures u in Advance(s, t, call).threads
    ensures Advance(s, t, call).threads[u] == s.threads[u]
         || (s.threads[u].Asleep? && Advance(s, t, call).threads[u] == Reload(s.threads[u].inc))
  {
    if s.threads[t].UnlockWake? {
      ReleasedIsSome(s.threads, Chosen(s.server.queue, s.threads[t].num, 1));
    } else {
      hide Advance;
      MovesItself(s, t, call);
    }
  }

  /** The set of threads never changes. */
  lemma StepKeys(s: State, l: Label)
    ensures Apply(s, l).threads.Keys == s.threads.Keys
  {
    if l.Run? && l.tid in s.threads && s.threads[l.tid].UnlockWake? {
      ReleasedIsSome(s.threads, Chosen(s.server.queue, s.threads[l.tid].num, 1));
    }
  }

  lemma {:induction false} RunKeys(s: State, run: seq<Label>)
    ensures Exec(s, run).threads.Keys == s.threads.Keys
  {
    if run != [] {
      RunKeys(s, run[..|run| - 1]);
      StepKeys(Exec(s, run[..|run| - 1]), run[|run| - 1]);
    }
  }

  lemma {:induction false} NobodyRegistered(k: Tally, m: Threads)
    requires forall t :: t in m ==> m[t] == Idle(Success)
    ensures Sum(k, m) == 0
    decreases |m|
  {
    if m != map[] {
      var t :| t in m;
      SumSplit(k, m, t);
      NobodyRegistered(k, m - {t});
    }
  }

  lemma InitialInv(ids: set<Tid>, dirty: bool)
    requires |ids| <= MAX_COUNT
    ensures Inv(Initial(ids, dirty))
  {
    var s := Initial(ids, dirty);
    assert s.threads.Keys == ids;
    assert |s.threads| == |ids|;
    NobodyRegistered(Registered, s.threads);
    NobodyRegistered(Waking, s.threads);
    NobodyRegistered(Waiting, s.threads);
    DecodePack(Fields(0, 0, if dirty then 1 else 0, 0));
  }

  /** No state of the run, after any number of its labels, has a registration started too late. */
  ghost predicate RunOnTime(s: State, run: seq<Label>) {
    forall k :: 0 <= k <= |run| ==> OnTime(Exec(s, run[..k]))
  }

  lemma {:induction false} RunKeepsInv(s: State, run: seq<Label>)
    requires Inv(s) && RunOnTime(s, run)
    ensures Inv(Exec(s, run))
  {
    if run != [] {
      var front := run[..|run| - 1];
      forall k | 0 <= k <= |front| ensures OnTime(Exec(s, front[..k])) {
        assert front[..k] == run[..k];
      }
      RunKeepsInv(s, front);
      assert run[..|run|] == run;
      StepKeepsInv(Exec(s, front), run[|run| - 1]);
    }
  }

  // ---------------------------------------------------------------- the recover bit

  /** No step sets the need-recover bit; only the death of an owner does. */
  lemma StepRecover(s: State, l: Label)
    requires Inv(s)
    ensures NeedRecover(Apply(s, l).word) <= NeedRecover(s.word)
  {
    if l.Run? && l.tid in s.threads {
      FieldIsolation(s, l.tid, l.call);
    }
  }

  /** A mutex that needs no recovery never becomes unrecoverable, whatever the interleaving. */
  lemma {:induction false} CleanRun(s: State, run: seq<Label>)
    requires Inv(s) && NeedRecover(s.word) == 0
    ensures Inv(Exec(s, run)) && NeedRecover(Exec(s, run).word) == 0
    ensures !IsUnrecoverable(Exec(s, run).word)
  {
    if run != [] {
      var s1 := Exec(s, run[..|run| - 1]);
      CleanRun(s, run[..|run| - 1]);
      StepRecover(s1, run[|run| - 1]);
      StepKeepsInv(s1, run[|run| - 1]);
    }
  }

  // ---------------------------------------------------------------- mutual exclusion

  ghost predicate Exclusive(s: State) {
    forall t, u :: t in s.threads && u in s.threads && IsHolder(s.threads[t]) && IsHolder(s.threads[u]) ==> t == u
  }

  lemma SubsetSize(a: set<Tid>, b: set<Tid>)
    requires a <= b
    ensures |a| <= |b|
  {
    assert b == a + (b - a);
  }

  ghost function RegisteredSet(m: Threads): set<Tid> {
    set t | t in m && IsRegistered(m[t])
  }

  lemma {:induction false} SumIsCardinality(m: Threads)
    ensures Sum(Registered, m) == |RegisteredSet(m)|
    decreases |m|
  {
    if m == map[] {
      assert RegisteredSet(m) == {};
    } else {
      var t :| t in m;
      SumSplit(Registered, m, t);
      SumIsCardinality(m - {t});
      assert RegisteredSet(m - {t}) == RegisteredSet(m) - {t};
    }
  }

  /**
   Mutual exclusion and conservation. In every interleaving of at most 255 threads from a zero word,
   overlapping registrations included, at most one thread is between acquire and unlock, the owner
   field is exactly its id, and the count field is the number of threads registered but not acquired.
   */
  lemma MutualExclusion(ids: set<Tid>, run: seq<Label>)
    requires |ids| <= MAX_COUNT
    ensures var s := Exec(Initial(ids, false), run);
            && s.threads.Keys == ids
            && Exclusive(s)
            && (forall t :: t in ids ==> (IsHolder(s.threads[t]) <==> Owner(s.word) == t))
            && (Owner(s.word) == 0 || Owner(s.word) in ids)
            && Count(s.word) == |RegisteredSet(s.threads)|
            && NeedRecover(s.word) == 0
  {
    var s0 := Initial(ids, false);
    InitialInv(ids, false);
    DecodePack(Fields(0, 0, 0, 0));
    CleanRun(s0, run);
    RunKeys(s0, run);
    assert s0.threads.Keys == ids;
    SumIsCardinality(Exec(s0, run).threads);
    ExclusiveOf(Exec(s0, run));
  }

  lemma ExclusiveOf(s: State)
    requires Inv(s)
    ensures Exclusive(s)
    ensures forall t :: t in s.threads ==> (IsHolder(s.threads[t]) <==> Owner(s.word) == t)
    ensures Owner(s.word) == 0 || Owner(s.word) in s.threads || IsUnrecoverable(s.word)
    ensures !IsUnrecoverable(s.word) ==> Count(s.word) == Sum(Registered, s.threads)
  {
  }
}
