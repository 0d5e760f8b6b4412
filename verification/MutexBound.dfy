/**
 The waiter count has eight bits. With 256 threads it can be full when a newcomer looks, the
 newcomer's registration fails, and its next swap expects a word that still holds the bits of an
 owner (src/thread-win32.c:354-358, 484-506): two threads then hold the mutex. So mutual exclusion
 holds in every run from a zero word exactly when at most 255 threads use the mutex.
 */
module MutexBound {
  import opened LockWord
  import opened Referee
  import opened MutexProtocol
  import opened MutexSafety
  import opened MutexRuns

  function Free(count: int): Fields {
    Fields(0, count, 0, 0)
  }

  /** `c` holds the mutex, the threads in `crowd` are registered, the last of them is ready to swap. */
  ghost predicate Crowded(s: State, c: Tid, crowd: set<Tid>, last: Tid) {
    && c in s.threads && c !in crowd && crowd <= s.threads.Keys
    && Decode(s.word) == Free(|crowd|).(owner := c)
    && s.threads[c] == Holding(Success)
    && s.server == FRESH
    && (forall t :: t in s.threads && t != c && t !in crowd ==> s.threads[t] == Idle(Success))
    && (forall t :: t in s.threads ==> !s.threads[t].Asleep?)
    && (crowd != {} ==>
          && last in crowd && s.threads[last].LockCas? && s.threads[last].notified
          && s.threads[last].inc == WaiterInc(last) && Decode(s.threads[last].seen) == Free(|crowd|))
  }

  lemma FirstHolder(ids: set<Tid>, c: Tid)
    requires c in ids
    ensures Crowded(Exec(Initial(ids, false), [Run(c, DoLock), Run(c, Continue)]), c, {}, c)
  {
    var s0 := Initial(ids, false);
    var l := [Run(c, DoLock), Run(c, Continue)];
    assert l[..1] == [Run(c, DoLock)] && l[..1][..0] == [];
    var s1 := Goto(s0, c, LockCas(0, PlainInc(c), false));
    assert Exec(s0, l[..1]) == s1;
    DecodePack(Free(0));
    PlainAcquireFields(0, c);
  }

  /** The four labels with which an idle thread finds the mutex held and registers. */
  function Joining(t: Tid): seq<Label> {
    [Run(t, DoLock)] + [Run(t, Continue)] + [Run(t, Continue)] + [Run(t, Continue)]
  }

  lemma Joins(s: State, f: Fields, t: Tid) returns (w: Word, seen: Word)
    requires Decode(s.word) == f && f.owner != 0 && !Gone(f) && f.registering == 0 && f.count < MAX_COUNT
    requires t in s.threads && s.threads[t].Idle?
    ensures Decode(w) == f.(count := f.count + 1) && Decode(seen) == f.(owner := 0, count := f.count + 1)
    ensures Exec(s, Joining(t)) == s.(word := w, threads := s.threads[t := LockCas(seen, WaiterInc(t), true)])
  {
    hide Owner, Count, NeedRecover, Registering, Wrap, ClearOwner, ClearRegistering, MtxLockval, UnlockVal;
    var inc := PlainInc(t);
    ExecSnoc(s, [], Run(t, DoLock));
    ExecSnoc(s, [Run(t, DoLock)], Run(t, Continue));
    ExecSnoc(s, [Run(t, DoLock)] + [Run(t, Continue)], Run(t, Continue));
    ExecSnoc(s, [Run(t, DoLock)] + [Run(t, Continue)] + [Run(t, Continue)], Run(t, Continue));
    var s2 := Goto(s, t, RegisterCas(s.word, inc));
    assert LockCasNext(Goto(s, t, LockCas(0, inc, false)), t, 0, inc, false) == s2 by { DecodePack(Free(0)); }
    RegisterFields(s.word, t);
    var w3 := Wrap(ClearRegistering(s.word) + MtxLockval(0, t, 1));
    assert RegisterCasNext(s2, t, s.word, inc) == Goto(s, t, RegisterRelease(inc)).(word := w3);
    ReleaseFields(w3, t);
    MasksIsolateFields(w3);
    w, seen := Wrap(w3 - MtxLockval(0, t, 0)), ClearOwner(ClearRegistering(w3));
  }

  lemma OneMore(s: State, c: Tid, crowd: set<Tid>, last: Tid, t: Tid)
    requires Crowded(s, c, crowd, last) && t in s.threads && t != c && t !in crowd && |crowd| < MAX_COUNT
    ensures Crowded(Exec(s, Joining(t)), c, crowd + {t}, t) && Exec(s, Joining(t)).threads.Keys == s.threads.Keys
  {
    var w, seen := Joins(s, Free(|crowd|).(owner := c), t);
    assert |crowd + {t}| == |crowd| + 1;
  }

  lemma {:induction false} Crowd(ids: set<Tid>, c: Tid, crowd: set<Tid>) returns (run: seq<Label>, last: Tid)
    requires c in ids && c !in crowd && crowd <= ids && |crowd| <= MAX_COUNT
    ensures Crowded(Exec(Initial(ids, false), run), c, crowd, last)
    ensures Exec(Initial(ids, false), run).threads.Keys == ids
    decreases |crowd|
  {
    hide Apply, Owner, Count, NeedRecover, Registering;
    var s0 := Initial(ids, false);
    if crowd == {} {
      run, last := [Run(c, DoLock), Run(c, Continue)], c;
      FirstHolder(ids, c);
      RunKeys(s0, run);
    } else {
      var t :| t in crowd;
      var front, l := Crowd(ids, c, crowd - {t});
      OneMore(Exec(s0, front), c, crowd - {t}, l, t);
      ExecConcat(s0, front, Joining(t));
      run, last := front + Joining(t), t;
      assert crowd - {t} + {t} == crowd;
    }
  }

  /** Unlocking a waited mutex, delivering the wake-up to an empty queue, and locking again. */
  function ComingBack(c: Tid): seq<Label> {
    [Run(c, DoUnlock)] + [Run(c, Continue)] + [Run(c, Continue)] + [Run(c, Continue)]
      + [Run(c, DoLock)] + [Run(c, Continue)]
  }

  lemma ComesBack(s: State, c: Tid) returns (w: Word)
    requires c in s.threads && s.threads[c] == Holding(Success) && s.server == FRESH
    requires Decode(s.word) == Free(MAX_COUNT).(owner := c)
    requires forall t :: t in s.threads ==> !s.threads[t].Asleep?
    ensures Decode(w) == Free(MAX_COUNT)
    ensures Exec(s, ComingBack(c))
         == State(w, s.threads[c := RegisterCas(w, PlainInc(c))], WakeWaiters(FRESH, 1, 1))
  {
    hide Owner, Count, NeedRecover, Registering, Wrap, ClearOwner, ClearRegistering, MtxLockval, UnlockVal;
    w := Wrap(s.word - UnlockVal(c, false));
    UnlockFields(s.word, c, false);
    var go := [Run(c, Continue)];
    var un := [Run(c, DoUnlock)];
    ExecSnoc(s, [], Run(c, DoUnlock));
    ExecSnoc(s, un, Run(c, Continue));
    ExecSnoc(s, un + go, Run(c, Continue));
    ExecSnoc(s, un + go + go, Run(c, Continue));
    ExecSnoc(s, un + go + go + go, Run(c, DoLock));
    ExecSnoc(s, un + go + go + go + [Run(c, DoLock)], Run(c, Continue));
    assert Exec(s, un + go) == Goto(s, c, UnlockSub(Success, false));
    var s3 := Goto(s, c, UnlockWake(1)).(word := w);
    assert Exec(s, un + go + go) == s3;
    Refused(s3, c);
  }

  /** With nobody asleep the wake-up is banked; the new attempt meets a full waiter list. */
  lemma Refused(s: State, c: Tid)
    requires c in s.threads && s.threads[c] == UnlockWake(1) && s.server == FRESH && Decode(s.word) == Free(MAX_COUNT)
    requires forall t :: t in s.threads ==> !s.threads[t].Asleep?
    ensures var s1 := Advance(s, c, Continue);
            s1 == State(s.word, s.threads[c := Idle(Success)], WakeWaiters(FRESH, 1, 1)) &&
            Advance(Advance(s1, c, DoLock), c, Continue) == Goto(s1, c, RegisterCas(s.word, PlainInc(c)))
  {
    hide Owner, Count, NeedRecover, Registering, Wrap, ClearOwner, ClearRegistering, MtxLockval, UnlockVal;
    assert Released(s.threads, []) == s.threads;
    DecodePack(Free(0));
  }

  /** A waiter takes the free mutex; the newcomer, refused by the full list, swaps on top of it. */
  lemma SwapsOnTop(s: State, c: Tid, last: Tid) returns (run: seq<Label>)
    requires c in s.threads && last in s.threads && c != last && Decode(s.word) == Free(MAX_COUNT)
    requires s.threads[c] == RegisterCas(s.word, PlainInc(c))
    requires s.threads[last] == LockCas(s.word, WaiterInc(last), true)
    ensures !Exclusive(Exec(s, run))
  {
    var go := [Run(c, Continue)];
    ExecSnoc(s, [], Run(last, Continue));
    ExecSnoc(s, [Run(last, Continue)], Run(c, Continue));
    ExecSnoc(s, [Run(last, Continue)] + go, Run(c, Continue));
    ExecSnoc(s, [Run(last, Continue)] + go + go, Run(c, Continue));
    run := [Run(last, Continue)] + go + go + go;
    var w1 := Wrap(s.word + WaiterInc(last));
    var s1 := Goto(s, last, Holding(Success)).(word := w1);
    assert Exec(s, [Run(last, Continue)]) == s1;
    assert Exec(s, [Run(last, Continue)] + go) == Goto(s1, c, RegisterReload(PlainInc(c)));
    assert Exec(s, [Run(last, Continue)] + go + go).threads[c] == LockCas(w1, PlainInc(c), false);
    assert Exec(s, run).threads[c].Holding? && Exec(s, run).threads[last].Holding?;
  }

  lemma {:induction false} SubsetOfSize(ids: set<Tid>, n: nat) returns (sub: set<Tid>)
    requires n <= |ids|
    ensures sub <= ids && |sub| == n
  {
    if n == |ids| {
      sub := ids;
    } else {
      var t :| t in ids;
      sub := SubsetOfSize(ids - {t}, n);
    }
  }

  /** With more than 255 threads there is a run in which two threads hold the mutex. */
  lemma TooManyThreads(ids: set<Tid>) returns (run: seq<Label>)
    requires |ids| > MAX_COUNT
    ensures !Exclusive(Exec(Initial(ids, false), run))
  {
    var s0 := Initial(ids, false);
    var c :| c in ids;
    var crowd := SubsetOfSize(ids - {c}, MAX_COUNT);
    var a, last := Crowd(ids, c, crowd);
    var s := Exec(s0, a);
    var b := ComingBack(c);
    var w := ComesBack(s, c);
    ExecConcat(s0, a, b);
    PackDecode(w);
    PackDecode(s.threads[last].seen);
    var d := SwapsOnTop(Exec(s, b), c, last);
    ExecConcat(s0, a + b, d);
    run := a + b + d;
  }

  /** Mutual exclusion holds in every run from a zero word exactly when at most 255 threads use the mutex. */
  lemma ExclusionExactly(ids: set<Tid>)
    ensures (forall run :: Exclusive(Exec(Initial(ids, false), run))) <==> |ids| <= MAX_COUNT
  {
    if |ids| <= MAX_COUNT {
      forall run ensures Exclusive(Exec(Initial(ids, false), run)) {
        MutualExclusion(ids, run);
      }
    } else {
      var run := TooManyThreads(ids);
    }
  }
}
