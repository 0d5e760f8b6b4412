/**
 Two threads whose registrations overlap can both fall asleep on a free mutex: each subtracts its
 own id from the registering field (src/thread-win32.c:374-375), which by then holds the other's, so
 a residue stays and both next swaps fail. Hence without the promise that registrations do not
 overlap, no wake-up is ever lost exactly when a single thread uses the mutex.
 */
module MutexOverlap {
  import opened LockWord
  import opened Referee
  import opened MutexProtocol
  import opened MutexSafety
  import opened MutexRuns
  import opened MutexWakeups

  /** The idle crowd, with `a` and `x` somewhere in the middle of a call. */
  function Two(w: Word, m: Threads, a: Tid, pa: Pc, x: Tid, px: Pc, l: Lock): State {
    State(w, m[a := pa][x := px], l)
  }

  /** `t` makes three steps, starting with a call. */
  function Three(t: Tid, call: Call): seq<Label> {
    [Run(t, call)] + [Run(t, Continue)] + [Run(t, Continue)]
  }

  lemma ExecThree(s: State, t: Tid, call: Call)
    requires t in s.threads
    ensures var s1 := Apply(s, Run(t, call));
            Exec(s, Three(t, call)) == Apply(Apply(s1, Run(t, Continue)), Run(t, Continue))
  {
    ExecSnoc(s, [], Run(t, call));
    ExecSnoc(s, [Run(t, call)], Run(t, Continue));
    ExecSnoc(s, [Run(t, call)] + [Run(t, Continue)], Run(t, Continue));
  }

  /** `a` acquires; `x` fails and prepares to register. */
  lemma Meeting(m: Threads, a: Tid, x: Tid) returns (w: Word)
    requires a in m && x in m && a != x && m[a] == Idle(Success) && m[x] == Idle(Success)
    ensures Decode(w) == Fields(a, 0, 0, 0)
    ensures Exec(State(0, m, FRESH), [Run(a, DoLock)] + [Run(a, Continue)] + [Run(x, DoLock)] + [Run(x, Continue)])
         == Two(w, m, a, Holding(Success), x, RegisterCas(w, PlainInc(x)), FRESH)
  {
    hide Owner, Count, NeedRecover, Registering, Wrap, ClearOwner, ClearRegistering, MtxLockval, UnlockVal;
    var s0 := State(0, m, FRESH);
    DecodePack(Fields(0, 0, 0, 0));
    PlainAcquireFields(0, a);
    w := Wrap(0 + PlainInc(a));
    var r2 := [Run(a, DoLock)] + [Run(a, Continue)];
    ExecSnoc(s0, [], Run(a, DoLock));
    ExecSnoc(s0, [Run(a, DoLock)], Run(a, Continue));
    ExecSnoc(s0, r2, Run(x, DoLock));
    ExecSnoc(s0, r2 + [Run(x, DoLock)], Run(x, Continue));
    assert Exec(s0, r2) == State(w, m[a := Holding(Success)], FRESH);
  }

  /** `a` unlocks with nobody counted. */
  lemma UnlockUnseen(m: Threads, a: Tid, x: Tid, px: Pc, w: Word)
    requires a in m && x in m && a != x && Decode(w) == Fields(a, 0, 0, 0)
    ensures Exec(Two(w, m, a, Holding(Success), x, px, FRESH), Three(a, DoUnlock))
         == Two(0, m, a, Idle(Success), x, px, FRESH)
  {
    hide Owner, Count, NeedRecover, Registering, Wrap, ClearOwner, ClearRegistering, MtxLockval, UnlockVal;
    var s := Two(w, m, a, Holding(Success), x, px, FRESH);
    ExecThree(s, a, DoUnlock);
    UnlockFields(w, a, false);
    PackDecode(Wrap(w - UnlockVal(a, false)));
    var s2 := Two(w, m, a, UnlockSub(Success, false), x, px, FRESH);
    assert s.threads[a := UnlockLoad(Success)][a := UnlockSub(Success, false)] == s2.threads;
    assert Apply(Apply(s, Run(a, DoUnlock)), Run(a, Continue)) == s2;
    assert s2.threads[a := Idle(Success)] == m[a := Idle(Success)][x := px];
  }

  /** `x` registers in the free word; `a`, coming back, registers on top of it. */
  lemma Overlap(m: Threads, a: Tid, x: Tid, w: Word) returns (w1: Word, w2: Word)
    requires a in m && x in m && a != x && Decode(w) == Fields(a, 0, 0, 0)
    ensures Decode(w2) == Fields(0, 2, 0, a)
    ensures Exec(Two(0, m, a, Idle(Success), x, RegisterCas(w, PlainInc(x)), FRESH),
                 [Run(x, Continue)] + [Run(x, Continue)] + Three(a, DoLock))
         == Two(w2, m, a, RegisterRelease(PlainInc(a)), x, RegisterRelease(PlainInc(x)), FRESH)
  {
    hide Owner, Count, NeedRecover, Registering, Wrap, ClearOwner, ClearRegistering, MtxLockval, UnlockVal;
    var s0 := Two(0, m, a, Idle(Success), x, RegisterCas(w, PlainInc(x)), FRESH);
    DecodePack(Fields(0, 0, 0, 0));
    var r := [Run(x, Continue)] + [Run(x, Continue)];
    ExecSnoc(s0, [], Run(x, Continue));
    ExecSnoc(s0, [Run(x, Continue)], Run(x, Continue));
    var s1 := Two(0, m, a, Idle(Success), x, RegisterCas(0, PlainInc(x)), FRESH);
    assert s0.threads[x := RegisterCas(0, PlainInc(x))] == s1.threads;
    assert Exec(s0, [Run(x, Continue)]) == s1;
    assert s1.threads[x := RegisterRelease(PlainInc(x))] == m[a := Idle(Success)][x := RegisterRelease(PlainInc(x))];
    RegisterFields(0, x);
    w1 := Wrap(ClearRegistering(0) + MtxLockval(0, x, 1));
    var s2 := Two(w1, m, a, Idle(Success), x, RegisterRelease(PlainInc(x)), FRESH);
    assert Exec(s0, r) == s2;
    ExecConcat(s0, r, Three(a, DoLock));
    ExecThree(s2, a, DoLock);
    RegisterFields(w1, a);
    w2 := Wrap(ClearRegistering(w1) + MtxLockval(0, a, 1));
    SecondRegistration(m, a, x, w1);
  }

  lemma SecondRegistration(m: Threads, a: Tid, x: Tid, w1: Word)
    requires a in m && x in m && a != x && Decode(w1) == Fields(0, 1, 0, x)
    ensures Apply(Apply(Apply(Two(w1, m, a, Idle(Success), x, RegisterRelease(PlainInc(x)), FRESH),
                              Run(a, DoLock)), Run(a, Continue)), Run(a, Continue))
         == Two(Wrap(ClearRegistering(w1) + MtxLockval(0, a, 1)), m,
                a, RegisterRelease(PlainInc(a)), x, RegisterRelease(PlainInc(x)), FRESH)
  {
    hide Owner, Count, NeedRecover, Registering, Wrap, ClearOwner, ClearRegistering, MtxLockval, UnlockVal;
    DecodePack(Fields(0, 0, 0, 0));
    var px := RegisterRelease(PlainInc(x));
    var s2 := Two(w1, m, a, Idle(Success), x, px, FRESH);
    var s3 := Two(w1, m, a, LockCas(0, PlainInc(a), false), x, px, FRESH);
    assert m[a := Idle(Success)][x := px][a := LockCas(0, PlainInc(a), false)] == s3.threads;
    assert Apply(s2, Run(a, DoLock)) == s3;
    var s4 := Two(w1, m, a, RegisterCas(w1, PlainInc(a)), x, px, FRESH);
    assert s3.threads[a := RegisterCas(w1, PlainInc(a))] == s4.threads;
    assert Apply(s3, Run(a, Continue)) == s4;
    assert s4.threads[a := RegisterRelease(PlainInc(a))] == m[a := RegisterRelease(PlainInc(a))][x := px];
  }

  /** Both release; the residue makes both swaps fail. */
  lemma Residue(m: Threads, a: Tid, x: Tid, w2: Word) returns (w: Word)
    requires a in m && x in m && a != x && Decode(w2) == Fields(0, 2, 0, a)
    ensures Decode(w) == Fields(0, 2, 0, TWO23 - x)
    ensures Exec(Two(w2, m, a, RegisterRelease(PlainInc(a)), x, RegisterRelease(PlainInc(x)), FRESH),
                 [Run(x, Continue)] + [Run(a, Continue)] + [Run(x, Continue)] + [Run(a, Continue)])
         == Two(w, m, a, AtWait(WaiterInc(a)), x, AtWait(WaiterInc(x)), FRESH)
  {
    hide Owner, Count, NeedRecover, Registering, Wrap, ClearOwner, ClearRegistering, MtxLockval, UnlockVal;
    var s0 := Two(w2, m, a, RegisterRelease(PlainInc(a)), x, RegisterRelease(PlainInc(x)), FRESH);
    var r2 := [Run(x, Continue)] + [Run(a, Continue)];
    ExecSnoc(s0, [], Run(x, Continue));
    ExecSnoc(s0, [Run(x, Continue)], Run(a, Continue));
    ExecSnoc(s0, r2, Run(x, Continue));
    ExecSnoc(s0, r2 + [Run(x, Continue)], Run(a, Continue));
    ReleaseFields(w2, x);
    var w3 := Wrap(w2 - MtxLockval(0, x, 0));
    ReleaseFields(w3, a);
    w := Wrap(w3 - MtxLockval(0, a, 0));
    MasksIsolateFields(w2);
    MasksIsolateFields(w3);
    var px := LockCas(ClearOwner(ClearRegistering(w2)), WaiterInc(x), true);
    var pa := LockCas(ClearOwner(ClearRegistering(w3)), WaiterInc(a), true);
    var s1 := Two(w3, m, a, RegisterRelease(PlainInc(a)), x, px, FRESH);
    assert s0.threads[x := px] == s1.threads;
    assert Exec(s0, [Run(x, Continue)]) == s1;
    var s2 := Two(w, m, a, pa, x, px, FRESH);
    assert s1.threads[a := pa] == s2.threads;
    assert Exec(s0, r2) == s2;
    BothFail(m, a, pa, x, px, w);
  }

  lemma BothFail(m: Threads, a: Tid, pa: Pc, x: Tid, px: Pc, w: Word)
    requires a in m && x in m && a != x && !IsUnrecoverable(w)
    requires pa.LockCas? && pa.notified && pa.seen != w && px.LockCas? && px.notified && px.seen != w
    ensures Apply(Apply(Two(w, m, a, pa, x, px, FRESH), Run(x, Continue)), Run(a, Continue))
         == Two(w, m, a, AtWait(pa.inc), x, AtWait(px.inc), FRESH)
  {
    hide Owner, Count, NeedRecover, Registering, Wrap, ClearOwner, ClearRegistering, MtxLockval, UnlockVal;
    assert m[a := pa][x := px][x := AtWait(px.inc)] == m[a := pa][x := AtWait(px.inc)];
    assert m[a := pa][x := AtWait(px.inc)][a := AtWait(pa.inc)] == m[a := AtWait(pa.inc)][x := AtWait(px.inc)];
  }

  /** Both ask the server, which knows of no wake-up. */
  lemma FallAsleep(m: Threads, a: Tid, x: Tid, w: Word)
    requires a in m && x in m && a != x && Decode(w) == Fields(0, 2, 0, TWO23 - x)
    requires forall t :: t in m ==> m[t] == Idle(Success)
    ensures Stuck(Exec(Two(w, m, a, AtWait(WaiterInc(a)), x, AtWait(WaiterInc(x)), FRESH),
                       [Run(x, Continue)] + [Run(a, Continue)]))
  {
    hide Owner, Count, NeedRecover, Registering, Wrap, ClearOwner, ClearRegistering, MtxLockval, UnlockVal;
    var s0 := Two(w, m, a, AtWait(WaiterInc(a)), x, AtWait(WaiterInc(x)), FRESH);
    ExecSnoc(s0, [], Run(x, Continue));
    ExecSnoc(s0, [Run(x, Continue)], Run(a, Continue));
    var s2 := Exec(s0, [Run(x, Continue)] + [Run(a, Continue)]);
    assert a in RegisteredSet(s2.threads);
  }

  lemma OverlapStrands(ids: set<Tid>, a: Tid, x: Tid) returns (run: seq<Label>)
    requires a in ids && x in ids && a != x
    ensures Stuck(Exec(Initial(ids, false), run))
  {
    var s0 := Initial(ids, false);
    var m := s0.threads;
    var r1 := [Run(a, DoLock)] + [Run(a, Continue)] + [Run(x, DoLock)] + [Run(x, Continue)] + Three(a, DoUnlock);
    var w := Meeting(m, a, x);
    UnlockUnseen(m, a, x, RegisterCas(w, PlainInc(x)), w);
    ExecConcat(s0, [Run(a, DoLock)] + [Run(a, Continue)] + [Run(x, DoLock)] + [Run(x, Continue)], Three(a, DoUnlock));
    var r2 := [Run(x, Continue)] + [Run(x, Continue)] + Three(a, DoLock);
    var w1, w2 := Overlap(m, a, x, w);
    ExecConcat(s0, r1, r2);
    var r3 := [Run(x, Continue)] + [Run(a, Continue)] + [Run(x, Continue)] + [Run(a, Continue)];
    var w3 := Residue(m, a, x, w2);
    ExecConcat(s0, r1 + r2, r3);
    var r4 := [Run(x, Continue)] + [Run(a, Continue)];
    FallAsleep(m, a, x, w3);
    ExecConcat(s0, r1 + r2 + r3, r4);
    run := r1 + r2 + r3 + r4;
  }

  ghost predicate StuckAfter(ids: set<Tid>, run: seq<Label>) {
    Stuck(Exec(Initial(ids, false), run))
  }

  /** If overlapping registrations are not ruled out, wake-ups are safe exactly for a single thread. */
  lemma WakeUpsExactly(ids: set<Tid>)
    ensures (forall run :: !StuckAfter(ids, run)) <==> |ids| <= 1
  {
    if |ids| <= 1 {
      forall run ensures !StuckAfter(ids, run) {
        AloneIsOrderly(ids, run);
        NoLostWakeUp(ids, false, run);
      }
    } else {
      var a :| a in ids;
      assert |ids - {a}| == |ids| - 1;
      var x :| x in ids - {a};
      var run := OverlapStrands(ids, a, x);
      assert StuckAfter(ids, run);
    }
  }

  lemma AloneIsOrderly(ids: set<Tid>, run: seq<Label>)
    requires |ids| <= 1
    ensures Orderly(Initial(ids, false), run)
  {
    var s0 := Initial(ids, false);
    InitialInv(ids, false);
    DecodePack(Fields(0, 0, 0, 0));
    forall k | 0 <= k <= |run| ensures OnTime(Exec(s0, run[..k])) && OneRegistering(Exec(s0, run[..k]).threads) {
      CleanRun(s0, run[..k]);
      RunKeys(s0, run[..k]);
      assert Exec(s0, run[..k]).threads.Keys == ids;
      forall t, u | t in ids && u in ids ensures t == u {
        if t != u { assert |{t, u}| == 2; assert {t, u} <= ids; SubsetSize({t, u}, ids); }
      }
    }
  }
}
