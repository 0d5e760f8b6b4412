/**
 Mutual exclusion from a word whose owner died (src/thread-win32.c). If the mutex is given up while a
 thread is in the registration loop, that thread can take it again through a carry out of the owner field,
 and the count keeps the waiters that have left. This module follows such runs: as long as nobody has the id
 1 and at most 128 threads use the mutex, the thread that took it again is the last one ever to hold it.
 */
module MutexDirty {
  import opened LockWord
  import opened Referee
  import opened MutexProtocol
  import opened MutexSafety
  import opened MutexRuns
  import opened MutexRobust

  const MAX_DIRTY := 128

  /** What the local variables say without reference to the word. */
  ghost predicate Sane(t: Tid, pc: Pc) {
    match pc
    case LockCas(seen, inc, notified) =>
      if notified then Owner(seen) == 0 && inc == WaiterInc(t)
      else inc == PlainInc(t) && (Owner(seen) == 0 || IsUnrecoverable(seen))
    case RegisterCas(seen, inc) => !IsWaiterListFull(seen) && !IsUnrecoverable(seen) && inc == PlainInc(t)
    case RegisterReload(_) => false
    case RegisterRelease(inc) => inc == PlainInc(t)
    case AtWait(inc) => inc == WaiterInc(t)
    case Asleep(inc) => inc == WaiterInc(t)
    case Reload(inc) => inc == WaiterInc(t)
    case TryCas(_, seen, _) => Owner(seen) == 0
    case _ => true
  }

  ghost predicate AllSane(m: Threads) {
    forall t :: t in m ==> Sane(t, m[t])
  }

  /** In the registration loop, or out of it with the lost word in hand. */
  ghost predicate Late(pc: Pc) {
    pc.RegisterCas? || (pc.LockCas? && !pc.notified && IsUnrecoverable(pc.seen))
  }

  ghost predicate Small(m: Threads) {
    |m| <= MAX_DIRTY && 1 !in m
  }

  /** Nobody holds the lost mutex; if a thread can still take it, the count leaves out two threads at least. */
  ghost predicate Lost(s: State) {
    && Small(s.threads) && AllSane(s.threads) && IsUnrecoverable(s.word)
    && (forall t :: t in s.threads ==> !IsHolder(s.threads[t]))
    && ((exists t :: t in s.threads && Late(s.threads[t])) ==> Count(s.word) <= |s.threads| - 2)
  }

  /** What the word says while `x`, who took the mutex again, holds it: the owner is off by one. */
  ghost predicate Usurps(f: Fields, x: Tid, pc: Pc) {
    IsHolder(pc) ==>
      && f.owner == x - 1 && f.count > 0
      && (pc.UnlockSub? ==> pc.unrecoverable == (f.recover == 1))
      && (pc.ConsistentSub? ==> f.recover == 1)
  }

  /** The mutex was taken again by `x`; from now on it never looks free. */
  ghost predicate Usurped(s: State, x: Tid) {
    && Small(s.threads) && AllSane(s.threads)
    && Owner(s.word) != 0 && !IsUnrecoverable(s.word)
    && x in s.threads && (forall t :: t in s.threads && IsHolder(s.threads[t]) ==> t == x)
    && Usurps(Decode(s.word), x, s.threads[x])
    && Count(s.word) <= |s.threads| - 1 + Sum(Registered, s.threads)
  }

  ghost predicate Tracked(s: State) {
    (Inv(s) && Small(s.threads)) || Lost(s) || exists x :: x in s.threads && Usurped(s, x)
  }

  // ---------------------------------------------------------------- the word after the carry

  lemma CarryFields(w: Word, x: Tid)
    requires Owner(w) == OWNER_MASK && Count(w) < MAX_COUNT
    ensures Decode(Wrap(w + PlainInc(x))) == Decode(w).(owner := x - 1, count := Count(w) + 1)
  {
    PackDecode(w);
    DecodeOf(Wrap(w + PlainInc(x)), Decode(w).(owner := x - 1, count := Count(w) + 1));
  }

  /** The unlock of a thread that is not the recorded owner, but one above it. */
  lemma BorrowFields(w: Word, x: Tid, unrecoverable: bool)
    requires Owner(w) == x - 1 && Count(w) > 0
    ensures Decode(Wrap(w - UnlockVal(x, unrecoverable)))
         == if unrecoverable then Decode(w).(owner := OWNER_MASK - 1)
            else Decode(w).(owner := OWNER_MASK, count := Count(w) - 1)
  {
    PackDecode(w);
    var f := Decode(w);
    if unrecoverable {
      DecodeOf(Wrap(w - UnlockVal(x, true)), f.(owner := OWNER_MASK - 1));
    } else {
      DecodeOf(Wrap(w - UnlockVal(x, false)), f.(owner := OWNER_MASK, count := f.count - 1));
    }
  }

  // ---------------------------------------------------------------- steps

  /** A step that moves its own thread only, to a sane place, without touching owner, count and recover bit. */
  lemma LostGoto(s: State, t: Tid, pc: Pc, w: Word, l: Lock)
    requires Lost(s) && t in s.threads && Sane(t, pc) && !IsHolder(pc) && (Late(pc) ==> Late(s.threads[t]))
    requires Decode(w) == Decode(s.word).(registering := Registering(w))
    ensures Lost(State(w, s.threads[t := pc], l))
  {
    var m := s.threads[t := pc];
    assert m.Keys == s.threads.Keys;
    assert |m.Keys| == |m| && |s.threads.Keys| == |s.threads|;
  }

  lemma WakeSane(m: Threads, woken: seq<Waiter>)
    requires AllSane(m)
    ensures AllSane(Released(m, woken))
  {
  }

  lemma LostWake(s: State, t: Tid)
    requires Lost(s) && t in s.threads && s.threads[t].UnlockWake?
    ensures Lost(WakeNext(s, t, s.threads[t].num))
  {
    var m := Released(s.threads, Chosen(s.server.queue, s.threads[t].num, 1));
    WakeSane(s.threads, Chosen(s.server.queue, s.threads[t].num, 1));
    assert m.Keys == s.threads.Keys;
    assert |m.Keys| == |m| && |s.threads.Keys| == |s.threads|;
    LostGoto(State(s.word, m, s.server), t, Idle(Success), s.word, WakeWaiters(s.server, s.threads[t].num, 1));
  }

  /** The one way out of the lost state. */
  lemma TakesAgain(s: State, x: Tid)
    requires Lost(s) && x in s.threads && s.threads[x].LockCas? && s.threads[x].seen == s.word
    ensures Usurped(LockCasNext(s, x, s.word, s.threads[x].inc, s.threads[x].notified), x)
  {
    assert Sane(x, s.threads[x]) && Late(s.threads[x]);
    CarryFields(s.word, x);
    var s' := LockCasNext(s, x, s.word, s.threads[x].inc, false);
    assert s'.threads.Keys == s.threads.Keys;
    assert |s'.threads.Keys| == |s'.threads| && |s.threads.Keys| == |s.threads|;
  }

  /** A lost mutex stays lost, or is taken again. */
  lemma LostMoves(s: State, l: Label)
    requires Lost(s)
    ensures Lost(Apply(s, l)) || (l.Run? && l.tid in s.threads && Usurped(Apply(s, l), l.tid))
  {
    hide Owner, Count, NeedRecover, Registering, Wrap, ClearOwner, ClearRegistering, MtxLockval, UnlockVal, Lost, Usurped;
    if l.Run? && l.tid in s.threads {
      var t, w := l.tid, s.word;
      var pc := s.threads[t];
      LostFactsOf(s, t);
      match pc
      case Idle(_) => LostStarts(s, t, l.call);
      case LockCas(seen, inc, notified) =>
        if w == seen {
          TakesAgain(s, t);
        } else {
          LostGoto(s, t, Idle(NotRecoverable), w, s.server);
        }
      case RegisterCas(seen, inc) => LostGoto(s, t, LockCas(w, inc, false), w, s.server);
      case RegisterReload(_) =>
      case RegisterRelease(inc) =>
        ReleaseFields(w, t);
        MasksIsolateFields(w);
        LostGoto(s, t, LockCas(ClearOwner(ClearRegistering(w)), WaiterInc(t), true),
                 Wrap(w - MtxLockval(0, t, 0)), s.server);
      case AtWait(inc) =>
        LostGoto(s, t, if ReturnsAtOnce(s.server, Waiter(t, 1)) then Reload(inc) else Asleep(inc), w,
                 AddWaiter(s.server, Waiter(t, 1)));
      case Asleep(_) =>
      case Reload(inc) =>
        MasksIsolateFields(w);
        LostGoto(s, t, LockCas(ClearOwner(w), inc, true), w, s.server);
      case TryCas(second, seen, want) => LostGoto(s, t, Idle(NotRecoverable), w, s.server);
      case UnlockWake(num) => LostWake(s, t);
      case _ =>
    } else if l.Sweep? {
      LostSweep(s);
    }
  }

  lemma LostFactsOf(s: State, t: Tid)
    requires Lost(s) && t in s.threads
    ensures Sane(t, s.threads[t]) && !IsHolder(s.threads[t]) && IsUnrecoverable(s.word) && Owner(s.word) != 0
    ensures Decode(s.word) == Decode(s.word).(registering := Registering(s.word))
  {
  }

  lemma LostStarts(s: State, t: Tid, call: Call)
    requires Lost(s) && t in s.threads && s.threads[t].Idle?
    ensures Lost(Advance(s, t, call))
  {
    hide Lost;
    assert Owner(0) == 0 && NeedRecover(0) == 0;
    LostFactsOf(s, t);
    if call == DoLock {
      LostGoto(s, t, LockCas(0, PlainInc(t), false), s.word, s.server);
    } else if call == DoTryLock {
      LostGoto(s, t, TryCas(false, 0, PlainInc(t)), s.word, s.server);
    }
  }

  lemma LostSweep(s: State)
    requires Lost(s)
    ensures Lost(Apply(s, Sweep))
  {
  }

  /** A step of `t` under the usurper `x` that registers at most itself and keeps the mutex from looking free. */
  lemma UsurpedGoto(s: State, x: Tid, t: Tid, pc: Pc, w: Word, l: Lock)
    requires Usurped(s, x) && t in s.threads && Sane(t, pc)
    requires IsHolder(pc) ==> t == x
    requires Owner(w) != 0 && !IsUnrecoverable(w) && Usurps(Decode(w), x, if t == x then pc else s.threads[x])
    requires Count(w) + Weight(Registered, s.threads[t]) <= Count(s.word) + Weight(Registered, pc)
    ensures Usurped(State(w, s.threads[t := pc], l), x)
  {
    hide Owner, NeedRecover, Registering, Count;
    var m := s.threads[t := pc];
    SumGoto(Registered, s.threads, t, pc);
    assert m.Keys == s.threads.Keys;
    assert |m.Keys| == |m| && |s.threads.Keys| == |s.threads|;
  }

  /** In a small crowd a thread that is not registered never finds the list full. */
  lemma UsurpedFacts(s: State, x: Tid, t: Tid)
    requires Usurped(s, x) && t in s.threads
    ensures Sane(t, s.threads[t]) && Owner(s.word) != 0 && !IsUnrecoverable(s.word)
    ensures IsHolder(s.threads[t]) ==> t == x
    ensures x in s.threads && Usurps(Decode(s.word), x, s.threads[x])
    ensures !IsRegistered(s.threads[t]) ==> Count(s.word) < MAX_COUNT
  {
    if !IsRegistered(s.threads[t]) {
      UnregisteredSees(s.threads, t);
    }
  }

  lemma UsurpedRelease(s: State, x: Tid, woken: seq<Waiter>)
    requires Usurped(s, x)
    ensures Usurped(s.(threads := Released(s.threads, woken)), x)
  {
    hide Owner, NeedRecover, Registering, Count, AllSane, Released;
    var m := Released(s.threads, woken);
    WakeSane(s.threads, woken);
    ReleasedIsSome(s.threads, woken);
    SumAgrees(Registered, s.threads, m);
  }

  lemma UsurpedWake(s: State, x: Tid, t: Tid)
    requires Usurped(s, x) && t in s.threads && s.threads[t].UnlockWake?
    ensures Usurped(WakeNext(s, t, s.threads[t].num), x)
  {
    hide Usurped, Chosen;
    var woken := Chosen(s.server.queue, s.threads[t].num, 1);
    var s1 := s.(threads := Released(s.threads, woken));
    UsurpedRelease(s, x, woken);
    UsurpedFacts(s1, x, t);
    UsurpedGoto(s1, x, t, Idle(Success), s.word, WakeWaiters(s.server, s.threads[t].num, 1));
  }

  /** The usurper's own unlock and recovery leave an owner that is nobody. */
  lemma UsurperMoves(s: State, x: Tid, call: Call)
    requires Usurped(s, x) && x in s.threads && IsHolder(s.threads[x])
    ensures Usurped(Advance(s, x, call), x)
  {
    hide Owner, Count, NeedRecover, Registering, Wrap, UnlockVal, Usurped;
    UsurpedFacts(s, x, x);
    var w := s.word;
    match s.threads[x]
    case Holding(ret) =>
      if call == DoUnlock {
        UsurpedGoto(s, x, x, UnlockLoad(ret), w, s.server);
      } else if call == DoConsistent {
        UsurpedGoto(s, x, x, ConsistentLoad(ret), w, s.server);
      }
    case UnlockLoad(ret) => UsurpedGoto(s, x, x, UnlockSub(ret, IsOwnerDead(w)), w, s.server);
    case UnlockSub(_, unrecoverable) =>
      BorrowFields(w, x, unrecoverable);
      UsurpedGoto(s, x, x, if IsWaited(w) then UnlockWake(if unrecoverable then Count(w) else 1) else Idle(Success),
                  Wrap(w - UnlockVal(x, unrecoverable)), s.server);
    case ConsistentLoad(ret) =>
      UsurpedGoto(s, x, x, if IsOwnerDead(w) then ConsistentSub(ret) else Holding(ret), w, s.server);
    case ConsistentSub(ret) =>
      ConsistentFields(w);
      UsurpedGoto(s, x, x, Holding(ret), Wrap(w - TWO40), s.server);
  }

  /** Everybody else comes back empty-handed, or waits. */
  lemma UsurpedOthers(s: State, x: Tid, t: Tid, call: Call)
    requires Usurped(s, x) && t in s.threads && !IsHolder(s.threads[t])
    ensures Usurped(Advance(s, t, call), x)
  {
    hide Owner, Count, NeedRecover, Registering, Wrap, ClearOwner, ClearRegistering, MtxLockval, UnlockVal, Usurped;
    UsurpedFacts(s, x, t);
    var w := s.word;
    match s.threads[t]
    case Idle(_) => UsurpedStarts(s, x, t, call);
    case LockCas(seen, inc, notified) =>
      UsurpedGoto(s, x, t, if notified then AtWait(inc) else RegisterCas(w, inc), w, s.server);
    case RegisterCas(seen, inc) =>
      if w == seen {
        RegisterFields(w, t);
        UsurpedGoto(s, x, t, RegisterRelease(inc), Wrap(ClearRegistering(w) + MtxLockval(0, t, 1)), s.server);
      } else {
        UsurpedGoto(s, x, t, RegisterCas(w, inc), w, s.server);
      }
    case RegisterReload(_) =>
    case RegisterRelease(inc) =>
      ReleaseFields(w, t);
      MasksIsolateFields(w);
      UsurpedGoto(s, x, t, LockCas(ClearOwner(ClearRegistering(w)), WaiterInc(t), true),
                  Wrap(w - MtxLockval(0, t, 0)), s.server);
    case AtWait(inc) =>
      UsurpedGoto(s, x, t, if ReturnsAtOnce(s.server, Waiter(t, 1)) then Reload(inc) else Asleep(inc), w,
                  AddWaiter(s.server, Waiter(t, 1)));
    case Asleep(_) =>
    case Reload(inc) =>
      MasksIsolateFields(w);
      UsurpedGoto(s, x, t, LockCas(ClearOwner(w), inc, true), w, s.server);
    case TryCas(second, seen, want) =>
      MasksIsolateFields(w);
      UsurpedGoto(s, x, t, if second then Idle(Busy) else TryCas(true, ClearOwner(w), Wrap(want + ClearOwner(w))),
                  w, s.server);
    case UnlockWake(num) => UsurpedWake(s, x, t);
    case _ =>
  }

  lemma UsurpedStarts(s: State, x: Tid, t: Tid, call: Call)
    requires Usurped(s, x) && t in s.threads && s.threads[t].Idle?
    ensures Usurped(Advance(s, t, call), x)
  {
    hide Usurped;
    assert Owner(0) == 0;
    UsurpedFacts(s, x, t);
    if call == DoLock {
      UsurpedGoto(s, x, t, LockCas(0, PlainInc(t), false), s.word, s.server);
    } else if call == DoTryLock {
      UsurpedGoto(s, x, t, TryCas(false, 0, PlainInc(t)), s.word, s.server);
    }
  }

  lemma UsurpedSweep(s: State, x: Tid)
    requires Usurped(s, x)
    ensures Usurped(Apply(s, Sweep), x)
  {
  }

  lemma UsurpedMoves(s: State, x: Tid, l: Label)
    requires Usurped(s, x)
    ensures Usurped(Apply(s, l), x)
  {
    hide Usurped;
    if l.Run? && l.tid in s.threads {
      UsurpedFacts(s, x, l.tid);
      if IsHolder(s.threads[l.tid]) {
        UsurperMoves(s, x, l.call);
      } else {
        UsurpedOthers(s, x, l.tid, l.call);
      }
    } else if l.Sweep? {
      UsurpedSweep(s, x);
    }
  }

  /** The step that gives the mutex up while somebody is in the registration loop. */
  lemma BecomesLost(s: State, l: Label)
    requires Inv(s) && Small(s.threads) && !OnTime(Apply(s, l))
    ensures Lost(Apply(s, l))
  {
    hide InvOn;
    var s' := Apply(s, l);
    assert !IsUnrecoverable(s.word) by {
      if IsUnrecoverable(s.word) {
        StaysOnTime(s, l);
      }
    }
    GivingUp(s, l);
    StepKeepsInv(s, l);
    StepKeys(s, l);
    assert |s'.threads.Keys| == |s'.threads| && |s.threads.Keys| == |s.threads|;
    LostLocals(s');
    TwoOutside(s, s', l);
  }

  lemma StaysOnTime(s: State, l: Label)
    requires Inv(s) && IsUnrecoverable(s.word)
    ensures OnTime(Apply(s, l))
  {
    LostStep(s, l);
  }

  lemma LostLocals(s: State)
    requires Core(s) && IsUnrecoverable(s.word)
    ensures AllSane(s.threads) && forall t :: t in s.threads ==> !IsHolder(s.threads[t])
  {
    assert Owner(0) == 0;
    forall t | t in s.threads ensures Sane(t, s.threads[t]) && !IsHolder(s.threads[t]) {
      assert LocalOk(Decode(s.word), t, s.threads[t]) && Owner(s.word) != t;
    }
  }

  /** Neither the thread that gave up nor the late one is counted. */
  lemma TwoOutside(s: State, s': State, l: Label)
    requires Inv(s) && !IsUnrecoverable(s.word) && s' == Apply(s, l) && l.Run? && l.tid in s.threads
    requires s.threads[l.tid].UnlockSub? && s'.threads.Keys == s.threads.Keys && Count(s'.word) == Count(s.word)
    requires !OnTime(s')
    ensures Count(s'.word) <= |s.threads| - 2
  {
    hide Count;
    var t :| t in s'.threads && s'.threads[t].RegisterCas?;
    var a := l.tid;
    assert t != a;
    Bystanders(s, a, l.call, t);
    SumSplit(Registered, s.threads, a);
    UnregisteredSees(s.threads - {a}, t);
    assert Count(s.word) == Sum(Registered, s.threads) by { ExclusiveOf(s); }
  }

  lemma StepTracked(s: State, l: Label)
    requires Tracked(s)
    ensures Tracked(Apply(s, l))
  {
    hide InvOn, Lost, Usurped;
    if Inv(s) && Small(s.threads) {
      StepKeepsInv(s, l);
      StepKeys(s, l);
      assert |Apply(s, l).threads.Keys| == |Apply(s, l).threads| && |s.threads.Keys| == |s.threads|;
      if !OnTime(Apply(s, l)) {
        BecomesLost(s, l);
      }
    } else if Lost(s) {
      LostMoves(s, l);
      StepKeys(s, l);
    } else {
      var x :| x in s.threads && Usurped(s, x);
      UsurpedMoves(s, x, l);
      StepKeys(s, l);
    }
  }

  lemma TrackedIsExclusive(s: State)
    requires Tracked(s)
    ensures Exclusive(s)
  {
    if Inv(s) {
      ExclusiveOf(s);
    }
  }

  lemma {:induction false} RunTracked(ids: set<Tid>, run: seq<Label>)
    requires |ids| <= MAX_DIRTY && 1 !in ids
    ensures Tracked(Exec(Initial(ids, true), run))
  {
    hide InvOn, Lost, Usurped;
    var s0 := Initial(ids, true);
    if run == [] {
      InitialInv(ids, true);
      assert s0.threads.Keys == ids;
      assert |s0.threads.Keys| == |s0.threads|;
    } else {
      RunTracked(ids, run[..|run| - 1]);
      StepTracked(Exec(s0, run[..|run| - 1]), run[|run| - 1]);
    }
  }

  /** On-time runs from such a word exclude each other like runs from a zero word. */
  lemma OnTimeExclusion(ids: set<Tid>, run: seq<Label>)
    requires |ids| <= MAX_COUNT && RunOnTime(Initial(ids, true), run)
    ensures var s := Exec(Initial(ids, true), run);
            && Exclusive(s)
            && (forall t :: t in s.threads ==> (IsHolder(s.threads[t]) <==> Owner(s.word) == t))
            && (!IsUnrecoverable(s.word) ==> Count(s.word) == |RegisteredSet(s.threads)|)
  {
    InitialInv(ids, true);
    RunKeepsInv(Initial(ids, true), run);
    ExclusiveOf(Exec(Initial(ids, true), run));
    SumIsCardinality(Exec(Initial(ids, true), run).threads);
  }
}
