/**
 What the calls of the mutex report (src/thread-win32.c:395-415, 464-621): a lock or trylock ends by holding the
 mutex, or else with an error and nothing changed; trylock gives up only if the mutex was held or changed under it.
 */
module MutexCalls {
  import opened LockWord
  import opened Referee
  import opened MutexProtocol
  import opened MutexSafety
  import opened MutexRuns
  import opened MutexRobust
  import opened MutexRevival
  import RefereeTheory

  /** Inside a call of lock or trylock. */
  predicate IsAcquiring(pc: Pc) {
    pc.LockCas? || pc.RegisterCas? || pc.RegisterReload? || pc.RegisterRelease? || pc.AtWait? || pc.Asleep? || pc.Reload?
    || pc.TryCas?
  }

  /** Inside a call of unlock. */
  predicate IsReleasing(pc: Pc) {
    pc.UnlockLoad? || pc.UnlockSub? || pc.UnlockWake?
  }

  /**
   How a call can end, whatever the state: an acquiring call ends by holding the mutex, or with ENOTRECOVERABLE on a
   lost mutex, or, for trylock only, with EBUSY on a mutex that is not lost, and in both cases nothing has changed but the
   thread; success without holding is reported by unlock only.
   */
  lemma CallEnds(s: State, l: Label, t: Tid)
    requires t in s.threads && !s.threads[t].Idle? && t in Apply(s, l).threads && Apply(s, l).threads[t].Idle?
    ensures l.Run? && l.tid == t
    ensures var r := Apply(s, l).threads[t].last;
            && (IsAcquiring(s.threads[t]) ==>
                  && Apply(s, l) == Goto(s, t, Idle(r))
                  && r == (if IsUnrecoverable(s.word) then NotRecoverable else Busy)
                  && (r == Busy ==> s.threads[t].TryCas?))
            && (!IsAcquiring(s.threads[t]) ==> IsReleasing(s.threads[t]) && r == Success)
  {
    hide Owner, Count, NeedRecover, Registering, Wrap, ClearOwner, ClearRegistering, MtxLockval, UnlockVal, Chosen, Left;
    hide Released;
    if l.Run? && l.tid in s.threads && l.tid != t {
      Bystanders(s, l.tid, l.call, t);
    }
  }

  /** The result that a thread has last been told, as long as it is idle, belongs to its own last call. */
  lemma IdleStays(s: State, l: Label, t: Tid)
    requires t in s.threads && s.threads[t].Idle? && t in Apply(s, l).threads
    ensures Apply(s, l).threads[t] == s.threads[t]
         || (l == Run(t, DoLock) && Apply(s, l).threads[t].LockCas?)
         || (l == Run(t, DoTryLock) && Apply(s, l).threads[t].TryCas?)
  {
    hide Chosen, Left, Released;
    if l.Run? && l.tid in s.threads && l.tid != t {
      Bystanders(s, l.tid, l.call, t);
    }
  }

  /** The request that a label makes to the server, if any. */
  function Requested(s: State, l: Label): seq<RefereeTheory.Op> {
    match l
    case Run(t, _) =>
      if t !in s.threads then []
      else if s.threads[t].AtWait? then [RefereeTheory.Wait(Waiter(t, 1))]
      else if s.threads[t].UnlockWake? then [RefereeTheory.Wake(s.threads[t].num, 1)]
      else []
    case Sweep => [RefereeTheory.Collect]
  }

  /** The server of the mutex is the lock whose history has been studied, and nothing else touches it. */
  lemma ServerFollows(s: State, l: Label, g: RefereeTheory.Log)
    requires g.lock == s.server
    ensures var ops := Requested(s, l);
            Apply(s, l).server == if ops == [] then g.lock else RefereeTheory.Step(g, ops[0]).lock
  {
    hide Owner, Count, NeedRecover, Registering, Wrap, ClearOwner, ClearRegistering, MtxLockval, UnlockVal, Chosen, Left;
    hide Released;
  }

  /** Who goes to sleep, who goes on and who is woken is what the lock answers and delivers. */
  lemma ServerAnswers(s: State, l: Label, t: Tid)
    requires t in s.threads && t in Apply(s, l).threads
    ensures s.threads[t].AtWait? && l.Run? && l.tid == t ==>
              (Apply(s, l).threads[t].Reload? <==> ReturnsAtOnce(s.server, Waiter(t, 1)))
              && (Apply(s, l).threads[t].Asleep? <==> !ReturnsAtOnce(s.server, Waiter(t, 1)))
    ensures s.threads[t].Asleep? ==>
              (Apply(s, l).threads[t].Reload? <==>
                 l.Run? && l.tid in s.threads && s.threads[l.tid].UnlockWake?
                 && Waiter(t, 1) in Chosen(s.server.queue, s.threads[l.tid].num, 1))
  {
    hide Owner, Count, NeedRecover, Registering, Wrap, ClearOwner, ClearRegistering, MtxLockval, UnlockVal, Chosen, Left;
    if l.Run? && l.tid in s.threads && l.tid != t && !s.threads[l.tid].UnlockWake? {
      MovesItself(s, l.tid, l.call);
    }
  }

  // ---------------------------------------------------------------- trylock, among others

  /** The word stood so at some moment of the run. */
  ghost predicate Stood(s: State, run: seq<Label>, w: Word) {
    exists k :: 0 <= k <= |run| && StoodAt(s, run, k, w)
  }

  ghost predicate StoodAt(s: State, run: seq<Label>, k: nat, w: Word)
    requires k <= |run|
  {
    Exec(s, run[..k]).word == w
  }

  /** Within the run, which starts with the call, `t` is inside its trylock all the time. */
  ghost predicate Trying(s: State, run: seq<Label>, t: Tid) {
    && run != [] && run[0] == Run(t, DoTryLock)
    && t in s.threads && s.threads[t].Idle?
    && forall k :: 0 < k <= |run| ==> TryingAt(s, run, k, t)
  }

  ghost predicate TryingAt(s: State, run: seq<Label>, k: nat, t: Tid)
    requires k <= |run|
  {
    t in Exec(s, run[..k]).threads && Exec(s, run[..k]).threads[t].TryCas?
  }

  lemma StoodEarlier(s: State, run: seq<Label>, l: Label, w: Word)
    requires Stood(s, run, w)
    ensures Stood(s, run + [l], w)
  {
    hide Exec;
    var k :| 0 <= k <= |run| && StoodAt(s, run, k, w);
    assert (run + [l])[..k] == run[..k];
    assert StoodAt(s, run + [l], k, w);
  }

  lemma StandsNow(s: State, run: seq<Label>, l: Label)
    ensures Stood(s, run + [l], Exec(s, run).word)
  {
    hide Exec;
    assert (run + [l])[..|run|] == run;
    assert StoodAt(s, run + [l], |run|, Exec(s, run).word);
  }

  /** The swap expects 0 at first, and then what it has met, without the owner. */
  lemma {:induction false} TrySees(s: State, run: seq<Label>, t: Tid) returns (met: Word)
    requires Trying(s, run, t)
    ensures t in Exec(s, run).threads && Exec(s, run).threads[t].TryCas?
    ensures var pc := Exec(s, run).threads[t];
            if pc.second then Stood(s, run, met) && met != 0 && pc.seen == ClearOwner(met) else pc.seen == 0
    decreases |run|
  {
    hide Owner, Count, NeedRecover, Registering, Wrap, ClearOwner, MtxLockval, Exec, Stood;
    var n := |run| - 1;
    var front, l := run[..n], run[n];
    assert run == front + [l] && run[..|run|] == run;
    ExecSnoc(s, front, l);
    assert TryingAt(s, run, |run|, t);
    if n == 0 {
      assert Exec(s, []) == s by { NoRun(s); }
      met := 0;
    } else {
      assert Trying(s, front, t) by {
        forall k | 0 < k <= n ensures TryingAt(s, front, k, t) {
          assert TryingAt(s, run, k, t) && front[..k] == run[..k];
        }
      }
      assert TryingAt(s, front, n, t) && front[..n] == front;
      met := TrySees(s, front, t);
      var s1 := Exec(s, front);
      if l.Run? && l.tid in s1.threads && l.tid == t {
        met := s1.word;
        StandsNow(s, front, l);
      } else {
        StillTrying(s1, l, t);
        if s1.threads[t].second {
          StoodEarlier(s, front, l, met);
        }
      }
    }
  }

  lemma NoRun(s: State)
    ensures Exec(s, []) == s
  {
  }

  lemma StillTrying(s: State, l: Label, t: Tid)
    requires t in s.threads && s.threads[t].TryCas? && (l.Run? ==> l.tid != t)
    ensures t in Apply(s, l).threads && Apply(s, l).threads[t] == s.threads[t]
  {
    hide Advance;
    if l.Run? && l.tid in s.threads {
      Bystanders(s, l.tid, l.call, t);
    }
  }

  /** The last step of a trylock, from `s1` to `s2`; `met` is a word that it has met. */
  ghost predicate TryEnds(s1: State, s2: State, t: Tid, stood: bool, met: Word) {
    t in s2.threads &&
    match s2.threads[t]
    case Holding(ret) =>
      Owner(s1.word) == 0 && Owner(s2.word) == t && ret == if NeedRecover(s1.word) == 1 then OwnerDead else Success
    case Idle(ret) =>
      && s2.word == s1.word
      && ((ret == NotRecoverable && IsUnrecoverable(s1.word))
          || (ret == Busy && stood && (Owner(met) != 0 || met != s1.word)))
    case _ => false
  }

  /**
   The end of a trylock, in any interleaving: it holds the mutex and the word had no owner, or the mutex is lost, or it
   reports EBUSY, and then the mutex had an owner, or changed, during the call. Nothing but a successful one touches the word.
   */
  lemma TryLockAnswers(s: State, run: seq<Label>, t: Tid, l: Label) returns (met: Word)
    requires Trying(s, run, t) && t in Apply(Exec(s, run), l).threads
    requires !Apply(Exec(s, run), l).threads[t].TryCas?
    ensures TryEnds(Exec(s, run), Apply(Exec(s, run), l), t, Stood(s, run, met), met)
  {
    hide Owner, Count, NeedRecover, Registering, Wrap, ClearOwner, MtxLockval, Exec, Stood;
    var s1 := Exec(s, run);
    assert TryingAt(s, run, |run|, t) && run[..|run|] == run;
    met := TrySees(s, run, t);
    if l.Run? && l.tid == t {
      TryStep(s1, t, l.call, met);
      TryWant(s, run, t);
      ClearOf(met);
      if s1.word == s1.threads[t].seen {
        PlainAcquireFields(s1.word, t);
        DecodePack(Fields(0, 0, 0, 0));
      }
    } else {
      StillTrying(s1, l, t);
    }
  }

  lemma ClearOf(w: Word)
    ensures Owner(ClearOwner(w)) == 0 && Owner(0) == 0
    ensures ClearOwner(w) == w <==> Owner(w) == 0
  {
  }

  lemma TryStep(s: State, t: Tid, call: Call, met: Word)
    requires t in s.threads && s.threads[t].TryCas?
    ensures var pc := s.threads[t];
            var s' := Apply(s, Run(t, call));
            && (s.word == pc.seen ==> s'.threads[t] == Holding(AcquireResult(s.word)) && s'.word == pc.want)
            && (s.word != pc.seen ==> s'.word == s.word)
            && (s.word != pc.seen && IsUnrecoverable(s.word) ==> s'.threads[t] == Idle(NotRecoverable))
            && (s.word != pc.seen && !IsUnrecoverable(s.word) && pc.second ==> s'.threads[t] == Idle(Busy))
            && (s.word != pc.seen && !IsUnrecoverable(s.word) && !pc.second ==> s'.threads[t].TryCas?)
  {
  }

  /** What a trylock is about to store: its id on top of what it expects. */
  lemma {:induction false} TryWant(s: State, run: seq<Label>, t: Tid)
    requires Trying(s, run, t)
    ensures t in Exec(s, run).threads && Exec(s, run).threads[t].TryCas?
    ensures Exec(s, run).threads[t].want == Wrap(Exec(s, run).threads[t].seen + PlainInc(t))
    decreases |run|
  {
    hide Owner, Count, NeedRecover, Registering, ClearOwner, Exec;
    var n := |run| - 1;
    var front, l := run[..n], run[n];
    assert run == front + [l] && run[..|run|] == run;
    ExecSnoc(s, front, l);
    assert TryingAt(s, run, |run|, t);
    if n == 0 {
      NoRun(s);
    } else {
      assert Trying(s, front, t) by {
        forall k | 0 < k <= n ensures TryingAt(s, front, k, t) {
          assert TryingAt(s, run, k, t) && front[..k] == run[..k];
        }
      }
      assert TryingAt(s, front, n, t) && front[..n] == front;
      TryWant(s, front, t);
      var met := TrySees(s, front, t);
      var s1 := Exec(s, front);
      if !(l.Run? && l.tid in s1.threads && l.tid == t) {
        StillTrying(s1, l, t);
      }
    }
  }

  // ---------------------------------------------------------------- calls without interference

  /** Trylock alone: it takes the mutex exactly if it has no owner. */
  lemma TryLockAlone(s: State, t: Tid)
    requires t in s.threads && s.threads[t].Idle?
    ensures var s' := Exec(s, Acts(t, DoTryLock, 2));
            && t in s'.threads
            && (IsUnrecoverable(s.word) ==> s' == Goto(s, t, Idle(NotRecoverable)))
            && (!IsUnrecoverable(s.word) && Owner(s.word) != 0 ==> s' == Goto(s, t, Idle(Busy)))
            && (Owner(s.word) == 0 ==> s'.threads[t] == Holding(if NeedRecover(s.word) == 1 then OwnerDead else Success)
                                       && Decode(s'.word) == Decode(s.word).(owner := t) && s'.server == s.server)
  {
    hide Count, NeedRecover, Registering, Wrap, ClearOwner, MtxLockval, Owner;
    var w := s.word;
    ExecActs(s, t, DoTryLock, 0);
    ExecActs(s, t, DoTryLock, 1);
    ExecActs(s, t, DoTryLock, 2);
    DecodePack(Fields(0, 0, 0, 0));
    ClearOf(w);
    if Owner(w) == 0 {
      PlainAcquireFields(w, t);
    }
    var s1 := Goto(s, t, TryCas(false, 0, PlainInc(t)));
    assert Exec(s, Acts(t, DoTryLock, 0)) == s1;
    TryAlone(s1, t);
  }

  lemma TryAlone(s: State, t: Tid)
    requires t in s.threads && s.threads[t] == TryCas(false, 0, PlainInc(t))
    ensures var s2 := Apply(Apply(s, Run(t, Continue)), Run(t, Continue));
            && (IsUnrecoverable(s.word) ==> s2 == Goto(s, t, Idle(NotRecoverable)))
            && (!IsUnrecoverable(s.word) && Owner(s.word) != 0 ==> s2 == Goto(s, t, Idle(Busy)))
            && (Owner(s.word) == 0 ==> s2.threads == s.threads[t := Holding(AcquireResult(s.word))]
                                       && s2.word == Wrap(s.word + PlainInc(t)) && s2.server == s.server)
  {
    hide Count, NeedRecover, Registering, Wrap, ClearOwner, MtxLockval, Owner;
    var w := s.word;
    ClearOf(w);
    DecodePack(Fields(0, 0, 0, 0));
    if w == 0 {
      SmallWrap(t);
    } else if !IsUnrecoverable(w) {
      assert Apply(s, Run(t, Continue)) == Goto(s, t, TryCas(true, ClearOwner(w), Wrap(PlainInc(t) + ClearOwner(w))));
    }
  }

  lemma SmallWrap(t: Tid)
    ensures Wrap(0 + PlainInc(t)) == PlainInc(t)
  {
  }

  /** Lock alone: it takes a mutex without owner, at once or as a waiter, and leaves the count as it was. */
  lemma LockAlone(s: State, t: Tid)
    requires t in s.threads && s.threads[t].Idle? && Registering(s.word) == 0 && !IsWaiterListFull(s.word)
    ensures var s' := Exec(s, Acts(t, DoLock, 4));
            && t in s'.threads
            && (IsUnrecoverable(s.word) ==> s' == Goto(s, t, Idle(NotRecoverable)))
            && (Owner(s.word) == 0 ==> s'.threads[t] == Holding(if NeedRecover(s.word) == 1 then OwnerDead else Success)
                                       && Decode(s'.word) == Decode(s.word).(owner := t) && s'.server == s.server)
  {
    hide Count, NeedRecover, Registering, Owner, Exec, Apply, Acts;
    ExecActs(s, t, DoLock, 0);
    ExecActs(s, t, DoLock, 1);
    ExecActs(s, t, DoLock, 2);
    ExecActs(s, t, DoLock, 3);
    ExecActs(s, t, DoLock, 4);
    FirstSwap(s, t);
    var s2 := Exec(s, Acts(t, DoLock, 1));
    if s2.threads[t].RegisterCas? {
      if Owner(s.word) == 0 {
        RegisteredAlone(s2, t);
      } else {
        StillThere(s2, t);
      }
    } else {
      Rests(s2, t);
    }
  }

  lemma FirstSwap(s: State, t: Tid)
    requires t in s.threads && s.threads[t].Idle?
    ensures var s2 := Apply(Apply(s, Run(t, DoLock)), Run(t, Continue));
            && t in s2.threads
            && (s.word == 0 ==> s2.threads[t] == Holding(Success) && Decode(s2.word) == Decode(s.word).(owner := t)
                                && s2.server == s.server && NeedRecover(s.word) == 0 && Owner(s.word) == 0)
            && (s.word != 0 && IsUnrecoverable(s.word) ==> s2 == Goto(s, t, Idle(NotRecoverable)))
            && (s.word != 0 && !IsUnrecoverable(s.word) ==> s2 == Goto(s, t, RegisterCas(s.word, PlainInc(t))))
            && (IsUnrecoverable(s.word) ==> s.word != 0 && Owner(s.word) != 0)
  {
    hide Count, NeedRecover, Registering, Wrap, MtxLockval, Owner;
    DecodePack(Fields(0, 0, 0, 0));
    PlainAcquireFields(0, t);
    assert Apply(s, Run(t, DoLock)) == Goto(s, t, LockCas(0, PlainInc(t), false));
  }

  /** Without a call, a thread outside its calls makes no step. */
  lemma Rests(s: State, t: Tid)
    requires t in s.threads && (s.threads[t].Idle? || s.threads[t].Holding?)
    ensures Apply(s, Run(t, Continue)) == s
  {
  }

  lemma StillThere(s: State, t: Tid)
    requires t in s.threads
    ensures var s3 := Apply(Apply(Apply(s, Run(t, Continue)), Run(t, Continue)), Run(t, Continue));
            t in s3.threads
  {
    hide Apply;
    StepKeys(s, Run(t, Continue));
    StepKeys(Apply(s, Run(t, Continue)), Run(t, Continue));
    StepKeys(Apply(Apply(s, Run(t, Continue)), Run(t, Continue)), Run(t, Continue));
  }

  lemma RegisteredAlone(s: State, t: Tid)
    requires t in s.threads && s.threads[t] == RegisterCas(s.word, PlainInc(t)) && Owner(s.word) == 0
    requires Registering(s.word) == 0 && !IsWaiterListFull(s.word)
    ensures var s3 := Apply(Apply(Apply(s, Run(t, Continue)), Run(t, Continue)), Run(t, Continue));
            && t in s3.threads && s3.threads[t] == Holding(AcquireResult(s.word)) && s3.server == s.server
            && Decode(s3.word) == Decode(s.word).(owner := t)
  {
    hide Count, NeedRecover, Registering, Wrap, ClearOwner, ClearRegistering, MtxLockval, Owner;
    RegisterFields(s.word, t);
    var w1 := Wrap(ClearRegistering(s.word) + MtxLockval(0, t, 1));
    ReleaseFields(w1, t);
    MasksIsolateFields(w1);
    var w2, seen := Wrap(w1 - MtxLockval(0, t, 0)), ClearOwner(ClearRegistering(w1));
    SameFieldsSameWord(w2, seen);
    WaiterAcquireFields(w2, t);
    var s1 := Goto(s, t, RegisterRelease(PlainInc(t))).(word := w1);
    assert Apply(s, Run(t, Continue)) == s1;
    var s2 := Goto(s, t, LockCas(w2, WaiterInc(t), true)).(word := w2);
    assert Apply(s1, Run(t, Continue)) == s2;
  }

  /** Marking consistent, alone: the recover bit is cleared, and nothing else; without the bit nothing happens. */
  lemma ConsistentAlone(s: State, t: Tid)
    requires t in s.threads && s.threads[t].Holding?
    ensures var s' := Exec(s, Acts(t, DoConsistent, 2));
            Decode(s'.word) == Decode(s.word).(recover := 0) && s'.threads == s.threads && s'.server == s.server
  {
    hide Count, Registering, NeedRecover, Owner, Exec, Apply, Acts;
    ExecActs(s, t, DoConsistent, 0);
    ExecActs(s, t, DoConsistent, 1);
    ExecActs(s, t, DoConsistent, 2);
    ConsistentSteps(s, t);
    if NeedRecover(s.word) == 1 {
      ConsistentFields(s.word);
    } else {
      RecoverIsBit(s.word);
    }
  }

  lemma RecoverIsBit(w: Word)
    ensures NeedRecover(w) == 0 || NeedRecover(w) == 1
  {
  }

  lemma ConsistentSteps(s: State, t: Tid)
    requires t in s.threads && s.threads[t].Holding?
    ensures var s3 := Apply(Apply(Apply(s, Run(t, DoConsistent)), Run(t, Continue)), Run(t, Continue));
            s3 == if NeedRecover(s.word) == 1 then s.(word := Wrap(s.word - TWO40)) else s
  {
    hide Count, Registering, NeedRecover, Wrap, Owner;
    var ret := s.threads[t].ret;
    assert s.threads[t := Holding(ret)] == s.threads;
    var s1 := Goto(s, t, ConsistentLoad(ret));
    assert Apply(s, Run(t, DoConsistent)) == s1;
    if NeedRecover(s.word) == 1 {
      assert Apply(s1, Run(t, Continue)) == Goto(s, t, ConsistentSub(ret));
    } else {
      assert Apply(s1, Run(t, Continue)) == s;
    }
  }

  /**
   Unlock, alone: the mutex is free, or lost if its state was not recovered; one waiter is woken if there is any, all of
   them if the mutex is lost; the thread is told success.
   */
  lemma UnlockAlone(s: State, t: Tid)
    requires t in s.threads && s.threads[t].Holding? && Owner(s.word) == t
    ensures var s' := Exec(s, Acts(t, DoUnlock, 3));
            var dead := NeedRecover(s.word) == 1;
            var num := if Count(s.word) == 0 then 0 else if dead then Count(s.word) else 1;
            && num >= 0
            && Decode(s'.word) == Decode(s.word).(owner := if dead then OWNER_MASK else 0)
            && s'.threads == Released(s.threads, Chosen(s.server.queue, num, 1))[t := Idle(Success)]
            && s'.server == if num == 0 then s.server else WakeWaiters(s.server, num, 1)
  {
    hide Count, Registering, NeedRecover, Wrap, Owner, UnlockVal, Chosen, Left, WakeWaiters, Exec, Acts, Apply, Released;
    ExecActs(s, t, DoUnlock, 0);
    ExecActs(s, t, DoUnlock, 1);
    ExecActs(s, t, DoUnlock, 2);
    ExecActs(s, t, DoUnlock, 3);
    var dead := NeedRecover(s.word) == 1;
    UnlockSteps(s, t, dead);
    UnlockFields(s.word, t, dead);
    CountIsNat(s.word);
    var s3 := Exec(s, Acts(t, DoUnlock, 2));
    if Count(s.word) == 0 {
      Rests(s3, t);
      NobodyReleased(s, t);
    } else {
      var num := if dead then Count(s.word) else 1;
      LastWake(s3, t, num);
      ReleasedBefore(s.threads, t, UnlockWake(num), Chosen(s.server.queue, num, 1));
    }
  }

  lemma CountIsNat(w: Word)
    ensures Count(w) >= 0
  {
  }

  lemma UnlockSteps(s: State, t: Tid, dead: bool)
    requires t in s.threads && s.threads[t].Holding? && dead == (NeedRecover(s.word) == 1)
    ensures Count(s.word) >= 0
    ensures var s3 := Apply(Apply(Apply(s, Run(t, DoUnlock)), Run(t, Continue)), Run(t, Continue));
            s3 == State(Wrap(s.word - UnlockVal(t, dead)),
                        s.threads[t := if Count(s.word) == 0 then Idle(Success) else UnlockWake(if dead then Count(s.word) else 1)],
                        s.server)
  {
    CountIsNat(s.word);
    hide Count, Registering, NeedRecover, Wrap, Owner, UnlockVal;
    var ret := s.threads[t].ret;
    assert Apply(s, Run(t, DoUnlock)) == Goto(s, t, UnlockLoad(ret));
    assert Apply(Goto(s, t, UnlockLoad(ret)), Run(t, Continue)) == Goto(s, t, UnlockSub(ret, dead));
  }

  lemma LastWake(s: State, t: Tid, num: nat)
    requires t in s.threads && s.threads[t] == UnlockWake(num)
    ensures Apply(s, Run(t, Continue))
         == State(s.word, Released(s.threads, Chosen(s.server.queue, num, 1))[t := Idle(Success)], WakeWaiters(s.server, num, 1))
  {
    hide Chosen, WakeWaiters, Released;
  }

  lemma ReleasedBefore(m: Threads, t: Tid, pc: Pc, woken: seq<Waiter>)
    requires t in m && !m[t].Asleep? && !pc.Asleep?
    ensures Released(m[t := pc], woken)[t := Idle(Success)] == Released(m, woken)[t := Idle(Success)]
  {
    assert Released(m[t := pc], woken).Keys == Released(m, woken).Keys;
  }

  lemma NobodyReleased(s: State, t: Tid)
    requires t in s.threads
    ensures s.threads[t := Idle(Success)] == Released(s.threads, Chosen(s.server.queue, 0, 1))[t := Idle(Success)]
  {
    assert Released(s.threads, []).Keys == s.threads.Keys;
    assert Released(s.threads, []) == s.threads;
  }
}
