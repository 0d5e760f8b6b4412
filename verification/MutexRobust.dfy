/**
 The life of a robust mutex whose owner died (src/thread-win32.c, src/mutex-lockval.h): the next
 owner is told, may declare the state consistent, and otherwise makes the mutex unusable for good.
 POSIX.1-2017 describes the same life cycle under pthread_mutex_lock and pthread_mutex_consistent.
 */
module MutexRobust {
  import opened LockWord
  import opened Referee
  import opened MutexProtocol
  import opened MutexSafety
  import opened MutexRuns

  /** Whoever acquires, by lock or trylock, finds the mutex free and learns whether it needs recovery. */
  lemma AcquireTells(s: State, l: Label, t: Tid)
    requires Inv(s) && t in s.threads && !IsHolder(s.threads[t])
    requires t in Apply(s, l).threads && IsHolder(Apply(s, l).threads[t])
    ensures l.Run? && l.tid == t && Owner(s.word) == 0 && Owner(Apply(s, l).word) == t
    ensures Apply(s, l).threads[t] == Holding(if NeedRecover(s.word) == 1 then OwnerDead else Success)
    ensures NeedRecover(Apply(s, l).word) == NeedRecover(s.word)
  {
    hide InvOn;
    if l.Run? && l.tid in s.threads {
      FactsOf(s, l.tid);
      FieldIsolation(s, l.tid, l.call);
    }
  }

  /** Only an owner that was told so, and has not recovered the state, makes the mutex unrecoverable. */
  lemma GivingUp(s: State, l: Label)
    requires Inv(s) && !IsUnrecoverable(s.word) && IsUnrecoverable(Apply(s, l).word)
    ensures l.Run? && l.tid in s.threads && s.threads[l.tid] == UnlockSub(OwnerDead, true)
    ensures NeedRecover(s.word) == 1 && Owner(s.word) == l.tid
    ensures Apply(s, l).threads[l.tid] == if Count(s.word) > 0 then UnlockWake(Count(s.word)) else Idle(Success)
    ensures Count(Apply(s, l).word) == Count(s.word)
  {
    hide InvOn;
    if l.Run? && l.tid in s.threads {
      FactsOf(s, l.tid);
      FieldIsolation(s, l.tid, l.call);
    }
  }

  /** The unlock of a consistent mutex frees it, leaves the waiters counted and wakes one of them if there is any. */
  lemma UnlockFrees(s: State, t: Tid, call: Call)
    requires Inv(s) && t in s.threads && s.threads[t].UnlockSub? && NeedRecover(s.word) == 0
    ensures Decode(Advance(s, t, call).word) == Decode(s.word).(owner := 0)
    ensures Advance(s, t, call).threads == s.threads[t := if Count(s.word) > 0 then UnlockWake(1) else Idle(Success)]
  {
    hide InvOn;
    FactsOf(s, t);
    FieldIsolation(s, t, call);
  }

  /** Declaring the state consistent clears the bit for good: no later step of any thread loses the mutex. */
  lemma ConsistentRecovers(s: State, t: Tid, call: Call, run: seq<Label>)
    requires Inv(s) && t in s.threads && s.threads[t].ConsistentSub?
    ensures var s1 := Advance(s, t, call);
            && Decode(s1.word) == Decode(s.word).(recover := 0)
            && Inv(Exec(s1, run))
            && NeedRecover(Exec(s1, run).word) == 0
            && !IsUnrecoverable(Exec(s1, run).word)
  {
    hide InvOn;
    var s1 := Advance(s, t, call);
    FieldIsolation(s, t, call);
    assert Apply(s, Run(t, call)) == s1;
    StepKeepsInv(s, Run(t, call));
    CleanRun(s1, run);
  }

  // ---------------------------------------------------------------- unrecoverable for good

  /** How a thread that was at `pc0` when the mutex was lost can look later. */
  ghost predicate Refused(pc0: Pc, pc: Pc) {
    && !IsHolder(pc) && !pc.RegisterCas?
    && (pc.RegisterRelease? ==> pc0 == pc)
    && (pc.UnlockWake? ==> pc0 == pc)
    && (pc.Idle? ==> pc == Idle(NotRecoverable) || pc == pc0 || (pc0.UnlockWake? && pc == Idle(Success)))
  }

  ghost predicate AllRefused(m0: Threads, m: Threads) {
    m.Keys == m0.Keys && forall t :: t in m ==> Refused(m0[t], m[t])
  }

  lemma LostFacts(s: State)
    requires Inv(s) && IsUnrecoverable(s.word)
    ensures forall t :: t in s.threads ==> !IsHolder(s.threads[t]) && !s.threads[t].RegisterCas?
    ensures forall t :: t in s.threads && s.threads[t].LockCas? ==> s.threads[t].seen != s.word
    ensures forall t :: t in s.threads && s.threads[t].TryCas? ==> s.threads[t].seen != s.word
    ensures forall t :: t in s.threads ==> !s.threads[t].RegisterReload?
  {
    forall t | t in s.threads ensures !IsHolder(s.threads[t]) && LocalOk(Decode(s.word), t, s.threads[t]) {
      assert Owner(s.word) != t;
    }
  }

  /** Only the registering field can still move, and only while some registration is being released. */
  ghost predicate SameButRegistering(w: Word, w': Word) {
    Decode(w') == Decode(w).(registering := Registering(w'))
  }

  lemma LostStep(s: State, l: Label)
    requires Inv(s) && IsUnrecoverable(s.word)
    ensures SameButRegistering(s.word, Apply(s, l).word) && Inv(Apply(s, l))
    ensures (forall t :: t in s.threads ==> !s.threads[t].RegisterRelease?) ==> Apply(s, l).word == s.word
  {
    hide InvOn, CoreOn;
    LostFacts(s);
    if l.Run? && l.tid in s.threads {
      FieldIsolation(s, l.tid, l.call);
    }
    assert OnTime(Apply(s, l)) by { LostThreads(s, l); }
    StepKeepsInv(s, l);
  }

  /** In an unrecoverable mutex each swap of lock or trylock is refused, and nobody starts to register. */
  lemma LostThreads(s: State, l: Label)
    requires Inv(s) && IsUnrecoverable(s.word)
    ensures AllRefused(s.threads, Apply(s, l).threads)
    ensures l.Run? && l.tid in s.threads && (s.threads[l.tid].LockCas? || s.threads[l.tid].TryCas?)
        ==> Apply(s, l).threads[l.tid] == Idle(NotRecoverable)
  {
    hide InvOn, CoreOn;
    LostFacts(s);
    StepKeys(s, l);
    if l.Run? && l.tid in s.threads {
      forall u | u in s.threads && u != l.tid ensures Refused(s.threads[u], Apply(s, l).threads[u]) {
        Bystanders(s, l.tid, l.call, u);
      }
      LostMover(s, l.tid, l.call);
    }
  }

  lemma LostMover(s: State, t: Tid, call: Call)
    requires t in s.threads && IsUnrecoverable(s.word)
    requires var pc := s.threads[t];
             !IsHolder(pc) && !pc.RegisterCas? && !pc.RegisterReload? && (pc.LockCas? || pc.TryCas? ==> pc.seen != s.word)
    ensures t in Advance(s, t, call).threads && Refused(s.threads[t], Advance(s, t, call).threads[t])
    ensures s.threads[t].LockCas? || s.threads[t].TryCas? ==> Advance(s, t, call).threads[t] == Idle(NotRecoverable)
  {
    hide Owner, NeedRecover, Count, Wrap, ClearOwner, ClearRegistering, UnlockVal;
  }

  lemma RefusedTrans(m0: Threads, m1: Threads, m2: Threads)
    requires AllRefused(m0, m1) && AllRefused(m1, m2)
    ensures AllRefused(m0, m2)
  {
    forall t | t in m2 ensures Refused(m0[t], m2[t]) {
      assert Refused(m0[t], m1[t]) && Refused(m1[t], m2[t]);
    }
  }

  /**
   Once unrecoverable, for ever unrecoverable: whatever runs afterwards, nobody acquires, every lock or
   trylock that completes, old or new, reports ENOTRECOVERABLE, and the word no longer changes (but for
   the registering id of a registration that was under way).
   */
  lemma {:induction false} LostForGood(s: State, run: seq<Label>)
    requires Inv(s) && IsUnrecoverable(s.word)
    ensures var s' := Exec(s, run);
            && Inv(s') && IsUnrecoverable(s'.word)
            && AllRefused(s.threads, s'.threads)
            && SameButRegistering(s.word, s'.word)
            && ((forall t :: t in s.threads ==> !s.threads[t].RegisterRelease?) ==> s'.word == s.word)
  {
    hide InvOn, CoreOn;
    if run == [] {
      LostFacts(s);
    } else {
      var s1 := Exec(s, run[..|run| - 1]);
      LostForGood(s, run[..|run| - 1]);
      LostStep(s1, run[|run| - 1]);
      LostThreads(s1, run[|run| - 1]);
      RefusedTrans(s.threads, s1.threads, Exec(s, run).threads);
      if forall t :: t in s.threads ==> !s.threads[t].RegisterRelease? {
        assert forall t :: t in s1.threads ==> Refused(s.threads[t], s1.threads[t]);
      }
    }
  }

  lemma {:induction false} NoWakes(m: Threads)
    requires forall t :: t in m ==> !m[t].UnlockWake?
    ensures Sum(Waking, m) == 0
    decreases |m|
  {
    if m != map[] {
      var t :| t in m;
      SumSplit(Waking, m, t);
      NoWakes(m - {t});
    }
  }

  /**
   Giving up wakes everybody: as soon as no wake request is under way, no thread sleeps on an
   unrecoverable mutex and none that still asks the server will.
   */
  lemma NobodyLeftAsleep(s: State)
    requires Inv(s) && IsUnrecoverable(s.word)
    requires forall t :: t in s.threads ==> !s.threads[t].UnlockWake?
    ensures forall t :: t in s.threads ==> !s.threads[t].Asleep?
    ensures forall t :: t in s.threads && s.threads[t].AtWait? ==> ReturnsAtOnce(s.server, Waiter(t, 1))
  {
    NoWakes(s.threads);
    forall t | t in s.threads && s.threads[t].AtWait? ensures ReturnsAtOnce(s.server, Waiter(t, 1)) {
      SumSplit(Waiting, s.threads, t);
    }
  }

  // ---------------------------------------------------------------- the one way back

  /** Adding an id to a full owner field carries. */
  lemma OwnerCarries(w: Word, t: Tid)
    requires Owner(w) == OWNER_MASK
    ensures Owner(Wrap(w + PlainInc(t))) == t - 1
  {
  }

  /** The thread reads the lost word in its registration loop, leaves the loop and swaps on that word. */
  lemma Revives(s: State, t: Tid)
    requires Core(s) && IsUnrecoverable(s.word) && t in s.threads && s.threads[t].RegisterCas?
    ensures var s' := Exec(s, [Run(t, Continue)] + [Run(t, Continue)]);
            && !IsUnrecoverable(s'.word) && Owner(s'.word) == t - 1
            && t in s'.threads && s'.threads[t] == Holding(OwnerDead)
  {
    hide Wrap, ClearOwner, ClearRegistering, ServerOk, CountOk, AllReleased, OwnerOk;
    assert LocalOk(Decode(s.word), t, s.threads[t]);
    ExecSnoc(s, [], Run(t, Continue));
    ExecSnoc(s, [Run(t, Continue)], Run(t, Continue));
    var s1 := Goto(s, t, LockCas(s.word, PlainInc(t), false));
    assert RegisterCasNext(s, t, s.threads[t].seen, s.threads[t].inc) == s1;
    assert Advance(s1, t, Continue) == LockCasNext(s1, t, s.word, PlainInc(t), false);
    OwnerCarries(s.word, t);
  }

  /** After the run the mutex is no longer lost, and `t` holds it. */
  ghost predicate HeldAgain(s: State, run: seq<Label>, t: Tid) {
    var s' := Exec(s, run);
    !IsUnrecoverable(s'.word) && t in s'.threads && s'.threads[t] == Holding(OwnerDead)
  }

  /**
   A lost mutex is acquired again by some later interleaving exactly when, at the moment it is lost,
   some thread is inside the registration loop.
   */
  lemma RevivalExactly(s: State)
    requires Core(s) && IsUnrecoverable(s.word)
    ensures (exists run, t :: HeldAgain(s, run, t)) <==> (exists t :: t in s.threads && s.threads[t].RegisterCas?)
  {
    if t :| t in s.threads && s.threads[t].RegisterCas? {
      Revives(s, t);
      assert HeldAgain(s, [Run(t, Continue)] + [Run(t, Continue)], t);
    } else {
      forall run, t ensures !HeldAgain(s, run, t) {
        LostForGood(s, run);
      }
    }
  }
}
