/**
 No lost wake-up (src/thread-win32.c, src/lock-referee-server.c): a free mutex with registered
 waiters always has somebody under way to take it, as long as registrations do not overlap. Two
 overlapping registrations can leave a residue in the registering field and put everybody to sleep.
 */
module MutexWakeups {
  import opened LockWord
  import opened Referee
  import opened MutexProtocol
  import opened MutexSafety
  import opened MutexRuns

  /** At most one thread is between its registration and the release of its registering id. */
  ghost predicate OneRegistering(m: Threads) {
    forall t, u :: t in m && u in m && m[t].RegisterRelease? && m[u].RegisterRelease? ==> t == u
  }

  /** The registering field is the id of the thread that is registering, 0 if there is none. */
  ghost predicate RegisteringOk(f: Fields, m: Threads) {
    && (forall t :: t in m && m[t].RegisterRelease? ==> f.registering == t)
    && (f.registering != 0 ==> f.registering in m && m[f.registering].RegisterRelease?)
  }

  /** Thread `t` brings the mutex and some waiter together. */
  ghost predicate Promises(w: Word, m: Threads, t: Tid) {
    t in m && (m[t].UnlockWake? || m[t].Reload? || m[t].RegisterRelease? ||
               (m[t].LockCas? && m[t].notified && m[t].seen == w))
  }

  /** A free mutex with waiters has a banked wake-up or a thread on its way. */
  ghost predicate Attended(s: State) {
    Owner(s.word) == 0 && Count(s.word) > 0 ==>
      s.server.nwaiter < 0 || exists t :: Promises(s.word, s.threads, t)
  }

  ghost predicate Alert(s: State) {
    RegisteringOk(Decode(s.word), s.threads) && Attended(s)
  }

  lemma RegisteringStep(s: State, t: Tid, call: Call)
    requires Inv(s) && t in s.threads && RegisteringOk(Decode(s.word), s.threads)
    requires OneRegistering(s.threads) && OneRegistering(Advance(s, t, call).threads)
    ensures RegisteringOk(Decode(Advance(s, t, call).word), Advance(s, t, call).threads)
  {
    hide InvOn;
    var s' := Advance(s, t, call);
    FieldIsolation(s, t, call);
    StepKeys(s, Run(t, call));
    assert Apply(s, Run(t, call)) == s';
    forall u | u in s.threads && u != t
      ensures u in s'.threads && s'.threads[u].RegisterRelease? == s.threads[u].RegisterRelease? {
      Bystanders(s, t, call, u);
    }
    RegisteringMover(s, t, call);
  }

  /** How the registering field moves with the thread. */
  lemma RegisteringMover(s: State, t: Tid, call: Call)
    requires Inv(s) && t in s.threads
    ensures t in Advance(s, t, call).threads
    ensures var pc, pc' := s.threads[t], Advance(s, t, call).threads[t];
            && (pc.RegisterRelease? ==> !pc'.RegisterRelease?)
            && (!pc.RegisterRelease? && pc'.RegisterRelease? ==> Intended(s, t).registering == t)
            && (!pc.RegisterRelease? && !pc'.RegisterRelease? ==> Intended(s, t).registering == Registering(s.word))
            && (pc.RegisterRelease? && Registering(s.word) == t ==> Intended(s, t).registering == 0)
  {
    hide InvOn, Owner, NeedRecover, Count, Wrap, ClearOwner, ClearRegistering, UnlockVal;
    FactsOf(s, t);
  }

  // ---------------------------------------------------------------- attended stays attended

  /** Masking the owner of a free word changes nothing. */
  lemma FreeWord(w: Word)
    requires Owner(w) == 0
    ensures ClearOwner(w) == w
  {
  }

  /** After an undisturbed registration the thread expects exactly the word it leaves behind. */
  lemma ReleaseExpects(w: Word, t: Tid)
    requires Owner(w) == 0 && Registering(w) == t
    ensures ClearOwner(ClearRegistering(w)) == Wrap(w - MtxLockval(0, t, 0))
  {
    ReleaseFields(w, t);
    MasksIsolateFields(w);
    PackDecode(ClearOwner(ClearRegistering(w)));
    PackDecode(Wrap(w - MtxLockval(0, t, 0)));
  }

  /** A step that leaves word and server alone, by a thread that was not the one under way. */
  lemma StillAttended(s: State, s': State, t: Tid)
    requires Attended(s) && s'.word == s.word && s'.server.nwaiter == s.server.nwaiter
    requires forall u :: u in s.threads && u != t ==>
               u in s'.threads && (s'.threads[u] == s.threads[u] || s'.threads[u].Reload?)
    requires !Promises(s.word, s.threads, t) || Promises(s'.word, s'.threads, t)
    ensures Attended(s')
  {
    if Owner(s.word) == 0 && Count(s.word) > 0 && s.server.nwaiter >= 0 {
      var u :| Promises(s.word, s.threads, u);
      assert Promises(s'.word, s'.threads, u);
    }
  }

  lemma WordStepAttended(s: State, t: Tid, call: Call)
    requires Inv(s) && Alert(s) && t in s.threads
    requires var pc := s.threads[t];
             pc.RegisterRelease? || pc.UnlockSub? || pc.ConsistentSub? ||
             ((pc.LockCas? || pc.TryCas? || pc.RegisterCas?) && pc.seen == s.word)
    ensures Attended(Advance(s, t, call))
  {
    hide InvOn, NeedRecover, Wrap, ClearOwner, ClearRegistering, UnlockVal;
    FactsOf(s, t);
    FieldIsolation(s, t, call);
    var s' := Advance(s, t, call);
    if s.threads[t].RegisterRelease? && Owner(s.word) == 0 {
      assert Registering(s.word) == t;
      ReleaseExpects(s.word, t);
    }
    if Owner(s'.word) == 0 && Count(s'.word) > 0 {
      assert Promises(s'.word, s'.threads, t);
    }
  }

  lemma ServerStepAttended(s: State, t: Tid, call: Call)
    requires Inv(s) && Alert(s) && t in s.threads && (s.threads[t].AtWait? || s.threads[t].UnlockWake?)
    ensures Attended(Advance(s, t, call))
  {
    var s' := Advance(s, t, call);
    FactsOf(s, t);
    if s.threads[t].AtWait? {
      if s.server.nwaiter < 0 {
        assert Promises(s'.word, s'.threads, t);
      } else if Owner(s.word) == 0 && Count(s.word) > 0 {
        var u :| Promises(s.word, s.threads, u);
        assert Promises(s'.word, s'.threads, u);
      }
    } else {
      var q := s.server.queue;
      UniformSelection(q, s.threads[t].num, 1);
      if q != [] {
        assert q[0] in Chosen(q, s.threads[t].num, 1);
        assert q[0] == Waiter(q[0].id, 1);
        assert Promises(s'.word, s'.threads, q[0].id);
      }
    }
  }

  lemma QuietStepAttended(s: State, t: Tid, call: Call)
    requires Inv(s) && Alert(s) && t in s.threads
    requires var pc := s.threads[t];
             !pc.RegisterRelease? && !pc.UnlockSub? && !pc.ConsistentSub? && !pc.AtWait? && !pc.UnlockWake? &&
             (pc.LockCas? || pc.TryCas? || pc.RegisterCas? ==> pc.seen != s.word)
    ensures Attended(Advance(s, t, call))
  {
    hide InvOn, NeedRecover, Wrap, ClearRegistering, UnlockVal;
    FactsOf(s, t);
    if Owner(s.word) == 0 { FreeWord(s.word); }
    var s' := Advance(s, t, call);
    forall u | u in s.threads && u != t
      ensures u in s'.threads && (s'.threads[u] == s.threads[u] || s'.threads[u].Reload?) {
      Bystanders(s, t, call, u);
    }
    if s.threads[t].Reload? && Owner(s.word) == 0 {
      assert Promises(s'.word, s'.threads, t);
    } else if !s.threads[t].Reload? {
      StillAttended(s, s', t);
    }
  }

  lemma StepKeepsAlert(s: State, l: Label)
    requires Inv(s) && Alert(s) && OneRegistering(s.threads) && OneRegistering(Apply(s, l).threads)
    ensures Alert(Apply(s, l))
  {
    hide InvOn;
    if l.Run? && l.tid in s.threads {
      RegisteringStep(s, l.tid, l.call);
      var pc := s.threads[l.tid];
      if pc.AtWait? || pc.UnlockWake? {
        ServerStepAttended(s, l.tid, l.call);
      } else if pc.RegisterRelease? || pc.UnlockSub? || pc.ConsistentSub? ||
                ((pc.LockCas? || pc.TryCas? || pc.RegisterCas?) && pc.seen == s.word) {
        WordStepAttended(s, l.tid, l.call);
      } else {
        QuietStepAttended(s, l.tid, l.call);
      }
    } else if l.Sweep? {
      StillAttended(s, Apply(s, l), 1);
    }
  }

  // ---------------------------------------------------------------- over all runs

  /** Registrations do not overlap anywhere in the run, and none is too late. */
  ghost predicate Orderly(s: State, run: seq<Label>) {
    RunOnTime(s, run) && forall k :: 0 <= k <= |run| ==> OneRegistering(Exec(s, run[..k]).threads)
  }

  lemma {:induction false} RunKeepsAlert(s: State, run: seq<Label>)
    requires Inv(s) && Alert(s) && Orderly(s, run)
    ensures Inv(Exec(s, run)) && Alert(Exec(s, run))
  {
    hide InvOn, Alert, OneRegistering;
    RunKeepsInv(s, run);
    if run != [] {
      var front := run[..|run| - 1];
      forall k | 0 <= k <= |front| ensures OneRegistering(Exec(s, front[..k]).threads) && OnTime(Exec(s, front[..k])) {
        assert front[..k] == run[..k];
      }
      RunKeepsAlert(s, front);
      assert run[..|run|] == run && front[..|front|] == front;
      StepKeepsAlert(Exec(s, front), run[|run| - 1]);
    }
  }

  /** Everybody who is counted sleeps, and no wake-up is banked or under way. */
  ghost predicate Stuck(s: State) {
    && !IsLocked(s.word) && RegisteredSet(s.threads) != {} && s.server.nwaiter >= 0
    && (forall t :: t in s.threads ==> !s.threads[t].UnlockWake?)
    && (forall t :: t in s.threads && IsRegistered(s.threads[t]) ==> s.threads[t].Asleep?)
  }

  /**
   No lost wake-up. In every orderly run of at most 255 threads, from a clean word or from one whose
   owner died, a free mutex with registered waiters has a banked wake-up or a thread on its way, so the
   waiters are never all asleep on a free mutex.
   */
  lemma NoLostWakeUp(ids: set<Tid>, dirty: bool, run: seq<Label>)
    requires |ids| <= MAX_COUNT && Orderly(Initial(ids, dirty), run)
    ensures Attended(Exec(Initial(ids, dirty), run))
    ensures !Stuck(Exec(Initial(ids, dirty), run))
  {
    var s0 := Initial(ids, dirty);
    InitialInv(ids, dirty);
    DecodePack(Fields(0, 0, if dirty then 1 else 0, 0));
    RunKeepsAlert(s0, run);
    NotStuck(Exec(s0, run));
  }

  lemma NotStuck(s: State)
    requires Inv(s) && Alert(s)
    ensures !Stuck(s)
  {
    if Stuck(s) {
      var t :| t in RegisteredSet(s.threads);
      SeesItself(s, t);
    }
  }
}
