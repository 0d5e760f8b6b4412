/**
 Freedom from deadlock: whenever the mutex is free and somebody is counted as waiting, at most five
 further steps bring one of the counted waiters to own the mutex (src/thread-win32.c:487-517).
 */
module MutexProgress {
  import opened LockWord
  import opened Referee
  import opened MutexProtocol
  import opened MutexSafety
  import opened MutexRuns
  import opened MutexWakeups

  function Go(t: Tid, n: nat): seq<Label> {
    seq(n, i => Run(t, Continue))
  }

  lemma {:induction false} ExecGo(s: State, t: Tid, n: nat)
    requires t in s.threads
    ensures Exec(s, Go(t, n + 1)) == Exec(Advance(s, t, Continue), Go(t, n))
    decreases n
  {
    ExecSnoc(s, [], Run(t, Continue));
    ExecConcat(s, [Run(t, Continue)], Go(t, n));
    assert [Run(t, Continue)] + Go(t, n) == Go(t, n + 1);
    assert Exec(s, []) == s;
  }

  ghost predicate Acquires(s: State, run: seq<Label>, t: Tid) {
    var s' := Exec(s, run);
    t in s.threads && IsRegistered(s.threads[t]) && t in s'.threads && IsHolder(s'.threads[t])
  }

  lemma SwapNow(s: State, t: Tid)
    requires t in s.threads && s.threads[t].LockCas? && s.threads[t].notified && s.threads[t].seen == s.word
    ensures Acquires(s, Go(t, 1), t)
  {
    ExecGo(s, t, 0);
  }

  lemma ReloadThenSwap(s: State, t: Tid)
    requires t in s.threads && s.threads[t].Reload? && Owner(s.word) == 0
    ensures Acquires(s, Go(t, 2), t)
  {
    FreeWord(s.word);
    ExecGo(s, t, 1);
    SwapNow(Advance(s, t, Continue), t);
  }

  lemma ReleaseThenSwap(s: State, t: Tid)
    requires t in s.threads && s.threads[t].RegisterRelease? && Owner(s.word) == 0 && Registering(s.word) == t
    ensures Acquires(s, Go(t, 2), t)
  {
    ReleaseExpects(s.word, t);
    ExecGo(s, t, 1);
    SwapNow(Advance(s, t, Continue), t);
  }

  /** With a wake-up banked, asking the server costs one step. */
  lemma AskThenReload(s: State, t: Tid)
    requires t in s.threads && s.threads[t].AtWait? && Owner(s.word) == 0
    requires s.server.nwaiter < 0 && s.server.maxWake >= 1
    ensures Acquires(s, Go(t, 3), t)
  {
    ExecGo(s, t, 2);
    ReloadThenSwap(Advance(s, t, Continue), t);
  }

  lemma StaleThenAsk(s: State, t: Tid)
    requires t in s.threads && s.threads[t].LockCas? && s.threads[t].notified && s.threads[t].seen != s.word
    requires Owner(s.word) == 0 && s.server.nwaiter < 0 && s.server.maxWake >= 1
    ensures Acquires(s, Go(t, 4), t)
  {
    ExecGo(s, t, 3);
    AskThenReload(Advance(s, t, Continue), t);
  }

  /** Any counted thread can use a banked wake-up. */
  lemma UseBanked(s: State, t: Tid) returns (n: nat)
    requires Inv(s) && Alert(s) && t in s.threads && IsRegistered(s.threads[t])
    requires Owner(s.word) == 0 && s.server.nwaiter < 0
    ensures n <= 4 && Acquires(s, Go(t, n), t)
  {
    var pc := s.threads[t];
    if pc.LockCas? && pc.seen == s.word { SwapNow(s, t); n := 1; }
    else if pc.LockCas? { StaleThenAsk(s, t); n := 4; }
    else if pc.AtWait? { AskThenReload(s, t); n := 3; }
    else if pc.Reload? { ReloadThenSwap(s, t); n := 2; }
    else { ReleaseThenSwap(s, t); n := 2; }
  }

  /** Delivering a wake request to a non-empty queue sends its first sleeper on. */
  lemma DeliverToSleeper(s: State, u: Tid) returns (t: Tid)
    requires Inv(s) && u in s.threads && s.threads[u].UnlockWake? && Owner(s.word) == 0 && s.server.queue != []
    ensures Acquires(s, [Run(u, Continue)] + Go(t, 2), t)
  {
    FactsOf(s, u);
    var q := s.server.queue;
    UniformSelection(q, s.threads[u].num, 1);
    t := q[0].id;
    assert q[0] in Chosen(q, s.threads[u].num, 1) && q[0] == Waiter(t, 1);
    var s1 := WakeNext(s, u, s.threads[u].num);
    assert s1.threads[t].Reload?;
    ReloadThenSwap(s1, t);
    ExecSnoc(s, [], Run(u, Continue));
    ExecConcat(s, [Run(u, Continue)], Go(t, 2));
  }

  /** With nobody asleep the wake-up is banked. */
  lemma Banked(s: State, u: Tid)
    requires Inv(s) && Alert(s) && u in s.threads && s.threads[u].UnlockWake? && s.server.queue == []
    ensures var s1 := WakeNext(s, u, s.threads[u].num);
            && Inv(s1) && Alert(s1) && s1.server.nwaiter < 0 && s1.word == s.word
            && s1.threads == s.threads[u := Idle(Success)]
  {
    FactsOf(s, u);
    ServerWakeStep(s, u);
    ServerStepAttended(s, u, Continue);
    assert Released(s.threads, []) == s.threads;
  }

  lemma DeliverToBank(s: State, u: Tid) returns (t: Tid, n: nat)
    requires Inv(s) && Alert(s) && u in s.threads && s.threads[u].UnlockWake? && s.server.queue == []
    requires Owner(s.word) == 0 && Count(s.word) > 0
    ensures n <= 4 && Acquires(s, [Run(u, Continue)] + Go(t, n), t)
  {
    hide InvOn, Alert;
    t := SomeoneCounted(s);
    Banked(s, u);
    var s1 := WakeNext(s, u, s.threads[u].num);
    n := UseBanked(s1, t);
    ExecSnoc(s, [], Run(u, Continue));
    ExecConcat(s, [Run(u, Continue)], Go(t, n));
  }

  lemma SomeoneCounted(s: State) returns (t: Tid)
    requires Inv(s) && Count(s.word) > 0 && !IsUnrecoverable(s.word)
    ensures t in s.threads && IsRegistered(s.threads[t])
  {
    SumIsCardinality(s.threads);
    t :| t in RegisteredSet(s.threads);
  }

  /** A free mutex with counted waiters can always be handed to one of them. */
  lemma WaiterCanAcquire(s: State) returns (run: seq<Label>, t: Tid)
    requires Inv(s) && Alert(s) && Owner(s.word) == 0 && Count(s.word) > 0
    ensures |run| <= 5 && Acquires(s, run, t)
  {
    if s.server.nwaiter < 0 {
      t := SomeoneCounted(s);
      var n := UseBanked(s, t);
      run := Go(t, n);
    } else {
      t :| Promises(s.word, s.threads, t);
      if s.threads[t].UnlockWake? {
        var u := t;
        if s.server.queue != [] {
          t := DeliverToSleeper(s, u);
          run := [Run(u, Continue)] + Go(t, 2);
        } else {
          var n;
          t, n := DeliverToBank(s, u);
          run := [Run(u, Continue)] + Go(t, n);
        }
      } else if s.threads[t].Reload? {
        ReloadThenSwap(s, t);
        run := Go(t, 2);
      } else if s.threads[t].RegisterRelease? {
        ReleaseThenSwap(s, t);
        run := Go(t, 2);
      } else {
        SwapNow(s, t);
        run := Go(t, 1);
      }
    }
  }

  /** No orderly run reaches a state in which the waiters of a free mutex could not go on. */
  lemma NoDeadlock(ids: set<Tid>, dirty: bool, run: seq<Label>) returns (more: seq<Label>, t: Tid)
    requires |ids| <= MAX_COUNT && Orderly(Initial(ids, dirty), run)
    requires var s := Exec(Initial(ids, dirty), run); Owner(s.word) == 0 && Count(s.word) > 0
    ensures |more| <= 5 && Acquires(Exec(Initial(ids, dirty), run), more, t)
  {
    var s0 := Initial(ids, dirty);
    InitialInv(ids, dirty);
    DecodePack(Fields(0, 0, if dirty then 1 else 0, 0));
    RunKeepsAlert(s0, run);
    more, t := WaiterCanAcquire(Exec(s0, run));
  }
}
