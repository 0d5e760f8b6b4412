/**
 A dead client that is cleaned away while still queued stays in the server's queue and swallows a later wake-up
 (src/lock-referee-server.c:1245-1253, 330-338). For any three threads: one holds the mutex and two sleep; the second
 sleeper dies, the first one cleans the word; the mutex goes round once, a waiter queues behind the dead client,
 and the next unlock wakes nobody.
 */
module CrashStrands {
  import opened LockWord
  import opened Referee
  import opened MutexProtocol
  import opened MutexSafety
  import opened MutexRuns
  import opened MutexWakeups
  import opened MutexBound
  import opened MutexRevival
  import opened MutexCalls
  import opened CrashUndo
  import opened CrashRecovery
  import opened CrashRuns
  import opened CrashSteps

  // ---------------------------------------------------------------- steps of one thread

  /** Every state of the run is tidy. */
  ghost predicate TidyRun(s: State, run: seq<Label>) {
    forall k :: 0 <= k <= |run| ==> TidyAt(s, run, k)
  }

  ghost predicate TidyAt(s: State, run: seq<Label>, k: nat)
    requires k <= |run|
  {
    Tidy(Exec(s, run[..k]))
  }

  lemma TidySnoc(s: State, run: seq<Label>, l: Label)
    requires TidyRun(s, run) && Tidy(Apply(Exec(s, run), l))
    ensures TidyRun(s, run + [l])
  {
    hide Tidy, Apply, Exec;
    var all, n := run + [l], |run|;
    ExecSnoc(s, run, l);
    assert all[..n + 1] == all;
    forall k | 0 <= k <= |all| ensures TidyAt(s, all, k) {
      if k <= n {
        assert TidyAt(s, run, k) && all[..k] == run[..k];
      }
    }
  }

  lemma TidyFront(s: State, run: seq<Label>)
    requires run != [] && TidyRun(s, run)
    ensures TidyRun(s, run[..|run| - 1]) && Tidy(Exec(s, run))
  {
    hide Tidy, Exec;
    var n := |run| - 1;
    assert TidyAt(s, run, n + 1) && run[..n + 1] == run;
    forall k | 0 <= k <= n ensures TidyAt(s, run[..n], k) {
      assert TidyAt(s, run, k) && run[..n][..k] == run[..k];
    }
  }

  /** Nobody but `t` is about to release a registration. */
  ghost predicate Quiet(s: State, t: Tid) {
    t in s.threads && forall u :: u in s.threads && u != t ==> !s.threads[u].RegisterRelease?
  }

  lemma QuietStep(s: State, t: Tid, call: Call)
    requires Quiet(s, t)
    ensures Quiet(Apply(s, Run(t, call)), t)
  {
    hide Advance;
    StepKeys(s, Run(t, call));
    forall u | u in s.threads && u != t ensures !Apply(s, Run(t, call)).threads[u].RegisterRelease? {
      Bystanders(s, t, call, u);
    }
  }

  lemma QuietIsTidy(s: State, t: Tid)
    requires Quiet(s, t) && NeedRecover(s.word) == 0
    ensures Tidy(s)
  {
  }

  ghost predicate NeverDirty(s: State, t: Tid, call: Call, n: nat) {
    NeedRecover(s.word) == 0 && forall k: nat :: k <= n ==> NeedRecover(Exec(s, Acts(t, call, k)).word) == 0
  }

  lemma {:induction false} TidyActs(s: State, t: Tid, call: Call, n: nat)
    requires Quiet(s, t) && NeverDirty(s, t, call, n)
    ensures TidyRun(s, Acts(t, call, n)) && Quiet(Exec(s, Acts(t, call, n)), t)
    ensures |Acts(t, call, n)| == n + 1 && forall k :: 0 <= k <= n ==> Acts(t, call, n)[k].Run? && Acts(t, call, n)[k].tid == t
  {
    hide NeedRecover, Tidy, Apply, Exec, Quiet, TidyRun;
    ExecActs(s, t, call, n);
    if n == 0 {
      QuietIsTidy(s, t);
      NoRunTidy(s);
      QuietStep(s, t, call);
      QuietIsTidy(Exec(s, Acts(t, call, 0)), t);
      TidySnoc(s, [], Run(t, call));
      assert [] + [Run(t, call)] == [Run(t, call)];
    } else {
      TidyActs(s, t, call, n - 1);
      QuietStep(Exec(s, Acts(t, call, n - 1)), t, Continue);
      QuietIsTidy(Exec(s, Acts(t, call, n)), t);
      TidySnoc(s, Acts(t, call, n - 1), Run(t, Continue));
    }
  }

  lemma NoRunTidy(s: State)
    requires Tidy(s)
    ensures TidyRun(s, []) && Exec(s, []) == s
  {
    hide Tidy;
    assert TidyAt(s, [], 0);
  }

  /** The thread takes a mutex that nobody holds or waits for. */
  lemma Takes(s: State, t: Tid) returns (w: Word)
    requires Quiet(s, t) && s.threads[t].Idle? && s.word == 0
    ensures Decode(w) == Fields(t, 0, 0, 0)
    ensures Exec(s, Acts(t, DoLock, 1)) == State(w, s.threads[t := Holding(Success)], s.server)
    ensures NeverDirty(s, t, DoLock, 1)
  {
    hide Owner, Count, Registering, Wrap, MtxLockval;
    ExecActs(s, t, DoLock, 0);
    ExecActs(s, t, DoLock, 1);
    DecodePack(Fields(0, 0, 0, 0));
    PlainAcquireFields(0, t);
    w := Wrap(0 + PlainInc(t));
    var s1 := Goto(s, t, LockCas(0, PlainInc(t), false));
    assert Exec(s, Acts(t, DoLock, 0)) == s1;
    assert Apply(s1, Run(t, Continue)) == State(w, s.threads[t := Holding(Success)], s.server);
  }

  lemma Registers(s: State, f: Fields, t: Tid) returns (w3: Word)
    requires t in s.threads && s.threads[t] == RegisterCas(s.word, PlainInc(t)) && Decode(s.word) == f && f.count < MAX_COUNT
    ensures Decode(w3) == f.(count := f.count + 1, registering := t)
    ensures Apply(s, Run(t, Continue)) == State(w3, s.threads[t := RegisterRelease(PlainInc(t))], s.server)
  {
    hide Owner, Count, Registering, NeedRecover, Wrap, ClearOwner, ClearRegistering, MtxLockval;
    RegisterFields(s.word, t);
    w3 := Wrap(ClearRegistering(s.word) + MtxLockval(0, t, 1));
  }

  lemma LetsGo(s: State, f: Fields, t: Tid) returns (w: Word, seen: Word)
    requires t in s.threads && s.threads[t] == RegisterRelease(PlainInc(t)) && Decode(s.word) == f.(registering := t)
    requires f.registering == 0
    ensures Decode(w) == f && Decode(seen) == f.(owner := 0)
    ensures Apply(s, Run(t, Continue)) == State(w, s.threads[t := LockCas(seen, WaiterInc(t), true)], s.server)
  {
    hide Owner, Count, Registering, NeedRecover, Wrap, ClearOwner, ClearRegistering, MtxLockval;
    ReleaseFields(s.word, t);
    MasksIsolateFields(s.word);
    w, seen := Wrap(s.word - MtxLockval(0, t, 0)), ClearOwner(ClearRegistering(s.word));
  }

  lemma GoesToSleep(s: State, t: Tid, seen: Word)
    requires t in s.threads && s.threads[t] == LockCas(seen, WaiterInc(t), true) && seen != s.word
    requires !IsUnrecoverable(s.word) && s.server.nwaiter >= 0
    ensures var s1 := Apply(s, Run(t, Continue));
            && s1.word == s.word && Apply(s1, Run(t, Continue))
               == State(s.word, s.threads[t := Asleep(WaiterInc(t))], AddWaiter(s.server, Waiter(t, 1)))
  {
    hide Owner, Count, Registering, NeedRecover, Wrap, AddWaiter;
    var s1 := Goto(s, t, AtWait(WaiterInc(t)));
    assert Apply(s, Run(t, Continue)) == s1;
  }

  /** The thread finds the mutex held, registers, finds it still held and falls asleep. */
  lemma FallsAsleep(s: State, f: Fields, t: Tid) returns (w: Word)
    requires Quiet(s, t) && s.threads[t].Idle? && Decode(s.word) == f
    requires f.owner != 0 && f.recover == 0 && f.registering == 0 && f.count < MAX_COUNT && s.server.nwaiter >= 0
    ensures Decode(w) == f.(count := f.count + 1)
    ensures Exec(s, Acts(t, DoLock, 5))
         == State(w, s.threads[t := Asleep(WaiterInc(t))], AddWaiter(s.server, Waiter(t, 1)))
    ensures NeverDirty(s, t, DoLock, 5)
  {
    hide Apply, Exec, Acts, AddWaiter, Registering, Owner, Count, NeedRecover;
    var s1, s2 := LooksTwice(s, f, t);
    var w3 := Registers(s2, f, t);
    ExecActs(s, t, DoLock, 2);
    var s3 := Exec(s, Acts(t, DoLock, 2));
    var seen;
    w, seen := LetsGo(s3, f.(count := f.count + 1), t);
    ExecActs(s, t, DoLock, 3);
    var s4 := Exec(s, Acts(t, DoLock, 3));
    GoesToSleep(s4, t, seen);
    ExecActs(s, t, DoLock, 4);
    ExecActs(s, t, DoLock, 5);
  }

  lemma LooksTwice(s: State, f: Fields, t: Tid) returns (s1: State, s2: State)
    requires t in s.threads && s.threads[t].Idle? && Decode(s.word) == f && f.owner != 0 && f.recover == 0
    ensures s1 == Exec(s, Acts(t, DoLock, 0)) && s1.word == s.word
    ensures s2 == Exec(s, Acts(t, DoLock, 1)) == Goto(s, t, RegisterCas(s.word, PlainInc(t)))
  {
    hide Owner, Count, Registering, NeedRecover, Wrap;
    ExecActs(s, t, DoLock, 0);
    ExecActs(s, t, DoLock, 1);
    DecodePack(Fields(0, 0, 0, 0));
    s1 := Goto(s, t, LockCas(0, PlainInc(t), false));
    s2 := Goto(s, t, RegisterCas(s.word, PlainInc(t)));
  }

  /** The owner unlocks a waited mutex and delivers the wake-up. */
  lemma Frees(s: State, f: Fields, t: Tid) returns (w: Word)
    requires Quiet(s, t) && s.threads[t] == Holding(Success) && Decode(s.word) == f
    requires f.owner == t && f.recover == 0 && f.count > 0
    ensures Decode(w) == f.(owner := 0)
    ensures Exec(s, Acts(t, DoUnlock, 3))
         == State(w, Released(s.threads, Chosen(s.server.queue, 1, 1))[t := Idle(Success)], WakeWaiters(s.server, 1, 1))
    ensures NeverDirty(s, t, DoUnlock, 3)
  {
    hide Owner, Count, Registering, NeedRecover, WakeWaiters, Chosen, Released, Exec, Acts, Apply;
    w := Unlocks(s, f, t);
    ExecActs(s, t, DoUnlock, 0);
    ExecActs(s, t, DoUnlock, 1);
    ExecActs(s, t, DoUnlock, 2);
    ExecActs(s, t, DoUnlock, 3);
    Delivers(Exec(s, Acts(t, DoUnlock, 2)), t);
    ReleasedBefore(s.threads, t, UnlockWake(1), Chosen(s.server.queue, 1, 1));
  }

  lemma Unlocks(s: State, f: Fields, t: Tid) returns (w: Word)
    requires t in s.threads && s.threads[t] == Holding(Success) && Decode(s.word) == f
    requires f.owner == t && f.recover == 0 && f.count > 0
    ensures Decode(w) == f.(owner := 0)
    ensures var s1 := Apply(s, Run(t, DoUnlock));
            var s2 := Apply(s1, Run(t, Continue));
            s1.word == s2.word == s.word && Apply(s2, Run(t, Continue)) == State(w, s.threads[t := UnlockWake(1)], s.server)
  {
    hide Owner, Count, Registering, NeedRecover, Wrap, UnlockVal;
    UnlockFields(s.word, t, false);
    w := Wrap(s.word - UnlockVal(t, false));
    var s2 := Goto(s, t, UnlockSub(Success, false));
    assert Apply(Goto(s, t, UnlockLoad(Success)), Run(t, Continue)) == s2;
  }

  lemma Delivers(s: State, t: Tid)
    requires t in s.threads && s.threads[t] == UnlockWake(1)
    ensures Apply(s, Run(t, Continue))
         == State(s.word, Released(s.threads, Chosen(s.server.queue, 1, 1))[t := Idle(Success)], WakeWaiters(s.server, 1, 1))
  {
    hide Chosen, WakeWaiters, Released;
  }

  /** A woken waiter reloads the word and takes the free mutex. */
  lemma Acquires(s: State, f: Fields, t: Tid) returns (w: Word)
    requires Quiet(s, t) && s.threads[t] == Reload(WaiterInc(t)) && Decode(s.word) == f
    requires f.owner == 0 && f.recover == 0 && f.count > 0
    ensures Decode(w) == f.(owner := t, count := f.count - 1)
    ensures Exec(s, Acts(t, Continue, 1)) == State(w, s.threads[t := Holding(Success)], s.server)
    ensures NeverDirty(s, t, Continue, 1)
  {
    hide Owner, Count, Registering, NeedRecover, Wrap, ClearOwner, MtxLockval;
    ExecActs(s, t, Continue, 0);
    ExecActs(s, t, Continue, 1);
    MasksIsolateFields(s.word);
    SameFieldsSameWord(s.word, ClearOwner(s.word));
    WaiterAcquireFields(s.word, t);
    w := Wrap(s.word + WaiterInc(t));
    var s1 := Goto(s, t, LockCas(s.word, WaiterInc(t), true));
    assert Exec(s, Acts(t, Continue, 0)) == s1;
  }

  // ---------------------------------------------------------------- lives

  ghost function Gos(run: seq<Label>): seq<Event> {
    seq(|run|, i requires 0 <= i < |run| => Go(run[i]))
  }

  lemma LiveSnoc(h: Life, events: seq<Event>, e: Event)
    ensures Live(h, events + [e]) == After(Live(h, events), e)
  {
    assert (events + [e])[..|events|] == events;
  }

  lemma {:induction false} LiveConcat(h: Life, a: seq<Event>, b: seq<Event>)
    ensures Live(h, a + b) == Live(Live(h, a), b)
    decreases |b|
  {
    if b == [] {
      assert a + b == a;
    } else {
      var n := |b| - 1;
      LiveConcat(h, a, b[..n]);
      assert a + b == a + b[..n] + [b[n]];
      LiveSnoc(h, a + b[..n], b[n]);
    }
  }

  lemma OrderlySnoc(h: Life, events: seq<Event>, e: Event)
    requires OrderlyLife(h, events) && Tidy(After(Live(h, events), e).s)
    requires e.Add? && Live(h, events).job.Loaded? ==> MayAdd(Live(h, events))
    ensures OrderlyLife(h, events + [e])
  {
    hide Tidy, MayAdd, Live, After;
    var all, n := events + [e], |events|;
    LiveSnoc(h, events, e);
    assert all[..n + 1] == all && all[..n] == events == events[..n];
    forall k | 0 <= k <= |all| ensures FineAt(h, all, k) {
      if k <= n {
        assert FineAt(h, events, k) && all[..k] == events[..k];
      }
    }
  }

  /** Steps of threads that live, after an orderly life. */
  lemma {:induction false} GoOn(h0: Life, events: seq<Event>, run: seq<Label>)
    requires OrderlyLife(h0, events) && TidyRun(Live(h0, events).s, run)
    requires forall k :: 0 <= k < |run| ==> run[k].Run? && run[k].tid !in Live(h0, events).stopped
    ensures OrderlyLife(h0, events + Gos(run))
    ensures Live(h0, events + Gos(run)) == Live(h0, events).(s := Exec(Live(h0, events).s, run))
    decreases |run|
  {
    hide Tidy, Apply;
    var h := Live(h0, events);
    if run == [] {
      assert events + Gos(run) == events;
    } else {
      var n := |run| - 1;
      var front := run[..n];
      TidyFront(h.s, run);
      GoOn(h0, events, front);
      assert events + Gos(run) == events + Gos(front) + [Go(run[n])];
      OneGoes(Live(h0, events + Gos(front)), run[n]);
      OrderlySnoc(h0, events + Gos(front), Go(run[n]));
      LiveSnoc(h0, events + Gos(front), Go(run[n]));
    }
  }

  lemma OneGoes(h: Life, l: Label)
    requires l.Run? && l.tid !in h.stopped
    ensures After(h, Go(l)) == h.(s := Apply(h.s, l))
  {
  }

  /** The steps of one thread that lives. */
  lemma ActsOn(h0: Life, events: seq<Event>, t: Tid, call: Call, n: nat) returns (more: seq<Event>)
    requires OrderlyLife(h0, events) && t !in Live(h0, events).stopped
    requires Quiet(Live(h0, events).s, t) && NeverDirty(Live(h0, events).s, t, call, n)
    ensures OrderlyLife(h0, more)
    ensures Live(h0, more) == Live(h0, events).(s := Exec(Live(h0, events).s, Acts(t, call, n)))
  {
    hide OrderlyLife, Live, Quiet, NeverDirty, Exec;
    TidyActs(Live(h0, events).s, t, call, n);
    GoOn(h0, events, Acts(t, call, n));
    more := events + Gos(Acts(t, call, n));
  }

  // ---------------------------------------------------------------- three threads

  /** A life without deaths pending, whose state is known. */
  ghost predicate Stage(h: Life, f: Fields, m: Threads, l: Lock) {
    Decode(h.s.word) == f && h.s.threads == m && h.s.server == l && h.stopped == {} && h.reported == [] && h.job.NoJob?
  }

  /** Nobody in the map is about to release a registration. */
  ghost predicate Calm(m: Threads) {
    forall t :: t in m ==> !m[t].RegisterRelease?
  }

  function Sleeping(t: Tid): Pc {
    Asleep(WaiterInc(t))
  }

  lemma Sleep(h0: Life, events: seq<Event>, f: Fields, m: Threads, l: Lock, t: Tid) returns (more: seq<Event>)
    requires OrderlyLife(h0, events) && Stage(Live(h0, events), f, m, l) && Calm(m) && t in m && m[t].Idle?
    requires f.owner != 0 && f.recover == 0 && f.registering == 0 && f.count < MAX_COUNT && l.nwaiter >= 0
    ensures OrderlyLife(h0, more)
    ensures Stage(Live(h0, more), f.(count := f.count + 1), m[t := Sleeping(t)], AddWaiter(l, Waiter(t, 1)))
    ensures Calm(m[t := Sleeping(t)])
  {
    hide OrderlyLife, Live, NeverDirty, Exec, AddWaiter, Acts;
    var s := Live(h0, events).s;
    var w := FallsAsleep(s, f, t);
    more := ActsOn(h0, events, t, DoLock, 5);
  }

  lemma Free(h0: Life, events: seq<Event>, f: Fields, m: Threads, l: Lock, t: Tid) returns (more: seq<Event>)
    requires OrderlyLife(h0, events) && Stage(Live(h0, events), f, m, l) && Calm(m)
    requires t in m && m[t] == Holding(Success) && f.owner == t && f.recover == 0 && f.count > 0
    ensures OrderlyLife(h0, more)
    ensures Stage(Live(h0, more), f.(owner := 0), Released(m, Chosen(l.queue, 1, 1))[t := Idle(Success)], WakeWaiters(l, 1, 1))
    ensures Calm(Released(m, Chosen(l.queue, 1, 1))[t := Idle(Success)])
  {
    hide OrderlyLife, Live, NeverDirty, Exec, WakeWaiters, Chosen, Acts;
    var s := Live(h0, events).s;
    var w := Frees(s, f, t);
    more := ActsOn(h0, events, t, DoUnlock, 3);
  }

  lemma Acquire(h0: Life, events: seq<Event>, f: Fields, m: Threads, l: Lock, t: Tid) returns (more: seq<Event>)
    requires OrderlyLife(h0, events) && Stage(Live(h0, events), f, m, l) && Calm(m)
    requires t in m && m[t] == Reload(WaiterInc(t)) && f.owner == 0 && f.recover == 0 && f.count > 0
    ensures OrderlyLife(h0, more)
    ensures Stage(Live(h0, more), f.(owner := t, count := f.count - 1), m[t := Holding(Success)], l)
    ensures Calm(m[t := Holding(Success)])
  {
    hide OrderlyLife, Live, NeverDirty, Exec, Acts;
    var s := Live(h0, events).s;
    var w := Acquires(s, f, t);
    more := ActsOn(h0, events, t, Continue, 1);
  }

  /** One thread holds the mutex. */
  lemma Begins(ids: set<Tid>, a: Tid) returns (more: seq<Event>)
    requires a in ids
    ensures OrderlyLife(Born(ids, false), more)
    ensures Stage(Live(Born(ids, false), more), Fields(a, 0, 0, 0), Born(ids, false).s.threads[a := Holding(Success)], FRESH)
    ensures Calm(Born(ids, false).s.threads[a := Holding(Success)])
  {
    var h0 := Born(ids, false);
    DecodePack(Fields(0, 0, 0, 0));
    assert h0.s == Initial(ids, false) && Live(h0, []) == h0;
    assert Tidy(h0.s);
    assert OrderlyLife(h0, []) by {
      assert FineAt(h0, [], 0);
    }
    hide OrderlyLife, NeverDirty, Exec, Acts, Tidy;
    var w := Takes(h0.s, a);
    more := ActsOn(h0, [], a, DoLock, 1);
  }

  /** A sleeper dies, is reported, and is cleaned off the word by the head of the queue. */
  lemma Buries(h0: Life, events: seq<Event>, f: Fields, m: Threads, l: Lock, b: Tid) returns (more: seq<Event>)
    requires OrderlyLife(h0, events) && Stage(Live(h0, events), f, m, l) && Calm(m) && b in m && m[b] == Sleeping(b)
    requires f.owner != 0 && f.owner != b && f.owner != OWNER_MASK && f.recover == 0 && f.registering == 0 && f.count > 0
    requires l.queue != [] && l.queue[0].id in m && l.queue[0].id != b
    ensures OrderlyLife(h0, more)
    ensures Stage(Live(h0, more), f.(count := f.count - 1), m - {b}, WakeWaiters(l, 0, 1)) && Calm(m - {b})
  {
    var d := Dead(b, true);
    var h := Live(h0, events);
    var h1, h2, h3 := h.(stopped := {b}), h.(stopped := {b}, reported := [d]), h.(stopped := {b}, reported := [d], job := Loaded(h.s.word));
    BuryStates(h, f, b);
    var w := BuryWord(h.s, f, b);
    var h4 := Life(State(w, m - {b}, l), {}, [], Replied(0));
    var h5 := Life(State(w, m - {b}, WakeWaiters(l, 0, 1)), {}, [], NoJob);
    AddBuries(h3, f, m, l, b, w);
    WokenByNone(h4.s);
    CalmIsTidy(h.s);
    CalmIsTidy(h4.s);
    hide OrderlyLife, Live, After, Tidy, MayAdd, Stage;
    OrderlySnoc(h0, events, Stop(b));
    LiveSnoc(h0, events, Stop(b));
    var e1 := events + [Stop(b)];
    OrderlySnoc(h0, e1, Tell(d));
    LiveSnoc(h0, e1, Tell(d));
    var e2 := e1 + [Tell(d)];
    OrderlySnoc(h0, e2, Load);
    LiveSnoc(h0, e2, Load);
    var e3 := e2 + [Load];
    OrderlySnoc(h0, e3, Add);
    LiveSnoc(h0, e3, Add);
    var e4 := e3 + [Add];
    ReplyBuries(h4, h5);
    OrderlySnoc(h0, e4, Reply);
    LiveSnoc(h0, e4, Reply);
    more := e4 + [Reply];
    StageOf(h5, f.(count := f.count - 1));
  }

  lemma StageOf(h: Life, f: Fields)
    requires Decode(h.s.word) == f && h.stopped == {} && h.reported == [] && h.job.NoJob?
    ensures Stage(h, f, h.s.threads, h.s.server)
  {
  }

  lemma CalmIsTidy(s: State)
    requires Calm(s.threads) && NeedRecover(s.word) == 0
    ensures Tidy(s)
  {
  }

  lemma BuryStates(h: Life, f: Fields, b: Tid)
    requires Stage(h, f, h.s.threads, h.s.server) && b in h.s.threads && h.s.threads[b] == Sleeping(b)
    requires f.owner != b && f.recover == 0
    requires h.s.server.queue != [] && h.s.server.queue[0].id in h.s.threads && h.s.server.queue[0].id != b
    ensures var d := Dead(b, true);
            var h1, h2 := h.(stopped := {b}), h.(stopped := {b}, reported := [d]);
            var h3 := h2.(job := Loaded(h.s.word));
            After(h, Stop(b)) == h1 && After(h1, Tell(d)) == h2 && After(h2, Load) == h3 && MayAdd(h3)
  {
    hide Owner, Count, Registering, NeedRecover;
    assert {} + {b} == {b};
    assert [] + [Dead(b, true)] == [Dead(b, true)];
  }

  lemma BuryWord(s: State, f: Fields, b: Tid) returns (w: Word)
    requires Decode(s.word) == f && f.owner != 0 && f.owner != b && f.recover == 0 && f.registering == 0 && f.count > 0
    ensures w == Wrap(s.word + TotalChange(s.word, [Dead(b, true)])) && Decode(w) == f.(count := f.count - 1)
  {
    hide Owner, Count, Registering, NeedRecover, Wrap;
    var dead := [Dead(b, true)];
    assert dead[1..] == [];
    CleanupExactly(s.word, s.word, dead);
    w := Wrap(s.word + TotalChange(s.word, dead));
  }

  lemma AddBuries(h: Life, f: Fields, m: Threads, l: Lock, b: Tid, w: Word)
    requires h == Life(State(h.s.word, m, l), {b}, [Dead(b, true)], Loaded(h.s.word)) && b in m
    requires w == Wrap(h.s.word + TotalChange(h.s.word, [Dead(b, true)])) && Owner(w) != 0
    ensures After(h, Add) == Life(State(w, m - {b}, l), {}, [], Replied(0))
  {
    hide Wrap, Owner, Count, TotalChange;
    var dead := [Dead(b, true)];
    assert forall t :: Mentions(dead, t) <==> t == b by { assert dead[0].tid == b; }
    assert Survivors(m, dead) == m - {b};
    assert Tids(dead) == {b} by { assert dead[0].tid == b; }
    assert {b} - {b} == {};
  }

  lemma ReplyBuries(h4: Life, h5: Life)
    requires h4.job == Replied(0) && Woken(h4.s, 0) == h5.s && h5 == h4.(s := h5.s, job := NoJob)
    ensures After(h4, Reply) == h5
  {
  }

  /** The first of two queued clients is woken, the second one stays. */
  lemma FirstOfTwo(l: Lock, x: Waiter, y: Waiter)
    requires l.queue == [x, y] && x.val == 1
    ensures Chosen(l.queue, 1, 1) == [x] && WakeWaiters(l, 1, 1) == Lock(l.nwaiter - 1, if l.maxWake < 1 then 1 else l.maxWake, [y])
  {
    assert l.queue[1..] == [y];
    assert Chosen([y], 0, 1) == [] && Left([y], 0, 1) == [y];
  }

  lemma Queued(l: Lock, q: seq<Waiter>, t: Tid)
    requires l.nwaiter >= 0 && l.queue == q
    ensures AddWaiter(l, Waiter(t, 1)) == Lock(l.nwaiter + 1, l.maxWake, q + [Waiter(t, 1)])
  {
  }

  /** `a` holds the mutex, `c` and `b` sleep in this order, `b` dies and is cleaned away. */
  lemma FirstAct(ids: set<Tid>, a: Tid, b: Tid, c: Tid) returns (events: seq<Event>, m: Threads)
    requires a in ids && b in ids && c in ids && a != b && b != c && a != c
    ensures OrderlyLife(Born(ids, false), events) && Calm(m)
    ensures Stage(Live(Born(ids, false), events), Fields(a, 1, 0, 0), m, Lock(2, 1, [Waiter(c, 1), Waiter(b, 1)]))
    ensures a in m && c in m && b !in m && m[a] == Holding(Success) && m[c] == Sleeping(c)
    ensures forall t :: t in m && t != a && t != c ==> m[t] == Idle(Success)
  {
    hide OrderlyLife, Live, Stage, AddWaiter, Calm;
    var h0 := Born(ids, false);
    var e1 := Begins(ids, a);
    var m1 := h0.s.threads[a := Holding(Success)];
    var e2 := Sleep(h0, e1, Fields(a, 0, 0, 0), m1, FRESH, c);
    Queued(FRESH, [], c);
    var l2 := Lock(1, 0, [Waiter(c, 1)]);
    assert AddWaiter(FRESH, Waiter(c, 1)) == l2;
    var m2 := m1[c := Sleeping(c)];
    var e3 := Sleep(h0, e2, Fields(a, 1, 0, 0), m2, l2, b);
    Queued(l2, [Waiter(c, 1)], b);
    var l3 := Lock(2, 0, [Waiter(c, 1), Waiter(b, 1)]);
    assert AddWaiter(l2, Waiter(b, 1)) == l3;
    var m3 := m2[b := Sleeping(b)];
    events := Buries(h0, e3, Fields(a, 2, 0, 0), m3, l3, b);
    m := m3 - {b};
    assert WakeWaiters(l3, 0, 1) == Lock(2, 1, l3.queue);
  }

  /** The mutex goes round: `a` wakes `c`, sleeps behind the dead `b`, and the wake-up of `c` goes to `b`. */
  lemma SecondAct(h0: Life, events: seq<Event>, m: Threads, a: Tid, b: Tid, c: Tid) returns (more: seq<Event>)
    requires OrderlyLife(h0, events) && Calm(m) && a != b && b != c && a != c
    requires Stage(Live(h0, events), Fields(a, 1, 0, 0), m, Lock(2, 1, [Waiter(c, 1), Waiter(b, 1)]))
    requires a in m && c in m && b !in m && m[a] == Holding(Success) && m[c] == Sleeping(c)
    requires forall t :: t in m && t != a && t != c ==> m[t] == Idle(Success)
    ensures OrderlyLife(h0, more) && Settled(Live(h0, more)) && Stuck(Live(h0, more).s)
  {
    hide OrderlyLife, Live, Stage, AddWaiter, Calm, Chosen, WakeWaiters, Stuck;
    var x, y, z := Waiter(c, 1), Waiter(b, 1), Waiter(a, 1);
    var l4, l5 := Lock(2, 1, [x, y]), Lock(1, 1, [y]);
    FirstOfTwo(l4, x, y);
    var e5 := Free(h0, events, Fields(a, 1, 0, 0), m, l4, a);
    var m5 := Released(m, [x])[a := Idle(Success)];
    assert m5[c] == Reload(WaiterInc(c));
    var e6 := Acquire(h0, e5, Fields(0, 1, 0, 0), m5, l5, c);
    var m6 := m5[c := Holding(Success)];
    var e7 := Sleep(h0, e6, Fields(c, 0, 0, 0), m6, l5, a);
    Queued(l5, [y], a);
    var l7, m7 := Lock(2, 1, [y, z]), m6[a := Sleeping(a)];
    assert AddWaiter(l5, z) == l7;
    FirstOfTwo(l7, y, z);
    more := Free(h0, e7, Fields(c, 1, 0, 0), m7, l7, c);
    LeftAsleep(Live(h0, more), m7, a, b, c);
  }

  lemma LeftAsleep(h: Life, m: Threads, a: Tid, b: Tid, c: Tid)
    requires Stage(h, Fields(0, 1, 0, 0), Released(m, [Waiter(b, 1)])[c := Idle(Success)], Lock(1, 1, [Waiter(a, 1)]))
    requires a in m && a != b && a != c && m[a] == Sleeping(a)
    requires forall t :: t in m && t != a && t != c ==> m[t] == Idle(Success)
    ensures Settled(h) && Stuck(h.s)
  {
    assert h.s.threads[a].Asleep?;
    assert a in RegisteredSet(h.s.threads);
  }

  lemma ThreeStrand(ids: set<Tid>) returns (events: seq<Event>)
    requires |ids| >= 3
    ensures StrandedBy(ids, events)
  {
    hide OrderlyLife, Live, Stage, Calm, Stuck;
    var a, b := TwoOf(ids);
    assert |ids - {a} - {b}| == |ids| - 2;
    var c :| c in ids - {a} - {b};
    var first, m := FirstAct(ids, a, b, c);
    events := SecondAct(Born(ids, false), first, m, a, b, c);
  }

  /**
   With the server as it is, the waiters can be left asleep on a free mutex after deaths that have all been dealt
   with, exactly if at least three threads use the mutex.
   */
  lemma StrandedExactly(ids: set<Tid>)
    ensures (exists events :: StrandedBy(ids, events)) <==> |ids| >= 3
  {
    if |ids| >= 3 {
      var events := ThreeStrand(ids);
    } else {
      forall events ensures !StrandedBy(ids, events) {
        TwoAreSafe(ids, events);
      }
    }
  }
}
