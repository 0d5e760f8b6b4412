/**
 Mutual exclusion, conservation of the waiter count and the robust life cycle, over every
 interleaving of at most 255 threads (src/thread-win32.c).
 */
module MutexSafety {
  import opened LockWord
  import opened Referee
  import opened MutexProtocol

  // ---------------------------------------------------------------- sums over threads

  datatype Tally = Registered | Waking | Waiting

  predicate IsHolder(pc: Pc) {
    pc.Holding? || pc.UnlockLoad? || pc.UnlockSub? || pc.ConsistentLoad? || pc.ConsistentSub?
  }

  /** Counted in the word: from the successful registration up to the acquisition. */
  predicate IsRegistered(pc: Pc) {
    pc.RegisterRelease? || (pc.LockCas? && pc.notified) || pc.AtWait? || pc.Asleep? || pc.Reload?
  }

  function Weight(k: Tally, pc: Pc): nat {
    match k
    case Registered => if IsRegistered(pc) then 1 else 0
    case Waking => if pc.UnlockWake? then pc.num else 0
    case Waiting => if pc.AtWait? then 1 else 0
  }

  ghost function Sum(k: Tally, m: Threads): nat {
    if m == map[] then 0 else
      var t :| t in m;
      Weight(k, m[t]) + Sum(k, m - {t})
  }

  lemma {:induction false} SumSplit(k: Tally, m: Threads, t: Tid)
    requires t in m
    ensures Sum(k, m) == Weight(k, m[t]) + Sum(k, m - {t})
    decreases |m|
  {
    var u :| u in m && Sum(k, m) == Weight(k, m[u]) + Sum(k, m - {u});
    if u != t {
      SumSplit(k, m - {u}, t);
      SumSplit(k, m - {t}, u);
      assert m - {u} - {t} == m - {t} - {u};
    }
  }

  lemma SumGoto(k: Tally, m: Threads, t: Tid, pc: Pc)
    requires t in m
    ensures Sum(k, m[t := pc]) == Sum(k, m) - Weight(k, m[t]) + Weight(k, pc)
  {
    SumSplit(k, m, t);
    SumSplit(k, m[t := pc], t);
    assert m[t := pc] - {t} == m - {t};
  }

  lemma {:induction false} SumAgrees(k: Tally, m: Threads, m': Threads)
    requires m.Keys == m'.Keys
    requires forall t :: t in m ==> Weight(k, m[t]) == Weight(k, m'[t])
    ensures Sum(k, m) == Sum(k, m')
    decreases |m|
  {
    if m == map[] {
      assert m' == map[];
    } else {
      var t :| t in m;
      SumSplit(k, m, t);
      SumSplit(k, m', t);
      SumAgrees(k, m - {t}, m' - {t});
    }
  }

  lemma {:induction false} RegisteredAtMost(m: Threads)
    ensures Sum(Registered, m) <= |m|
    decreases |m|
  {
    if m != map[] {
      var t :| t in m;
      SumSplit(Registered, m, t);
      RegisteredAtMost(m - {t});
    }
  }

  /** A thread that is not registered sees a count of at most the other threads. */
  lemma UnregisteredSees(m: Threads, t: Tid)
    requires t in m && !IsRegistered(m[t])
    ensures Sum(Registered, m) < |m|
  {
    SumSplit(Registered, m, t);
    RegisteredAtMost(m - {t});
  }

  // ---------------------------------------------------------------- the invariant

  /** `IsUnrecoverable`, on the fields. */
  ghost predicate Gone(f: Fields) {
    f.owner == OWNER_MASK && f.recover == 1
  }

  /** The owner of a mutex in need of recovery was told so when it acquired the mutex. */
  ghost predicate Informed(f: Fields, ret: Result) {
    f.recover == 1 ==> ret == OwnerDead
  }

  /** What the local variables of thread `t` say. */
  ghost predicate LocalOk(f: Fields, t: Tid, pc: Pc) {
    match pc
    case LockCas(seen, inc, notified) =>
      if notified then Owner(seen) == 0 && inc == WaiterInc(t) else seen == 0 && inc == PlainInc(t)
    case RegisterCas(seen, inc) => !IsWaiterListFull(seen) && !IsUnrecoverable(seen) && inc == PlainInc(t)
    case RegisterReload(_) => false
    case RegisterRelease(inc) => inc == PlainInc(t)
    case AtWait(inc) => inc == WaiterInc(t)
    case Asleep(inc) => inc == WaiterInc(t)
    case Reload(inc) => inc == WaiterInc(t)
    case TryCas(second, seen, want) =>
      Owner(seen) == 0 && want == Wrap(seen + PlainInc(t)) && (!second ==> seen == 0)
    case Holding(ret) => Informed(f, ret)
    case UnlockLoad(ret) => Informed(f, ret)
    case UnlockSub(ret, unrecoverable) => Informed(f, ret) && unrecoverable == (f.recover == 1)
    case ConsistentLoad(ret) => Informed(f, ret)
    case ConsistentSub(ret) => Informed(f, ret) && f.recover == 1
    case UnlockWake(num) => num > 0
    case _ => true
  }

  ghost predicate LocalsOk(f: Fields, m: Threads) {
    forall t :: t in m ==> LocalOk(f, t, m[t])
  }

  /** The owner field is the id of the only thread between acquire and unlock, 0 if there is none. */
  ghost predicate OwnerOk(f: Fields, m: Threads) {
    && (forall t :: t in m ==> (IsHolder(m[t]) <==> f.owner == t))
    && (f.owner == 0 || f.owner in m || Gone(f))
  }

  /** The count field is the number of threads registered but not yet acquired. */
  ghost predicate CountOk(f: Fields, m: Threads) {
    !Gone(f) ==> f.count == Sum(Registered, m)
  }

  ghost predicate ServerOk(m: Threads, l: Lock) {
    && QueueOk(m, l.queue)
    && (if l.queue == [] then l.nwaiter <= 0 else l.nwaiter == |l.queue|)
    && (l.nwaiter < 0 ==> l.maxWake >= 1)
  }

  /** The queue holds the sleeping threads, each once. */
  ghost predicate QueueOk(m: Threads, q: seq<Waiter>) {
    && AllVal(q, 1)
    && (forall i :: 0 <= i < |q| ==> q[i].id in m && m[q[i].id].Asleep?)
    && (forall i, j :: 0 <= i < j < |q| ==> q[i] != q[j])
    && (forall t :: t in m && m[t].Asleep? ==> Waiter(t, 1) in q)
  }

  /** No thread is about to register in a word that is already unrecoverable. */
  ghost predicate NoLateRegistration(f: Fields, m: Threads) {
    Gone(f) ==> forall t :: t in m ==> !m[t].RegisterCas?
  }

  /** Once unrecoverable, the wakes under way and banked cover everyone who sleeps or will ask to. */
  ghost predicate AllReleased(f: Fields, m: Threads, l: Lock) {
    Gone(f) ==> Sum(Waking, m) >= Sum(Waiting, m) + l.nwaiter
  }

  ghost predicate CoreOn(f: Fields, m: Threads, l: Lock) {
    && |m| <= MAX_COUNT
    && LocalsOk(f, m)
    && OwnerOk(f, m)
    && CountOk(f, m)
    && ServerOk(m, l)
    && AllReleased(f, m, l)
  }

  ghost predicate InvOn(f: Fields, m: Threads, l: Lock) {
    CoreOn(f, m, l) && NoLateRegistration(f, m)
  }

  ghost predicate Core(s: State) {
    CoreOn(Decode(s.word), s.threads, s.server)
  }

  ghost predicate Inv(s: State) {
    InvOn(Decode(s.word), s.threads, s.server)
  }

  ghost predicate OnTime(s: State) {
    NoLateRegistration(Decode(s.word), s.threads)
  }

  // ---------------------------------------------------------------- one lemma per kind of step

  lemma QueueGoto(m: Threads, q: seq<Waiter>, t: Tid, pc: Pc)
    requires QueueOk(m, q) && t in m && !pc.Asleep? && !m[t].Asleep?
    ensures QueueOk(m[t := pc], q)
  {
  }

  /** A step of `t` that neither touches the word nor the server nor the tallies. */
  lemma QuietStep(f: Fields, m: Threads, l: Lock, t: Tid, pc: Pc)
    requires InvOn(f, m, l) && t in m && LocalOk(f, t, pc)
    requires IsHolder(pc) == IsHolder(m[t]) && IsRegistered(pc) == IsRegistered(m[t])
    requires !pc.Asleep? && !m[t].Asleep? && !pc.AtWait? && !pc.UnlockWake? && !m[t].UnlockWake?
    requires pc.RegisterCas? ==> !Gone(f)
    ensures InvOn(f, m[t := pc], l)
  {
    SumGoto(Registered, m, t, pc);
    SumGoto(Waking, m, t, pc);
    SumGoto(Waiting, m, t, pc);
    QueueGoto(m, l.queue, t, pc);
  }

  /** A step of `t` that changes the word of a mutex that is and stays recoverable. */
  lemma WordStep(f: Fields, m: Threads, l: Lock, t: Tid, pc: Pc, f': Fields)
    requires InvOn(f, m, l) && t in m && LocalOk(f', t, pc) && !Gone(f) && !Gone(f')
    requires !pc.Asleep? && !m[t].Asleep?
    requires f'.recover == f.recover || (IsHolder(m[t]) && f'.recover == 0)
    requires f'.count - f.count == Weight(Registered, pc) - Weight(Registered, m[t])
    requires if IsHolder(m[t]) then f'.owner == (if IsHolder(pc) then t else 0)
             else if IsHolder(pc) then f.owner == 0 && f'.owner == t
             else f'.owner == f.owner
    ensures InvOn(f', m[t := pc], l)
  {
    SumGoto(Registered, m, t, pc);
    QueueGoto(m, l.queue, t, pc);
  }

  /** Releasing a registration in a word that has become unrecoverable meanwhile. */
  lemma LateReleaseStep(f: Fields, m: Threads, l: Lock, t: Tid, pc: Pc, f': Fields)
    requires InvOn(f, m, l) && t in m && m[t].RegisterRelease? && LocalOk(f', t, pc)
    requires pc.LockCas? && pc.notified
    requires f' == f.(registering := f'.registering)
    ensures InvOn(f', m[t := pc], l)
  {
    SumGoto(Registered, m, t, pc);
    SumGoto(Waking, m, t, pc);
    SumGoto(Waiting, m, t, pc);
    QueueGoto(m, l.queue, t, pc);
  }

  /** The owner gives up an inconsistent mutex: everybody counted gets a wake-up. */
  lemma GiveUpStep(f: Fields, m: Threads, l: Lock, t: Tid)
    requires InvOn(f, m, l) && t in m && m[t].UnlockSub? && f.recover == 1 && f.count >= 0
    ensures CoreOn(f.(owner := OWNER_MASK), m[t := if f.count != 0 then UnlockWake(f.count) else Idle(Success)], l)
  {
    assert f.owner == t;
    var pc := if f.count != 0 then UnlockWake(f.count) else Idle(Success);
    SumGoto(Waking, m, t, pc);
    SumGoto(Waiting, m, t, pc);
    SleepersAreRegistered(m, l.queue);
    QueueGoto(m, l.queue, t, pc);
  }

  /** Sleepers and threads on their way to the server are all counted. */
  lemma {:induction false} SleepersAreRegistered(m: Threads, q: seq<Waiter>)
    requires AllVal(q, 1)
    requires forall i :: 0 <= i < |q| ==> q[i].id in m && m[q[i].id].Asleep?
    requires forall i, j :: 0 <= i < j < |q| ==> q[i] != q[j]
    ensures Sum(Waiting, m) + |q| <= Sum(Registered, m)
    decreases |m|
  {
    if q == [] {
      WaitingAtMostRegistered(m);
    } else {
      var t := q[0].id;
      SumSplit(Waiting, m, t);
      SumSplit(Registered, m, t);
      forall i | 1 <= i < |q| ensures q[i].id in m - {t} {
        assert q[0] != q[i];
      }
      SleepersAreRegistered(m - {t}, q[1..]);
    }
  }

  lemma {:induction false} WaitingAtMostRegistered(m: Threads)
    ensures Sum(Waiting, m) <= Sum(Registered, m)
    decreases |m|
  {
    if m != map[] {
      var t :| t in m;
      SumSplit(Waiting, m, t);
      SumSplit(Registered, m, t);
      WaitingAtMostRegistered(m - {t});
    }
  }

  lemma QueueAppend(m: Threads, q: seq<Waiter>, t: Tid, pc: Pc)
    requires QueueOk(m, q) && t in m && pc.Asleep? && !m[t].Asleep?
    ensures QueueOk(m[t := pc], q + [Waiter(t, 1)])
  {
    var q' := q + [Waiter(t, 1)];
    forall u | u in m[t := pc] && m[t := pc][u].Asleep? ensures Waiter(u, 1) in q' {
      assert q'[|q|] == Waiter(t, 1);
      if u != t { assert Waiter(u, 1) in q; }
    }
  }

  lemma WaitStep(f: Fields, m: Threads, l: Lock, t: Tid)
    requires InvOn(f, m, l) && t in m && m[t].AtWait?
    ensures var pc := if ReturnsAtOnce(l, Waiter(t, 1)) then Reload(m[t].inc) else Asleep(m[t].inc);
            InvOn(f, m[t := pc], AddWaiter(l, Waiter(t, 1)))
  {
    var pc := if ReturnsAtOnce(l, Waiter(t, 1)) then Reload(m[t].inc) else Asleep(m[t].inc);
    SumGoto(Registered, m, t, pc);
    SumGoto(Waking, m, t, pc);
    SumGoto(Waiting, m, t, pc);
    if pc.Asleep? { QueueAppend(m, l.queue, t, pc); } else { QueueGoto(m, l.queue, t, pc); }
  }

  lemma QueueRelease(m: Threads, q: seq<Waiter>, k: nat)
    requires QueueOk(m, q) && k <= |q|
    ensures QueueOk(Released(m, q[..k]), q[k..])
  {
    var m' := Released(m, q[..k]);
    forall i | 0 <= i < |q[k..]| ensures q[k..][i].id in m' && m'[q[k..][i].id].Asleep? {
      var x := q[k + i];
      assert x == Waiter(x.id, 1);
      assert x !in q[..k];
    }
    forall u | u in m' && m'[u].Asleep? ensures Waiter(u, 1) in q[k..] {
      assert Waiter(u, 1) in q && Waiter(u, 1) !in q[..k];
      assert q == q[..k] + q[k..];
    }
  }

  /** `m'` is `m` with some sleepers sent on to the reload. */
  ghost predicate SomeReleased(m: Threads, m': Threads) {
    m'.Keys == m.Keys && |m'| == |m| &&
    forall t :: t in m ==> m'[t] == m[t] || (m[t].Asleep? && m'[t] == Reload(m[t].inc))
  }

  lemma ReleasedIsSome(m: Threads, woken: seq<Waiter>)
    ensures SomeReleased(m, Released(m, woken))
  {
    var m' := Released(m, woken);
    assert m'.Keys == m.Keys;
    assert |m'.Keys| == |m.Keys|;
  }

  /** Releasing sleepers changes no tally, no holder and no local promise. */
  lemma ReleasedKeeps(f: Fields, m: Threads, m': Threads)
    requires LocalsOk(f, m) && OwnerOk(f, m) && CountOk(f, m) && NoLateRegistration(f, m) && SomeReleased(m, m')
    ensures LocalsOk(f, m') && OwnerOk(f, m') && CountOk(f, m') && NoLateRegistration(f, m')
    ensures Sum(Waking, m') == Sum(Waking, m) && Sum(Waiting, m') == Sum(Waiting, m)
  {
    SumAgrees(Registered, m, m');
    SumAgrees(Waking, m, m');
    SumAgrees(Waiting, m, m');
  }

  /** A thread that has delivered its wake request is idle again. */
  lemma WokeIdle(f: Fields, m: Threads, l: Lock, t: Tid, num: nat)
    requires |m| <= MAX_COUNT && LocalsOk(f, m) && OwnerOk(f, m) && CountOk(f, m) && ServerOk(m, l)
    requires NoLateRegistration(f, m) && t in m && m[t] == UnlockWake(num)
    requires Gone(f) ==> Sum(Waking, m) >= Sum(Waiting, m) + l.nwaiter + num
    ensures InvOn(f, m[t := Idle(Success)], l)
  {
    SumGoto(Registered, m, t, Idle(Success));
    SumGoto(Waking, m, t, Idle(Success));
    SumGoto(Waiting, m, t, Idle(Success));
    QueueGoto(m, l.queue, t, Idle(Success));
  }

  lemma WakeStep(f: Fields, m: Threads, l: Lock, t: Tid)
    requires InvOn(f, m, l) && t in m && m[t].UnlockWake?
    ensures InvOn(f, Released(m, Chosen(l.queue, m[t].num, 1))[t := Idle(Success)], WakeWaiters(l, m[t].num, 1))
  {
    var num := m[t].num;
    var q := l.queue;
    var k := if num < |q| then num else |q|;
    UniformSelection(q, num, 1);
    var mid := Released(m, q[..k]);
    ReleasedIsSome(m, q[..k]);
    ReleasedKeeps(f, m, mid);
    QueueRelease(m, q, k);
    WokeIdle(f, mid, WakeWaiters(l, num, 1), t, num);
  }

  // ---------------------------------------------------------------- every step keeps the invariant

  /** A word seen by an unregistered thread never shows a full waiter list. */
  lemma NeverFull(s: State, t: Tid)
    requires Inv(s) && t in s.threads && !IsRegistered(s.threads[t]) && !IsUnrecoverable(s.word)
    ensures !IsWaiterListFull(s.word)
  {
    UnregisteredSees(s.threads, t);
  }

  lemma SeesItself(s: State, t: Tid)
    requires Inv(s) && t in s.threads && IsRegistered(s.threads[t]) && !IsUnrecoverable(s.word)
    ensures Count(s.word) > 0
  {
    SumSplit(Registered, s.threads, t);
  }

  lemma AcquireStep(s: State, t: Tid, inc: Word)
    requires Inv(s) && t in s.threads && s.threads[t].LockCas? && s.threads[t].seen == s.word && s.threads[t].inc == inc
    ensures Inv(Goto(s, t, Holding(AcquireResult(s.word))).(word := Wrap(s.word + inc)))
  {
    var pc := s.threads[t];
    assert LocalOk(Decode(s.word), t, pc);
    if pc.notified {
      SeesItself(s, t);
      WaiterAcquireFields(s.word, t);
    } else {
      PlainAcquireFields(s.word, t);
    }
    WordStep(Decode(s.word), s.threads, s.server, t, Holding(AcquireResult(s.word)), Decode(Wrap(s.word + inc)));
  }

  lemma LockCasStep(s: State, t: Tid)
    requires Inv(s) && t in s.threads && s.threads[t].LockCas?
    ensures Inv(LockCasNext(s, t, s.threads[t].seen, s.threads[t].inc, s.threads[t].notified))
  {
    hide Inv;
    var pc := s.threads[t];
    if s.word == pc.seen {
      AcquireStep(s, t, pc.inc);
    } else if IsUnrecoverable(s.word) {
      GoneIdle(s, t);
    } else if pc.notified {
      GoWait(s, t, pc.inc);
    } else {
      GoRegister(s, t, pc.inc);
    }
  }

  lemma GoRegister(s: State, t: Tid, inc: Word)
    requires Inv(s) && t in s.threads && !IsUnrecoverable(s.word)
    requires (s.threads[t].LockCas? && !s.threads[t].notified) || s.threads[t].RegisterCas?
    requires s.threads[t].inc == inc
    ensures Inv(Goto(s, t, RegisterCas(s.word, inc)))
  {
    assert LocalOk(Decode(s.word), t, s.threads[t]);
    NeverFull(s, t);
    QuietStep(Decode(s.word), s.threads, s.server, t, RegisterCas(s.word, inc));
  }

  lemma GoneIdle(s: State, t: Tid)
    requires Inv(s) && t in s.threads && IsUnrecoverable(s.word)
    requires s.threads[t].LockCas? || s.threads[t].TryCas?
    ensures Inv(Goto(s, t, Idle(NotRecoverable)))
  {
    var pc := Idle(NotRecoverable);
    SumGoto(Waking, s.threads, t, pc);
    SumGoto(Waiting, s.threads, t, pc);
    QueueGoto(s.threads, s.server.queue, t, pc);
  }

  lemma GoWait(s: State, t: Tid, inc: Word)
    requires Inv(s) && t in s.threads && !IsUnrecoverable(s.word)
    requires s.threads[t].LockCas? && s.threads[t].notified && s.threads[t].inc == inc
    ensures Inv(Goto(s, t, AtWait(inc)))
  {
    assert LocalOk(Decode(s.word), t, s.threads[t]);
    SumGoto(Registered, s.threads, t, AtWait(inc));
    QueueGoto(s.threads, s.server.queue, t, AtWait(inc));
  }

  lemma RegisterStep(s: State, t: Tid, inc: Word)
    requires Inv(s) && t in s.threads && s.threads[t] == RegisterCas(s.word, inc)
    ensures Inv(Goto(s, t, RegisterRelease(inc)).(word := Wrap(ClearRegistering(s.word) + MtxLockval(0, t, 1))))
  {
    assert LocalOk(Decode(s.word), t, s.threads[t]);
    RegisterFields(s.word, t);
    WordStep(Decode(s.word), s.threads, s.server, t, RegisterRelease(inc),
             Decode(Wrap(ClearRegistering(s.word) + MtxLockval(0, t, 1))));
  }

  lemma RegisteringIsAllowed(s: State, t: Tid)
    requires Inv(s) && t in s.threads && s.threads[t].RegisterCas?
    ensures !IsWaiterListFull(s.threads[t].seen) && !IsUnrecoverable(s.word)
  {
    assert LocalOk(Decode(s.word), t, s.threads[t]);
  }

  lemma RegisterCasStep(s: State, t: Tid)
    requires Inv(s) && t in s.threads && s.threads[t].RegisterCas?
    ensures Inv(RegisterCasNext(s, t, s.threads[t].seen, s.threads[t].inc))
  {
    hide Inv;
    var pc := s.threads[t];
    RegisteringIsAllowed(s, t);
    if s.word == pc.seen {
      RegisterStep(s, t, pc.inc);
    } else {
      GoRegister(s, t, pc.inc);
    }
  }

  lemma RegisterReleaseStep(s: State, t: Tid)
    requires Inv(s) && t in s.threads && s.threads[t].RegisterRelease?
    ensures Inv(RegisterReleaseNext(s, t, s.threads[t].inc))
  {
    hide Owner, Count, NeedRecover, Registering;
    var w := s.word;
    assert LocalOk(Decode(w), t, s.threads[t]);
    ReleaseFields(w, t);
    MasksIsolateFields(w);
    LateReleaseStep(Decode(w), s.threads, s.server, t,
                    LockCas(ClearOwner(ClearRegistering(w)), WaiterInc(t), true),
                    Decode(Wrap(w - MtxLockval(0, t, 0))));
  }

  lemma TryAcquireStep(s: State, t: Tid)
    requires Inv(s) && t in s.threads && s.threads[t].TryCas? && s.threads[t].seen == s.word
    ensures Inv(Goto(s, t, Holding(AcquireResult(s.word))).(word := s.threads[t].want))
  {
    assert LocalOk(Decode(s.word), t, s.threads[t]);
    PlainAcquireFields(s.word, t);
    WordStep(Decode(s.word), s.threads, s.server, t, Holding(AcquireResult(s.word)), Decode(s.threads[t].want));
  }

  lemma TryAgainStep(s: State, t: Tid, want: Word)
    requires Inv(s) && t in s.threads && s.threads[t].TryCas? && !s.threads[t].second && s.threads[t].want == want
    ensures Inv(Goto(s, t, TryCas(true, ClearOwner(s.word), Wrap(want + ClearOwner(s.word)))))
  {
    assert LocalOk(Decode(s.word), t, s.threads[t]);
    assert want == PlainInc(t);
    MasksIsolateFields(s.word);
    QuietStep(Decode(s.word), s.threads, s.server, t, TryCas(true, ClearOwner(s.word), Wrap(want + ClearOwner(s.word))));
  }

  lemma TryBusyStep(s: State, t: Tid)
    requires Inv(s) && t in s.threads && s.threads[t].TryCas?
    ensures Inv(Goto(s, t, Idle(Busy)))
  {
    QuietStep(Decode(s.word), s.threads, s.server, t, Idle(Busy));
  }

  lemma TryCasStep(s: State, t: Tid)
    requires Inv(s) && t in s.threads && s.threads[t].TryCas?
    ensures Inv(TryCasNext(s, t, s.threads[t].second, s.threads[t].seen, s.threads[t].want))
  {
    hide Inv;
    var pc := s.threads[t];
    if s.word == pc.seen {
      TryAcquireStep(s, t);
    } else if IsUnrecoverable(s.word) {
      GoneIdle(s, t);
    } else if pc.second {
      TryBusyStep(s, t);
    } else {
      TryAgainStep(s, t, pc.want);
    }
  }

  lemma UnlockSubStep(s: State, t: Tid)
    requires Inv(s) && t in s.threads && s.threads[t].UnlockSub?
    ensures Core(UnlockSubNext(s, t, s.threads[t].unrecoverable))
    ensures !s.threads[t].unrecoverable ==> Inv(UnlockSubNext(s, t, s.threads[t].unrecoverable))
  {
    var pc := s.threads[t];
    var w := s.word;
    assert LocalOk(Decode(w), t, pc);
    UnlockFields(w, t, pc.unrecoverable);
    var s' := UnlockSubNext(s, t, s.threads[t].unrecoverable);
    if pc.unrecoverable {
      GiveUpStep(Decode(w), s.threads, s.server, t);
    } else {
      WordStep(Decode(w), s.threads, s.server, t, if IsWaited(w) then UnlockWake(1) else Idle(Success), Decode(s'.word));
    }
  }

  lemma HolderStep(s: State, t: Tid, call: Call)
    requires Inv(s) && t in s.threads && IsHolder(s.threads[t]) && !s.threads[t].UnlockSub?
    ensures Inv(Advance(s, t, call))
  {
    var pc := s.threads[t];
    var w := s.word;
    assert LocalOk(Decode(w), t, pc);
    if pc.ConsistentSub? {
      ConsistentFields(w);
      WordStep(Decode(w), s.threads, s.server, t, Holding(pc.ret), Decode(Wrap(w - TWO40)));
    } else {
      var pc' := Advance(s, t, call).threads[t];
      if pc' != pc {
        QuietStep(Decode(w), s.threads, s.server, t, pc');
      }
    }
  }

  lemma SweepStep(s: State)
    requires Inv(s) && IsUnused(s.server)
    ensures Inv(s.(server := FRESH))
  {
  }

  lemma IdleStep(s: State, t: Tid, call: Call)
    requires Inv(s) && t in s.threads && s.threads[t].Idle?
    ensures Inv(Advance(s, t, call))
  {
    if call == DoLock {
      QuietStep(Decode(s.word), s.threads, s.server, t, LockCas(0, PlainInc(t), false));
    } else if call == DoTryLock {
      QuietStep(Decode(s.word), s.threads, s.server, t, TryCas(false, 0, PlainInc(t)));
    }
  }

  lemma ReloadStep(s: State, t: Tid, call: Call)
    requires Inv(s) && t in s.threads && s.threads[t].Reload?
    ensures Inv(Advance(s, t, call))
  {
    MasksIsolateFields(s.word);
    assert LocalOk(Decode(s.word), t, s.threads[t]);
    QuietStep(Decode(s.word), s.threads, s.server, t, LockCas(ClearOwner(s.word), s.threads[t].inc, true));
  }

  lemma ServerWaitStep(s: State, t: Tid)
    requires Inv(s) && t in s.threads && s.threads[t].AtWait?
    ensures Inv(WaitNext(s, t, s.threads[t].inc))
  {
    var w := Waiter(t, 1);
    var inc := s.threads[t].inc;
    WaitStep(Decode(s.word), s.threads, s.server, t);
  }

  lemma ServerWakeStep(s: State, t: Tid)
    requires Inv(s) && t in s.threads && s.threads[t].UnlockWake?
    ensures Inv(WakeNext(s, t, s.threads[t].num))
  {
    var num := s.threads[t].num;
    WakeStep(Decode(s.word), s.threads, s.server, t);
  }

  /** Every atomic step of every thread, and every sweep of the server, keeps the invariant. */
  lemma StepKeepsInv(s: State, l: Label)
    requires Inv(s)
    ensures Core(Apply(s, l))
    ensures OnTime(Apply(s, l)) ==> Inv(Apply(s, l))
  {
    if l.Sweep? {
      if IsUnused(s.server) { SweepStep(s); }
    } else if l.tid in s.threads {
      var t := l.tid;
      var pc := s.threads[t];
      assert LocalOk(Decode(s.word), t, pc);
      if pc.Idle? { IdleStep(s, t, l.call); }
      else if pc.LockCas? { LockCasStep(s, t); }
      else if pc.RegisterCas? { RegisterCasStep(s, t); }
      else if pc.RegisterRelease? { RegisterReleaseStep(s, t); }
      else if pc.AtWait? { ServerWaitStep(s, t); }
      else if pc.UnlockWake? { ServerWakeStep(s, t); }
      else if pc.Reload? { ReloadStep(s, t, l.call); }
      else if pc.TryCas? { TryCasStep(s, t); }
      else if pc.UnlockSub? { UnlockSubStep(s, t); }
      else if IsHolder(pc) { HolderStep(s, t, l.call); }
    }
  }

  // ---------------------------------------------------------------- field isolation in every reachable state

  /** The update of the separate fields that the next step of `t` is meant to make. */
  ghost function Intended(s: State, t: Tid): Fields
    requires t in s.threads
  {
    var f := Decode(s.word);
    match s.threads[t]
    case LockCas(seen, _, notified) =>
      if s.word != seen then f
      else if notified then f.(owner := t, count := f.count - 1)
      else f.(owner := t)
    case TryCas(_, seen, _) => if s.word != seen then f else f.(owner := t)
    case RegisterCas(seen, _) => if s.word != seen then f else f.(count := f.count + 1, registering := t)
    case RegisterRelease(_) => f.(registering := (f.registering - t) % TWO23)
    case UnlockSub(_, unrecoverable) => f.(owner := if unrecoverable then OWNER_MASK else 0)
    case ConsistentSub(_) => f.(recover := 0)
    case _ => f
  }

  /** Every 64-bit update of the word is that update of its fields: nothing carries or borrows. */
  lemma FieldIsolation(s: State, t: Tid, call: Call)
    requires Inv(s) && t in s.threads
    ensures Decode(Advance(s, t, call).word) == Intended(s, t)
  {
    hide Inv, Count, NeedRecover, Registering, Wrap, ClearOwner, ClearRegistering, MtxLockval, UnlockVal;
    var pc := s.threads[t];
    var w := s.word;
    FactsOf(s, t);
    match pc
    case LockCas(seen, inc, notified) =>
      if w == seen {
        if notified {
          SeesItself(s, t);
          WaiterAcquireFields(w, t);
        } else {
          PlainAcquireFields(w, t);
        }
      }
    case TryCas(_, seen, want) => if w == seen { PlainAcquireFields(w, t); }
    case RegisterCas(seen, _) => if w == seen { RegisterFields(w, t); }
    case RegisterRelease(_) => ReleaseFields(w, t);
    case UnlockSub(_, unrecoverable) => UnlockFields(w, t, unrecoverable);
    case ConsistentSub(_) => ConsistentFields(w);
    case _ =>
  }

  /** What the invariant says about thread `t`. */
  lemma FactsOf(s: State, t: Tid)
    requires Inv(s) && t in s.threads
    ensures LocalOk(Decode(s.word), t, s.threads[t])
    ensures IsHolder(s.threads[t]) <==> Owner(s.word) == t
    ensures s.threads[t].RegisterCas? ==> !IsUnrecoverable(s.word)
  {
  }
}
