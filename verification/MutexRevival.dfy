/**
 Runs from a word whose owner died, in which the mutex is given up while a thread is in the registration
 loop (src/thread-win32.c:349-368, 484-506). For any two threads they lead to a lost mutex that is taken
 again. If the thread that takes it has the id 1, or if enough waiters had left without being taken off
 the count, a second thread then holds the mutex as well. Together with `MutexDirty` this gives the exact
 conditions.
 */
module MutexRevival {
  import opened LockWord
  import opened Referee
  import opened MutexProtocol
  import opened MutexSafety
  import opened MutexRuns
  import opened MutexRobust
  import opened MutexBound
  import opened MutexDirty

  /** Two actors, the threads that have joined as waiters and are about to swap, and idle ones. */
  ghost predicate Scene(s: State, f: Fields, a: Tid, pa: Pc, x: Tid, px: Pc, joined: set<Tid>) {
    && Decode(s.word) == f && s.server.queue == []
    && a != x && a in s.threads && x in s.threads && s.threads[a] == pa && s.threads[x] == px
    && !pa.Asleep? && !px.Asleep?
    && a !in joined && x !in joined && joined <= s.threads.Keys
    && (forall t :: t in joined ==> s.threads[t].LockCas? && Owner(s.threads[t].seen) == 0)
    && (forall t :: t in s.threads && t != a && t != x && t !in joined ==> s.threads[t].Idle?)
  }

  lemma Swap(s: State, f: Fields, a: Tid, pa: Pc, x: Tid, px: Pc, joined: set<Tid>)
    requires Scene(s, f, a, pa, x, px, joined)
    ensures Scene(s, f, x, px, a, pa, joined)
  {
  }

  lemma Moved(s: State, f: Fields, a: Tid, pa: Pc, x: Tid, px: Pc, joined: set<Tid>, w: Word, pa': Pc, l: Lock)
    requires Scene(s, f, a, pa, x, px, joined) && l.queue == [] && !pa'.Asleep?
    ensures Scene(State(w, s.threads[a := pa'], l), Decode(w), a, pa', x, px, joined)
  {
  }

  /** The labels of one thread: a call and `n` further steps. */
  function Acts(t: Tid, call: Call, n: nat): seq<Label> {
    if n == 0 then [Run(t, call)] else Acts(t, call, n - 1) + [Run(t, Continue)]
  }

  lemma ExecActs(s: State, t: Tid, call: Call, n: nat)
    ensures n == 0 ==> Exec(s, Acts(t, call, n)) == Apply(s, Run(t, call))
    ensures n > 0 ==> Exec(s, Acts(t, call, n)) == Apply(Exec(s, Acts(t, call, n - 1)), Run(t, Continue))
  {
    if n == 0 {
      ExecSnoc(s, [], Run(t, call));
      assert [] + [Run(t, call)] == [Run(t, call)];
    } else {
      ExecSnoc(s, Acts(t, call, n - 1), Run(t, Continue));
    }
  }

  lemma SameFieldsSameWord(v: Word, w: Word)
    requires Decode(v) == Decode(w)
    ensures v == w
  {
    PackDecode(v);
    PackDecode(w);
  }

  /** Trylock takes a free mutex in need of recovery, at its second swap. */
  lemma Seizes(s: State, f: Fields, a: Tid, pa: Pc, x: Tid, px: Pc, joined: set<Tid>)
    requires Scene(s, f, a, pa, x, px, joined) && pa.Idle? && f.owner == 0 && f.recover == 1
    ensures Scene(Exec(s, Acts(a, DoTryLock, 2)), f.(owner := a), a, Holding(OwnerDead), x, px, joined)
  {
    hide Scene, Owner, Count, NeedRecover, Registering, Wrap, ClearOwner, ClearRegistering, MtxLockval;
    SceneWord(s, f, a, pa, x, px, joined);
    var w := s.word;
    ExecActs(s, a, DoTryLock, 0);
    ExecActs(s, a, DoTryLock, 1);
    ExecActs(s, a, DoTryLock, 2);
    DecodePack(Fields(0, 0, 0, 0));
    MasksIsolateFields(w);
    SameFieldsSameWord(w, ClearOwner(w));
    PlainAcquireFields(w, a);
    var s1 := Goto(s, a, TryCas(false, 0, PlainInc(a)));
    var s2 := Goto(s, a, TryCas(true, w, Wrap(PlainInc(a) + w)));
    assert Apply(s1, Run(a, Continue)) == s2;
    assert Apply(s2, Run(a, Continue)) == State(Wrap(w + PlainInc(a)), s.threads[a := Holding(OwnerDead)], s.server);
    Moved(s, f, a, pa, x, px, joined, Wrap(w + PlainInc(a)), Holding(OwnerDead), s.server);
  }

  /** Lock finds the mutex held and enters the registration loop. */
  lemma Looks(s: State, f: Fields, x: Tid, px: Pc, a: Tid, pa: Pc, joined: set<Tid>)
    requires Scene(s, f, x, px, a, pa, joined) && px.Idle? && f.owner != 0 && !Gone(f)
    ensures Scene(Exec(s, Acts(x, DoLock, 1)), f, x, RegisterCas(s.word, PlainInc(x)), a, pa, joined)
    ensures Exec(s, Acts(x, DoLock, 1)).word == s.word
  {
    hide Scene, Owner, Count, NeedRecover, Registering, Wrap, ClearOwner, ClearRegistering, MtxLockval;
    SceneWord(s, f, x, px, a, pa, joined);
    ExecActs(s, x, DoLock, 0);
    ExecActs(s, x, DoLock, 1);
    DecodePack(Fields(0, 0, 0, 0));
    var s1 := Goto(s, x, LockCas(0, PlainInc(x), false));
    assert Apply(s1, Run(x, Continue)) == Goto(s, x, RegisterCas(s.word, PlainInc(x)));
    Moved(s, f, x, px, a, pa, joined, s.word, RegisterCas(s.word, PlainInc(x)), s.server);
  }

  /** Where unlock leaves its thread. */
  function AfterUnlock(count: int): Pc
    requires count >= 0
  {
    if count == 0 then Idle(Success) else UnlockWake(count)
  }

  /** The owner unlocks without having recovered the state. */
  lemma GivesUp(s: State, f: Fields, a: Tid, x: Tid, px: Pc, joined: set<Tid>)
    requires Scene(s, f, a, Holding(OwnerDead), x, px, joined) && f.owner == a && f.recover == 1
    ensures f.count >= 0
    ensures Scene(Exec(s, Acts(a, DoUnlock, 2)), f.(owner := OWNER_MASK), a, AfterUnlock(f.count), x, px, joined)
  {
    hide Scene, Owner, Count, NeedRecover, Registering, Wrap, UnlockVal;
    SceneWord(s, f, a, Holding(OwnerDead), x, px, joined);
    var w := s.word;
    ExecActs(s, a, DoUnlock, 0);
    ExecActs(s, a, DoUnlock, 1);
    ExecActs(s, a, DoUnlock, 2);
    UnlockFields(w, a, true);
    var s2 := Goto(s, a, UnlockSub(OwnerDead, true));
    assert Apply(Goto(s, a, UnlockLoad(OwnerDead)), Run(a, Continue)) == s2;
    assert Apply(s2, Run(a, Continue))
        == State(Wrap(w - UnlockVal(a, true)), s.threads[a := AfterUnlock(f.count)], s.server);
    Moved(s, f, a, Holding(OwnerDead), x, px, joined, Wrap(w - UnlockVal(a, true)), AfterUnlock(f.count), s.server);
  }

  /** The late thread reads the lost word, leaves the loop and swaps on that word. */
  lemma Retakes(s: State, f: Fields, x: Tid, seen: Word, a: Tid, pa: Pc, joined: set<Tid>)
    requires Scene(s, f, x, RegisterCas(seen, PlainInc(x)), a, pa, joined)
    requires Gone(f) && f.count < MAX_COUNT && !IsWaiterListFull(seen) && seen != s.word
    ensures Scene(Exec(s, Acts(x, Continue, 1)), f.(owner := x - 1, count := f.count + 1),
                  x, Holding(OwnerDead), a, pa, joined)
  {
    hide Scene, Owner, Count, NeedRecover, Registering, Wrap, ClearOwner, ClearRegistering, MtxLockval;
    SceneWord(s, f, x, RegisterCas(seen, PlainInc(x)), a, pa, joined);
    var w := s.word;
    ExecActs(s, x, Continue, 0);
    ExecActs(s, x, Continue, 1);
    CarryFields(w, x);
    var s1 := Goto(s, x, LockCas(w, PlainInc(x), false));
    assert Apply(s, Run(x, Continue)) == s1;
    assert Apply(s1, Run(x, Continue)) == State(Wrap(w + PlainInc(x)), s.threads[x := Holding(OwnerDead)], s.server);
    Moved(s, f, x, RegisterCas(seen, PlainInc(x)), a, pa, joined, Wrap(w + PlainInc(x)), Holding(OwnerDead), s.server);
  }

  /** A wake request that finds nobody asleep is banked. */
  lemma WakesNobody(s: State, f: Fields, a: Tid, num: nat, x: Tid, px: Pc, joined: set<Tid>)
    requires Scene(s, f, a, UnlockWake(num), x, px, joined)
    ensures Scene(Exec(s, Acts(a, Continue, 0)), f, a, Idle(Success), x, px, joined)
  {
    hide Owner, Count, NeedRecover, Registering;
    ExecActs(s, a, Continue, 0);
    assert Released(s.threads, []) == s.threads by {
      assert Released(s.threads, []).Keys == s.threads.Keys;
    }
    Moved(s, f, a, UnlockWake(num), x, px, joined, s.word, Idle(Success), WakeWaiters(s.server, num, 1));
  }

  /** A newcomer that finds the list full swaps on top of whoever holds the mutex. */
  lemma SwapsOnFull(s: State, f: Fields, a: Tid, pa: Pc, x: Tid, px: Pc, joined: set<Tid>)
    requires Scene(s, f, a, pa, x, px, joined) && pa.Idle? && f.owner != 0 && !Gone(f) && f.count == MAX_COUNT
    ensures var s' := Exec(s, Acts(a, DoLock, 4));
            && a in s'.threads && IsHolder(s'.threads[a]) && x in s'.threads && s'.threads[x] == px
  {
    hide Owner, Count, NeedRecover, Registering, Wrap, ClearOwner, ClearRegistering, MtxLockval;
    Looks(s, f, a, pa, x, px, joined);
    var s1 := Exec(s, Acts(a, DoLock, 1));
    ExecActs(s, a, DoLock, 2);
    ExecActs(s, a, DoLock, 3);
    ExecActs(s, a, DoLock, 4);
    assert Apply(s1, Run(a, Continue)) == Goto(s1, a, RegisterReload(PlainInc(a)));
    var s3 := Exec(s, Acts(a, DoLock, 3));
    assert s3 == Goto(Goto(s1, a, RegisterReload(PlainInc(a))), a, LockCas(s1.word, PlainInc(a), false));
  }

  // ---------------------------------------------------------------- crowds

  lemma OneJoins(s: State, f: Fields, a: Tid, pa: Pc, x: Tid, px: Pc, joined: set<Tid>, t: Tid)
    requires Scene(s, f, a, pa, x, px, joined) && t in s.threads && t != a && t != x && t !in joined
    requires f.owner != 0 && !Gone(f) && f.registering == 0 && f.count < MAX_COUNT
    ensures Scene(Exec(s, Joining(t)), f.(count := f.count + 1), a, pa, x, px, joined + {t})
  {
    var w, seen := Joins(s, f, t);
  }

  lemma {:induction false} AllJoin(s: State, f: Fields, a: Tid, pa: Pc, x: Tid, px: Pc, crowd: set<Tid>)
      returns (run: seq<Label>)
    requires Scene(s, f, a, pa, x, px, {}) && crowd <= s.threads.Keys && a !in crowd && x !in crowd
    requires f.owner != 0 && !Gone(f) && f.registering == 0 && f.count + |crowd| <= MAX_COUNT
    ensures Scene(Exec(s, run), f.(count := f.count + |crowd|), a, pa, x, px, crowd)
    decreases |crowd|
  {
    hide Scene, Apply, Owner, Count, NeedRecover, Registering;
    run := [];
    if crowd != {} {
      var t :| t in crowd;
      var front := AllJoin(s, f, a, pa, x, px, crowd - {t});
      RunKeys(s, front);
      OneJoins(Exec(s, front), f.(count := f.count + |crowd - {t}|), a, pa, x, px, crowd - {t}, t);
      ExecConcat(s, front, Joining(t));
      run := front + Joining(t);
      assert crowd - {t} + {t} == crowd;
    }
  }

  lemma OneQuits(s: State, f: Fields, a: Tid, pa: Pc, x: Tid, px: Pc, joined: set<Tid>, t: Tid)
    requires Scene(s, f, a, pa, x, px, joined) && t in joined && Gone(f)
    ensures Scene(Apply(s, Run(t, Continue)), f, a, pa, x, px, joined - {t})
  {
    hide Count, Registering, Wrap;
  }

  /** Waiters of a lost mutex leave without being taken off the count. */
  lemma {:induction false} AllQuit(s: State, f: Fields, a: Tid, pa: Pc, x: Tid, px: Pc, joined: set<Tid>)
      returns (run: seq<Label>)
    requires Scene(s, f, a, pa, x, px, joined) && Gone(f)
    ensures Scene(Exec(s, run), f, a, pa, x, px, {})
    decreases |joined|
  {
    hide Scene;
    run := [];
    if joined != {} {
      var t :| t in joined;
      OneQuits(s, f, a, pa, x, px, joined, t);
      var more := AllQuit(Apply(s, Run(t, Continue)), f, a, pa, x, px, joined - {t});
      ExecSnoc(s, [], Run(t, Continue));
      ExecConcat(s, [Run(t, Continue)], more);
      run := [Run(t, Continue)] + more;
    }
  }

  // ---------------------------------------------------------------- from the word whose owner died

  lemma Opening(ids: set<Tid>, a: Tid, x: Tid)
    requires a in ids && x in ids && a != x
    ensures Scene(Initial(ids, true), Fields(0, 0, 1, 0), a, Idle(Success), x, Idle(Success), {})
  {
    DecodePack(Fields(0, 0, 1, 0));
  }

  /** `a` takes the mutex, the crowd registers, `x` enters the loop, and `a` gives the mutex up. */
  lemma ReachesLost(ids: set<Tid>, a: Tid, x: Tid, crowd: set<Tid>) returns (run: seq<Label>, seen: Word)
    requires a in ids && x in ids && a != x && crowd <= ids - {a, x} && |crowd| < MAX_COUNT
    ensures Scene(Exec(Initial(ids, true), run), Fields(OWNER_MASK, |crowd|, 1, 0), a, AfterUnlock(|crowd|),
                  x, RegisterCas(seen, PlainInc(x)), crowd)
    ensures !IsWaiterListFull(seen) && !IsUnrecoverable(seen)
  {
    hide Scene;
    var s0 := Initial(ids, true);
    Opening(ids, a, x);
    var r1 := Acts(a, DoTryLock, 2);
    Seizes(s0, Fields(0, 0, 1, 0), a, Idle(Success), x, Idle(Success), {});
    var s1 := Exec(s0, r1);
    RunKeys(s0, r1);
    assert s1.threads.Keys == ids;
    var r2 := AllJoin(s1, Fields(a, 0, 1, 0), a, Holding(OwnerDead), x, Idle(Success), crowd);
    ExecConcat(s0, r1, r2);
    var s2 := Exec(s0, r1 + r2);
    var f := Fields(a, |crowd|, 1, 0);
    Swap(s2, f, a, Holding(OwnerDead), x, Idle(Success), crowd);
    var r3 := Acts(x, DoLock, 1);
    Looks(s2, f, x, Idle(Success), a, Holding(OwnerDead), crowd);
    ExecConcat(s0, r1 + r2, r3);
    seen := s2.word;
    assert Decode(seen) == f by { SceneWord(s2, f, a, Holding(OwnerDead), x, Idle(Success), crowd); }
    var s3 := Exec(s0, r1 + r2 + r3);
    Swap(s3, f, x, RegisterCas(seen, PlainInc(x)), a, Holding(OwnerDead), crowd);
    var r4 := Acts(a, DoUnlock, 2);
    GivesUp(s3, f, a, x, RegisterCas(seen, PlainInc(x)), crowd);
    ExecConcat(s0, r1 + r2 + r3, r4);
    run := r1 + r2 + r3 + r4;
  }

  lemma SceneWord(s: State, f: Fields, a: Tid, pa: Pc, x: Tid, px: Pc, joined: set<Tid>)
    requires Scene(s, f, a, pa, x, px, joined)
    ensures Decode(s.word) == f && s.server.queue == []
    ensures a in s.threads && s.threads[a] == pa && x in s.threads && s.threads[x] == px && a != x
  {
  }

  /** With the crowd gone, `x` takes the lost mutex again. */
  lemma ReachesUsurped(ids: set<Tid>, a: Tid, x: Tid, crowd: set<Tid>) returns (lost: seq<Label>, more: seq<Label>)
    requires a in ids && x in ids && a != x && crowd <= ids - {a, x} && |crowd| < MAX_COUNT
    ensures IsUnrecoverable(Exec(Initial(ids, true), lost).word)
    ensures Scene(Exec(Initial(ids, true), lost + more), Fields(x - 1, |crowd| + 1, 1, 0), x, Holding(OwnerDead),
                  a, AfterUnlock(|crowd|), {})
  {
    hide Scene;
    var s0 := Initial(ids, true);
    var seen;
    lost, seen := ReachesLost(ids, a, x, crowd);
    var s1 := Exec(s0, lost);
    var f, px := Fields(OWNER_MASK, |crowd|, 1, 0), RegisterCas(seen, PlainInc(x));
    SceneWord(s1, f, a, AfterUnlock(|crowd|), x, px, crowd);
    var r1 := AllQuit(s1, f, a, AfterUnlock(|crowd|), x, px, crowd);
    ExecConcat(s0, lost, r1);
    var s2 := Exec(s1, r1);
    Swap(s2, f, a, AfterUnlock(|crowd|), x, px, {});
    SceneWord(s2, f, a, AfterUnlock(|crowd|), x, px, {});
    var r2 := Acts(x, Continue, 1);
    Retakes(s2, f, x, seen, a, AfterUnlock(|crowd|), {});
    more := r1 + r2;
    ExecConcat(s1, r1, r2);
    ExecConcat(s0, lost, more);
  }

  /** In the run `lost` the mutex is lost, and after `more` the thread `t` holds it. */
  ghost predicate TakenAgain(ids: set<Tid>, lost: seq<Label>, more: seq<Label>, t: Tid) {
    && IsUnrecoverable(Exec(Initial(ids, true), lost).word)
    && t in Exec(Initial(ids, true), lost + more).threads
    && Exec(Initial(ids, true), lost + more).threads[t] == Holding(OwnerDead)
  }

  /** A single thread cannot be in the registration loop of the mutex that it gives up. */
  lemma {:induction false} LoneInv(ids: set<Tid>, run: seq<Label>)
    requires |ids| <= 1
    ensures Inv(Exec(Initial(ids, true), run))
  {
    hide InvOn;
    var s0 := Initial(ids, true);
    if run == [] {
      InitialInv(ids, true);
    } else {
      var front, l := run[..|run| - 1], run[|run| - 1];
      LoneInv(ids, front);
      var s := Exec(s0, front);
      StepKeepsInv(s, l);
      RunKeys(s0, front);
      assert s0.threads.Keys == ids;
      LoneOnTime(s, l);
    }
  }

  lemma LoneOnTime(s: State, l: Label)
    requires Inv(s) && |s.threads.Keys| <= 1
    ensures OnTime(Apply(s, l))
  {
    hide InvOn;
    if IsUnrecoverable(s.word) {
      StaysOnTime(s, l);
    } else if IsUnrecoverable(Apply(s, l).word) {
      GivingUp(s, l);
      StepKeys(s, l);
      forall t | t in s.threads ensures t == l.tid {
        OnlyOne(s.threads.Keys, t, l.tid);
      }
    }
  }

  lemma OnlyOne(ids: set<Tid>, t: Tid, u: Tid)
    requires |ids| <= 1 && t in ids && u in ids
    ensures t == u
  {
    assert |ids - {t}| == |ids| - 1;
    assert u in ids - {t} ==> |ids - {t}| > 0;
  }

  lemma TwoOf(ids: set<Tid>) returns (a: Tid, x: Tid)
    requires |ids| >= 2
    ensures a in ids && x in ids && a != x
  {
    a :| a in ids;
    assert |ids - {a}| == |ids| - 1;
    x :| x in ids - {a};
  }

  /** Starting from a word whose owner died, some run takes a lost mutex again exactly if two threads use it. */
  lemma TakenAgainExactly(ids: set<Tid>)
    ensures (exists lost, more, t :: TakenAgain(ids, lost, more, t)) <==> |ids| >= 2
  {
    var s0 := Initial(ids, true);
    if |ids| >= 2 {
      var a, x := TwoOf(ids);
      var lost, more := ReachesUsurped(ids, a, x, {});
      assert TakenAgain(ids, lost, more, x);
    } else {
      forall lost, more, t ensures !TakenAgain(ids, lost, more, t) {
        if IsUnrecoverable(Exec(s0, lost).word) {
          LoneInv(ids, lost);
          LostForGood(Exec(s0, lost), more);
          ExecConcat(s0, lost, more);
        }
      }
    }
  }

  // ---------------------------------------------------------------- two holders

  /** The usurper of id 1 leaves the owner field at 0, so the next trylock succeeds. */
  lemma FirstIdShares(ids: set<Tid>, a: Tid) returns (run: seq<Label>)
    requires 1 in ids && a in ids && a != 1
    ensures !Exclusive(Exec(Initial(ids, true), run))
  {
    hide Scene;
    var s0 := Initial(ids, true);
    var lost, more := ReachesUsurped(ids, a, 1, {});
    var f := Fields(0, 1, 1, 0);
    var s := Exec(s0, lost + more);
    Swap(s, f, 1, Holding(OwnerDead), a, Idle(Success), {});
    Seizes(s, f, a, Idle(Success), 1, Holding(OwnerDead), {});
    run := lost + more + Acts(a, DoTryLock, 2);
    ExecConcat(s0, lost + more, Acts(a, DoTryLock, 2));
    SceneWord(Exec(s0, run), f.(owner := a), a, Holding(OwnerDead), 1, Holding(OwnerDead), {});
  }

  /** The crowd comes back, and `a` finds the list full under the usurper `x`. */
  lemma FillsUp(s: State, a: Tid, x: Tid, crowd: set<Tid>) returns (run: seq<Label>)
    requires x > 1 && crowd <= s.threads.Keys - {a, x} && |crowd| == MAX_DIRTY - 1
    requires Scene(s, Fields(x - 1, MAX_DIRTY, 1, 0), x, Holding(OwnerDead), a, UnlockWake(|crowd|), {})
    ensures !Exclusive(Exec(s, run))
  {
    hide Scene, Exec, Apply;
    var f, px := Fields(x - 1, MAX_DIRTY, 1, 0), Holding(OwnerDead);
    Swap(s, f, x, px, a, UnlockWake(|crowd|), {});
    var r1 := Acts(a, Continue, 0);
    WakesNobody(s, f, a, |crowd|, x, px, {});
    var s1 := Exec(s, r1);
    RunKeys(s, r1);
    var r2 := AllJoin(s1, f, a, Idle(Success), x, px, crowd);
    ExecConcat(s, r1, r2);
    var s2 := Exec(s, r1 + r2);
    SwapsOnFull(s2, f.(count := MAX_COUNT), a, Idle(Success), x, px, crowd);
    SceneWord(s2, f.(count := MAX_COUNT), a, Idle(Success), x, px, crowd);
    run := r1 + r2 + Acts(a, DoLock, 4);
    ExecConcat(s, r1 + r2, Acts(a, DoLock, 4));
  }

  /** The waiters that left are still counted; when they come back the list is full too early. */
  lemma LeftoversFill(ids: set<Tid>) returns (run: seq<Label>)
    requires |ids| > MAX_DIRTY
    ensures !Exclusive(Exec(Initial(ids, true), run))
  {
    hide Scene, Exec, Apply;
    var s0 := Initial(ids, true);
    assert |ids - {1}| >= |ids| - 1;
    var a, x := TwoOf(ids - {1});
    assert |ids - {a, x}| == |ids| - 2 by {
      assert ids - {a, x} == ids - {a} - {x};
    }
    var crowd := SubsetOfSize(ids - {a, x}, MAX_DIRTY - 1);
    var lost, more := ReachesUsurped(ids, a, x, crowd);
    RunKeys(s0, lost + more);
    assert s0.threads.Keys == ids;
    var rest := FillsUp(Exec(s0, lost + more), a, x, crowd);
    run := lost + more + rest;
    ExecConcat(s0, lost + more, rest);
  }

  lemma LoneExclusive(ids: set<Tid>, run: seq<Label>)
    requires |ids| <= 1
    ensures Exclusive(Exec(Initial(ids, true), run))
  {
    var s0 := Initial(ids, true);
    RunKeys(s0, run);
    assert s0.threads.Keys == ids;
    forall t, u | t in ids && u in ids ensures t == u {
      OnlyOne(ids, t, u);
    }
  }

  /**
   From a word whose owner died, mutual exclusion holds in every run exactly if a single thread uses the
   mutex, or at most 128 threads do and none of them has the id 1.
   */
  lemma DirtyExclusionExactly(ids: set<Tid>)
    ensures (forall run :: Exclusive(Exec(Initial(ids, true), run)))
       <==> |ids| <= 1 || (|ids| <= MAX_DIRTY && 1 !in ids)
  {
    if |ids| <= 1 {
      forall run ensures Exclusive(Exec(Initial(ids, true), run)) {
        LoneExclusive(ids, run);
      }
    } else if |ids| > MAX_DIRTY {
      var run := LeftoversFill(ids);
    } else if 1 in ids {
      assert |ids - {1}| == |ids| - 1;
      var a :| a in ids - {1};
      var run := FirstIdShares(ids, a);
    } else {
      forall run ensures Exclusive(Exec(Initial(ids, true), run)) {
        RunTracked(ids, run);
        TrackedIsExclusive(Exec(Initial(ids, true), run));
      }
    }
  }
}
