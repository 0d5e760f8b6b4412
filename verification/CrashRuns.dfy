/**
 The death of threads and its cleanup as one event (src/pshared-lock.c, src/lock-referee-server.c). The server
 here is the intended one, which takes a dead client out of its queue; the code never does, and what that means is
 the subject of `CrashSteps`. Whatever the dead threads were about to do, the
 one wake-up of the cleanup's reply makes up for it.
 */
module CrashRuns {
  import opened LockWord
  import opened Referee
  import opened MutexProtocol
  import opened MutexSafety
  import opened MutexRuns
  import opened MutexWakeups
  import opened CrashUndo
  import opened CrashRecovery

  // ---------------------------------------------------------------- the server forgets the dead

  /** Where the client stands in the queue; its length if it does not. */
  function Place(q: seq<Waiter>, t: int): (i: nat)
    ensures i <= |q| && (i < |q| ==> q[i].id == t) && forall j :: 0 <= j < i ==> q[j].id != t
  {
    if q == [] || q[0].id == t then 0 else 1 + Place(q[1..], t)
  }

  function DropClient(l: Lock, t: int): Lock {
    if Place(l.queue, t) < |l.queue| then DropWaiter(l, Place(l.queue, t)) else l
  }

  ghost function DropClients(l: Lock, dead: seq<Dead>): Lock {
    if dead == [] then l else DropClient(DropClients(l, dead[..|dead| - 1]), dead[|dead| - 1].tid)
  }

  /** One occurrence taken out of a queue of distinct waiters takes that waiter out. */
  lemma OneTakenOut(q: seq<Waiter>, i: nat)
    requires i < |q| && forall j, k :: 0 <= j < k < |q| ==> q[j] != q[k]
    ensures var q' := q[..i] + q[i + 1..];
            && (forall w :: w in q' <==> w in q && w != q[i])
            && (forall j, k :: 0 <= j < k < |q'| ==> q'[j] != q'[k])
  {
    var q' := q[..i] + q[i + 1..];
    forall w | w in q && w != q[i] ensures w in q' {
      var j :| 0 <= j < |q| && q[j] == w;
      assert w == q'[if j < i then j else j - 1];
    }
    forall w | w in q' ensures w in q && w != q[i] {
      var j :| 0 <= j < |q'| && q'[j] == w;
      assert w == q[if j < i then j else j + 1];
    }
  }

  lemma DropOneQueue(m: Threads, q: seq<Waiter>, t: Tid)
    requires QueueOk(m, q) && t in m
    ensures var i := Place(q, t);
            QueueOk(m - {t}, if i < |q| then q[..i] + q[i + 1..] else q)
  {
    hide Place;
    var i := Place(q, t);
    if i < |q| {
      OneTakenOut(q, i);
      QueueWithout(m, q, q[..i] + q[i + 1..], t);
    } else {
      assert Waiter(t, 1) !in q;
      QueueWithout(m, q, q, t);
    }
  }

  lemma QueueWithout(m: Threads, q: seq<Waiter>, q': seq<Waiter>, t: Tid)
    requires QueueOk(m, q) && t in m && (forall w :: w in q' <==> w in q && w != Waiter(t, 1))
    requires forall j, k :: 0 <= j < k < |q'| ==> q'[j] != q'[k]
    ensures QueueOk(m - {t}, q')
  {
    forall j | 0 <= j < |q'| ensures q'[j].val == 1 && q'[j].id in m - {t} && (m - {t})[q'[j].id].Asleep? {
      var w := q'[j];
      assert w in q' && w in q;
      assert w == Waiter(w.id, 1);
    }
  }

  lemma DropOneKeeps(m: Threads, l: Lock, t: Tid)
    requires ServerOk(m, l) && t in m
    ensures ServerOk(m - {t}, DropClient(l, t))
  {
    hide QueueOk;
    DropOneQueue(m, l.queue, t);
  }

  lemma {:induction false} DropAllKeep(m: Threads, l: Lock, dead: seq<Dead>)
    requires ServerOk(m, l) && Distinct(dead) && forall i :: 0 <= i < |dead| ==> dead[i].tid in m
    ensures ServerOk(Survivors(m, dead), DropClients(l, dead))
    decreases |dead|
  {
    hide ServerOk, DropClient;
    if dead == [] {
      assert Survivors(m, dead) == m;
    } else {
      var n := |dead| - 1;
      DropAllKeep(m, l, dead[..n]);
      OneDeadMore(m, dead);
      DropOneKeeps(Survivors(m, dead[..n]), DropClients(l, dead[..n]), dead[n].tid);
    }
  }

  /** If none of the dead was asleep, the server's lock is the same. */
  lemma {:induction false} NothingToDrop(m: Threads, l: Lock, dead: seq<Dead>)
    requires ServerOk(m, l) && forall i :: 0 <= i < |dead| ==> dead[i].tid in m && !m[dead[i].tid].Asleep?
    ensures DropClients(l, dead) == l
    decreases |dead|
  {
    if dead != [] {
      NothingToDrop(m, l, dead[..|dead| - 1]);
      assert !m[dead[|dead| - 1].tid].Asleep?;
    }
  }

  // ---------------------------------------------------------------- the death of threads, as one event

  /** The word is cleaned and the dead are gone, but the reply has not reached the server. */
  ghost function Cleaned(s: State, dead: seq<Dead>): State {
    State(Wrap(s.word + TotalChange(s.word, dead)), Survivors(s.threads, dead), DropClients(s.server, dead))
  }

  /** The wake-ups of the reply. */
  function Woken(s: State, num: nat): State {
    State(s.word, Released(s.threads, Chosen(s.server.queue, num, 1)), WakeWaiters(s.server, num, 1))
  }

  function NumWakeup(w: Word): nat {
    if IsWaited(w) && !IsLocked(w) then 1 else 0
  }

  ghost function IntendedCrash(s: State, dead: seq<Dead>): State {
    Woken(Cleaned(s, dead), NumWakeup(Cleaned(s, dead).word))
  }

  /** Each dead thread is reported once; no owner dies on a mutex that already waits for recovery. */
  ghost predicate MayDie(s: State, dead: seq<Dead>) {
    && Report(s.threads, dead) && !IsUnrecoverable(s.word)
    && !(Mentions(dead, Owner(s.word)) && NeedRecover(s.word) == 1)
  }

  lemma SurvivorLocals(f: Fields, f': Fields, m: Threads, dead: seq<Dead>)
    requires LocalsOk(f, m) && OwnerOk(f, m)
    requires f'.recover == if Mentions(dead, f.owner) then 1 else f.recover
    ensures LocalsOk(f', Survivors(m, dead))
  {
    var left := Survivors(m, dead);
    forall t | t in left ensures LocalOk(f', t, left[t]) {
      assert LocalOk(f, t, m[t]);
      assert IsHolder(m[t]) ==> f'.recover == f.recover;
    }
  }

  lemma SurvivorCount(m: Threads, dead: seq<Dead>)
    ensures |Survivors(m, dead)| <= |m|
  {
    var left := Survivors(m, dead);
    SubsetSize(left.Keys, m.Keys);
    assert |left.Keys| == |left| && |m.Keys| == |m|;
  }

  /** The survivors satisfy the invariant of the mutex on the cleaned word. */
  lemma CleanedInv(s: State, dead: seq<Dead>)
    requires Inv(s) && RegisteringOk(Decode(s.word), s.threads) && MayDie(s, dead)
    ensures Inv(Cleaned(s, dead)) && RegisteringOk(Decode(Cleaned(s, dead).word), Cleaned(s, dead).threads)
    ensures !IsUnrecoverable(Cleaned(s, dead).word)
  {
    hide Owner, Count, NeedRecover, Registering, Wrap, LocalsOk, ServerOk;
    var s' := Cleaned(s, dead);
    SurvivorsConserved(s, dead);
    SurvivorLocals(Decode(s.word), Decode(s'.word), s.threads, dead);
    SurvivorCount(s.threads, dead);
    DropAllKeep(s.threads, s.server, dead);
  }

  lemma WokenServer(m: Threads, l: Lock, num: nat)
    requires ServerOk(m, l)
    ensures ServerOk(Released(m, Chosen(l.queue, num, 1)), WakeWaiters(l, num, 1))
    ensures l.queue != [] && num > 0 ==>
              l.queue[0].id in m && Released(m, Chosen(l.queue, num, 1))[l.queue[0].id].Reload?
    ensures l.queue == [] && num > 0 ==> WakeWaiters(l, num, 1).nwaiter < 0
  {
    hide Chosen, Left;
    var q, k := l.queue, if num < |l.queue| then num else |l.queue|;
    UniformSelection(q, num, 1);
    QueueRelease(m, q, k);
    if q != [] && num > 0 {
      assert q[0] == Waiter(q[0].id, 1) && q[0] in q[..k];
    }
  }

  /** Delivering wake-ups keeps the invariant; one at least leaves a banked wake-up or a thread on its way. */
  lemma WokenInv(s: State, num: nat)
    requires Inv(s) && RegisteringOk(Decode(s.word), s.threads)
    ensures Inv(Woken(s, num)) && RegisteringOk(Decode(s.word), Woken(s, num).threads)
    ensures num > 0 ==> Woken(s, num).server.nwaiter < 0 || exists t :: Promises(s.word, Woken(s, num).threads, t)
  {
    hide Owner, Count, NeedRecover, Registering, LocalsOk, OwnerOk, CountOk, ServerOk, Chosen, Left, Released;
    var woken := Chosen(s.server.queue, num, 1);
    var m := Released(s.threads, woken);
    ReleasedIsSome(s.threads, woken);
    ReleasedKeeps(Decode(s.word), s.threads, m);
    WokenServer(s.threads, s.server, num);
    if s.server.queue != [] && num > 0 {
      assert Promises(s.word, m, s.server.queue[0].id);
    }
  }

  /** Without a wake-up nobody moves, and nothing is banked. */
  lemma WokenByNone(s: State)
    ensures Woken(s, 0).threads == s.threads && Woken(s, 0).server.nwaiter == s.server.nwaiter
    ensures Woken(s, 0).server.queue == s.server.queue && Woken(s, 0).word == s.word
  {
    assert Released(s.threads, []).Keys == s.threads.Keys;
  }

  /** After the event a free mutex with waiters has a banked wake-up or a thread on its way again. */
  lemma IntendedCrashKeepsAlert(s: State, dead: seq<Dead>)
    requires Inv(s) && RegisteringOk(Decode(s.word), s.threads) && MayDie(s, dead)
    ensures Inv(IntendedCrash(s, dead)) && Alert(IntendedCrash(s, dead))
  {
    hide InvOn, RegisteringOk, Owner, Count, NeedRecover, Registering, Cleaned, MayDie;
    var s' := Cleaned(s, dead);
    CleanedInv(s, dead);
    WokenInv(s', NumWakeup(s'.word));
  }

  // ---------------------------------------------------------------- runs with deaths, for the intended server

  datatype Happening = Takes(l: Label) | Dies(dead: seq<Dead>)

  ghost function Then(s: State, e: Happening): State {
    match e
    case Takes(l) => Apply(s, l)
    case Dies(dead) => IntendedCrash(s, dead)
  }

  ghost function Course(s: State, es: seq<Happening>): State {
    if es == [] then s else Then(Course(s, es[..|es| - 1]), es[|es| - 1])
  }

  /** After `k` happenings the state is orderly, and deaths that come next are ones that may be. */
  ghost predicate CourseFineAt(s: State, es: seq<Happening>, k: nat)
    requires k <= |es|
  {
    var g := Course(s, es[..k]);
    OnTime(g) && OneRegistering(g.threads) && (k < |es| && es[k].Dies? ==> MayDie(g, es[k].dead))
  }

  ghost predicate OrderlyCourse(s: State, es: seq<Happening>) {
    forall k :: 0 <= k <= |es| ==> CourseFineAt(s, es, k)
  }

  lemma HappeningKeepsAlert(s: State, e: Happening)
    requires Inv(s) && Alert(s) && OneRegistering(s.threads) && OneRegistering(Then(s, e).threads)
    requires OnTime(Then(s, e)) && (e.Dies? ==> MayDie(s, e.dead))
    ensures Inv(Then(s, e)) && Alert(Then(s, e))
  {
    hide InvOn, OneRegistering, MayDie;
    match e
    case Takes(l) =>
      StepKeepsInv(s, l);
      StepKeepsAlert(s, l);
    case Dies(dead) =>
      IntendedCrashKeepsAlert(s, dead);
  }

  lemma {:induction false} CourseKeepsAlert(s: State, es: seq<Happening>)
    requires Inv(s) && Alert(s) && OrderlyCourse(s, es)
    ensures Inv(Course(s, es)) && Alert(Course(s, es))
  {
    hide InvOn, Alert, OneRegistering, OnTime, MayDie, Then;
    if es != [] {
      var n := |es| - 1;
      var front := es[..n];
      forall k | 0 <= k <= n ensures CourseFineAt(s, front, k) {
        assert CourseFineAt(s, es, k) && front[..k] == es[..k];
      }
      CourseKeepsAlert(s, front);
      assert CourseFineAt(s, es, n) && CourseFineAt(s, es, n + 1) && es[..n + 1] == es;
      HappeningKeepsAlert(Course(s, front), es[n]);
    }
  }

  /** With the intended server no wake-up is lost, whoever dies and however often. */
  lemma IntendedServerLosesNone(ids: set<Tid>, dirty: bool, es: seq<Happening>)
    requires |ids| <= MAX_COUNT && OrderlyCourse(Initial(ids, dirty), es)
    ensures var s := Course(Initial(ids, dirty), es);
            && Attended(s) && !Stuck(s) && Exclusive(s)
            && (!IsUnrecoverable(s.word) ==> Count(s.word) == |RegisteredSet(s.threads)|)
  {
    hide InvOn;
    var s0 := Initial(ids, dirty);
    InitialInv(ids, dirty);
    DecodePack(Fields(0, 0, if dirty then 1 else 0, 0));
    CourseKeepsAlert(s0, es);
    var s := Course(s0, es);
    NotStuck(s);
    ExclusiveOf(s);
    SumIsCardinality(s.threads);
  }
}
