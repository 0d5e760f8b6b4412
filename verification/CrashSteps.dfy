/**
 Runs of the mutex in which threads die, step by step and with the server as it is (src/pshared-lock.c,
 src/lock-referee-server.c). A thread stops at any time and is reported later; a client at the head of the queue
 takes the job, loads the word, and adds the sum of the changes while the others go on; its reply wakes a
 waiter if the cleaned mutex is free and waited for. A dead client stays in the server's queue: the key that would
 have it dropped is only ever set to 0 (src/lock-referee-server.c:1091, 1246-1252).

 As long as nobody is cleaned away while still queued, no wake-up is lost. If that is not ruled out, the dead
 client swallows a wake-up later on, and a waiter is left asleep on a free mutex: this happens exactly if at
 least three threads use the mutex.
 */
module CrashSteps {
  import opened LockWord
  import opened Referee
  import opened MutexProtocol
  import opened MutexSafety
  import opened MutexRuns
  import opened MutexWakeups
  import opened CrashUndo
  import opened CrashRecovery
  import opened CrashRuns

  /** The cleanup job: none, the word loaded, or the sum added and the reply under way. */
  datatype Job = NoJob | Loaded(snapshot: Word) | Replied(num: nat)

  /** `s.threads` holds the stopped threads, too, until they are cleaned away. */
  datatype Life = Life(s: State, stopped: set<Tid>, reported: seq<Dead>, job: Job)

  datatype Event = Go(l: Label) | Stop(t: Tid) | Tell(d: Dead) | Load | Add | Reply

  function Born(ids: set<Tid>, dirty: bool): Life {
    Life(Initial(ids, dirty), {}, [], NoJob)
  }

  ghost function Tids(dead: seq<Dead>): set<Tid> {
    set i | 0 <= i < |dead| :: dead[i].tid
  }

  /** A stopped thread makes no step; a lock with a job is not swept. */
  ghost predicate MayGo(h: Life, l: Label) {
    if l.Run? then l.tid !in h.stopped else h.reported == [] && h.job.NoJob?
  }

  ghost predicate MayTell(h: Life, d: Dead) {
    && d.tid in h.s.threads && d.tid in h.stopped && !Mentions(h.reported, d.tid)
    && Reported(h.s.threads[d.tid], d.isWaiter) && h.job.NoJob?
  }

  /** A job is started when there is something to do and the head of the queue is there to do it. */
  ghost predicate MayLoad(h: Life) {
    && h.job.NoJob? && h.reported != [] && h.s.server.queue != []
    && h.s.server.queue[0].id in h.s.threads && h.s.server.queue[0].id !in h.stopped
  }

  /** The server's lock is left as it is. */
  ghost function AddNext(h: Life): Life
    requires h.job.Loaded?
  {
    var w := Wrap(h.s.word + TotalChange(h.job.snapshot, h.reported));
    Life(State(w, Survivors(h.s.threads, h.reported), h.s.server), h.stopped - Tids(h.reported), [],
         Replied(NumWakeup(w)))
  }

  ghost function After(h: Life, e: Event): Life {
    match e
    case Go(l) => if MayGo(h, l) then h.(s := Apply(h.s, l)) else h
    case Stop(t) => if t in h.s.threads then h.(stopped := h.stopped + {t}) else h
    case Tell(d) => if MayTell(h, d) then h.(reported := h.reported + [d]) else h
    case Load => if MayLoad(h) then h.(job := Loaded(h.s.word)) else h
    case Add => if h.job.Loaded? then AddNext(h) else h
    case Reply => if h.job.Replied? then h.(s := Woken(h.s, h.job.num), job := NoJob) else h
  }

  ghost function Live(h: Life, events: seq<Event>): Life {
    if events == [] then h else After(Live(h, events[..|events| - 1]), events[|events| - 1])
  }

  // ---------------------------------------------------------------- what every event keeps

  ghost predicate Waited(h: Life) {
    Attended(h.s) || (h.job.Replied? && h.job.num > 0)
  }

  ghost predicate LifeInv(h: Life) {
    && Inv(h.s) && RegisteringOk(Decode(h.s.word), h.s.threads)
    && h.stopped <= h.s.threads.Keys
    && Report(h.s.threads, h.reported) && Tids(h.reported) <= h.stopped
    && (h.job.Loaded? ==> SameDead(h.job.snapshot, h.s.word, h.reported))
    && Waited(h)
  }

  /** Registrations do not overlap, and none is too late. */
  ghost predicate Tidy(s: State) {
    OnTime(s) && OneRegistering(s.threads)
  }

  /** No owner dies on a mutex that already waits for recovery, and nobody is cleaned off a lost mutex. */
  ghost predicate MayAdd(h: Life) {
    !IsUnrecoverable(h.s.word) && !(Mentions(h.reported, Owner(h.s.word)) && NeedRecover(h.s.word) == 1)
  }

  /** None of those to be cleaned away is still in the server's queue. */
  ghost predicate Unqueued(h: Life) {
    forall i :: 0 <= i < |h.reported| ==> h.reported[i].tid in h.s.threads && !h.s.threads[h.reported[i].tid].Asleep?
  }

  /** A stopped thread keeps its place, except that a wake-up may still be delivered to it. */
  lemma StoppedStay(s: State, l: Label, t: Tid)
    requires t in s.threads && (l.Run? ==> l.tid != t)
    ensures t in Apply(s, l).threads
    ensures Apply(s, l).threads[t] == s.threads[t]
         || (s.threads[t].Asleep? && Apply(s, l).threads[t] == Reload(s.threads[t].inc))
  {
    hide Advance;
    if l.Run? && l.tid in s.threads {
      Bystanders(s, l.tid, l.call, t);
    }
  }

  /** While the others go on, the word says the same of the dead. */
  lemma SameDeadStep(h: Life, l: Label)
    requires LifeInv(h) && MayGo(h, l) && h.job.Loaded?
    requires Inv(Apply(h.s, l)) && RegisteringOk(Decode(Apply(h.s, l).word), Apply(h.s, l).threads)
    ensures SameDead(h.job.snapshot, Apply(h.s, l).word, h.reported)
  {
    hide Owner, Registering, InvOn, Apply, Waited;
    var s, s' := h.s, Apply(h.s, l);
    forall i | 0 <= i < |h.reported|
      ensures (Owner(s.word) == h.reported[i].tid <==> Owner(s'.word) == h.reported[i].tid)
           && (Registering(s.word) == h.reported[i].tid <==> Registering(s'.word) == h.reported[i].tid) {
      var t := h.reported[i].tid;
      assert t in Tids(h.reported);
      StoppedStay(s, l, t);
      FactsOf(s, t);
      FactsOf(s', t);
    }
  }

  lemma StillReported(h: Life, l: Label)
    requires LifeInv(h) && MayGo(h, l)
    ensures Report(Apply(h.s, l).threads, h.reported)
  {
    hide InvOn, Apply, Waited, RegisteringOk;
    forall i | 0 <= i < |h.reported|
      ensures h.reported[i].tid in Apply(h.s, l).threads
           && Reported(Apply(h.s, l).threads[h.reported[i].tid], h.reported[i].isWaiter) {
      assert h.reported[i].tid in Tids(h.reported);
      StoppedStay(h.s, l, h.reported[i].tid);
    }
  }

  lemma GoKeeps(h: Life, l: Label)
    requires LifeInv(h) && Tidy(h.s) && Tidy(Apply(h.s, l)) && MayGo(h, l)
    ensures LifeInv(h.(s := Apply(h.s, l)))
  {
    hide InvOn, OneRegistering, OnTime, Attended, RegisteringOk;
    var s' := Apply(h.s, l);
    StepKeepsInv(h.s, l);
    StepKeys(h.s, l);
    StillReported(h, l);
    assert RegisteringOk(Decode(s'.word), s'.threads) by {
      if l.Run? && l.tid in h.s.threads {
        RegisteringStep(h.s, l.tid, l.call);
      }
    }
    if Attended(h.s) {
      StepKeepsAlert(h.s, l);
    }
    if h.job.Loaded? {
      SameDeadStep(h, l);
    }
  }

  lemma TellKeeps(h: Life, d: Dead)
    requires LifeInv(h) && MayTell(h, d)
    ensures LifeInv(h.(reported := h.reported + [d]))
  {
    hide InvOn, RegisteringOk, Attended, Reported;
    var more := h.reported + [d];
    assert Report(h.s.threads, more) by {
      forall i | 0 <= i < |h.reported| ensures more[i].tid != d.tid {
        assert h.reported[i].tid != d.tid;
      }
    }
    assert Tids(more) <= h.stopped by {
      forall t | t in Tids(more) ensures t in h.stopped {
        var i :| 0 <= i < |more| && more[i].tid == t;
        assert i < |h.reported| ==> t in Tids(h.reported);
      }
    }
  }

  /** The addition makes the word that of the survivors, whatever the others did since the load. */
  lemma AddKeeps(h: Life)
    requires LifeInv(h) && h.job.Loaded? && MayAdd(h) && Unqueued(h)
    ensures LifeInv(AddNext(h))
  {
    hide InvOn, RegisteringOk, Owner, Count, NeedRecover, Registering, Wrap, SameDead, ServerOk;
    var s, dead := h.s, h.reported;
    TotalChangeSame(h.job.snapshot, s.word, dead);
    CleanedInv(s, dead);
    assert DropClients(s.server, dead) == s.server by {
      ServerOf(s);
      NothingToDrop(s.threads, s.server, dead);
    }
    var h' := AddNext(h);
    assert h'.s == Cleaned(s, dead);
    assert forall t: Tid :: Mentions(dead, t) ==> t in Tids(dead);
  }

  lemma ServerOf(s: State)
    requires Inv(s)
    ensures ServerOk(s.threads, s.server)
  {
  }

  lemma ReplyKeeps(h: Life)
    requires LifeInv(h) && h.job.Replied?
    ensures LifeInv(After(h, Reply))
  {
    hide InvOn, RegisteringOk, Owner, Count, NeedRecover, Registering, Chosen, Released;
    var num := h.job.num;
    WokenInv(h.s, num);
    ReleasedIsSome(h.s.threads, Chosen(h.s.server.queue, num, 1));
    var m := Woken(h.s, num).threads;
    assert Report(m, h.reported);
    if num == 0 {
      WokenByNone(h.s);
    }
  }

  lemma EventKeeps(h: Life, e: Event)
    requires LifeInv(h) && Tidy(h.s) && Tidy(After(h, e).s)
    requires e.Add? && h.job.Loaded? ==> MayAdd(h) && Unqueued(h)
    ensures LifeInv(After(h, e))
  {
    hide InvOn, RegisteringOk, Attended, Tidy, MayAdd, Unqueued, AddNext, Woken, MayTell;
    match e
    case Go(l) => if MayGo(h, l) { GoKeeps(h, l); }
    case Stop(t) =>
    case Tell(d) => if MayTell(h, d) { TellKeeps(h, d); }
    case Load =>
    case Add => if h.job.Loaded? { AddKeeps(h); }
    case Reply => if h.job.Replied? { ReplyKeeps(h); }
  }

  // ---------------------------------------------------------------- over all lives

  /** After `k` events the state is tidy, and an addition that comes next is one that may be. */
  ghost predicate FineAt(h: Life, events: seq<Event>, k: nat)
    requires k <= |events|
  {
    var g := Live(h, events[..k]);
    Tidy(g.s) && (k < |events| && events[k].Add? && g.job.Loaded? ==> MayAdd(g))
  }

  ghost predicate OrderlyLife(h: Life, events: seq<Event>) {
    forall k :: 0 <= k <= |events| ==> FineAt(h, events, k)
  }

  ghost predicate UnqueuedAt(h: Life, events: seq<Event>, k: nat)
    requires k < |events|
  {
    var g := Live(h, events[..k]);
    events[k].Add? && g.job.Loaded? ==> Unqueued(g)
  }

  ghost predicate NobodyQueued(h: Life, events: seq<Event>) {
    forall k :: 0 <= k < |events| ==> UnqueuedAt(h, events, k)
  }

  lemma OrderlyFront(h: Life, events: seq<Event>)
    requires events != [] && OrderlyLife(h, events)
    ensures var front, e := events[..|events| - 1], events[|events| - 1];
            && OrderlyLife(h, front) && Tidy(Live(h, front).s) && Tidy(Live(h, events).s)
            && (e.Add? && Live(h, front).job.Loaded? ==> MayAdd(Live(h, front)))
  {
    hide Tidy, MayAdd, Live;
    var n := |events| - 1;
    var front := events[..n];
    assert FineAt(h, events, n) && FineAt(h, events, n + 1) && events[..n + 1] == events;
    forall k | 0 <= k <= n ensures FineAt(h, front, k) {
      assert FineAt(h, events, k) && front[..k] == events[..k];
    }
  }

  lemma QueuedFront(h: Life, events: seq<Event>)
    requires events != [] && NobodyQueued(h, events)
    ensures NobodyQueued(h, events[..|events| - 1]) && UnqueuedAt(h, events, |events| - 1)
  {
    hide Unqueued, Live;
    var n := |events| - 1;
    var front := events[..n];
    forall k | 0 <= k < n ensures UnqueuedAt(h, front, k) {
      assert UnqueuedAt(h, events, k) && front[..k] == events[..k];
    }
  }

  lemma {:induction false} LifeKeeps(h: Life, events: seq<Event>)
    requires LifeInv(h) && OrderlyLife(h, events) && NobodyQueued(h, events)
    ensures LifeInv(Live(h, events))
  {
    hide LifeInv, Tidy, MayAdd, Unqueued, OrderlyLife, NobodyQueued, After;
    if events != [] {
      var n := |events| - 1;
      OrderlyFront(h, events);
      QueuedFront(h, events);
      LifeKeeps(h, events[..n]);
      EventKeeps(Live(h, events[..n]), events[n]);
    }
  }

  lemma BornInv(ids: set<Tid>, dirty: bool)
    requires |ids| <= MAX_COUNT
    ensures LifeInv(Born(ids, dirty))
  {
    InitialInv(ids, dirty);
    DecodePack(Fields(0, 0, if dirty then 1 else 0, 0));
  }

  /** All deaths have been dealt with. */
  predicate Settled(h: Life) {
    h.stopped == {} && h.job.NoJob?
  }

  /**
   No wake-up is lost: in every orderly life of at most 255 threads in which nobody is cleaned away while
   still queued, at most one thread holds the mutex, the count is that of the waiters, dead ones included
   until they are cleaned away, a free mutex with waiters is attended, by a reply if need be, and once all deaths
   are dealt with the waiters are not all asleep on a free mutex.
   */
  lemma NoWakeUpLostByDeath(ids: set<Tid>, dirty: bool, events: seq<Event>)
    requires |ids| <= MAX_COUNT && OrderlyLife(Born(ids, dirty), events) && NobodyQueued(Born(ids, dirty), events)
    ensures var h := Live(Born(ids, dirty), events);
            && Exclusive(h.s) && Waited(h)
            && (!IsUnrecoverable(h.s.word) ==> Count(h.s.word) == |RegisteredSet(h.s.threads)|)
            && (h.job.NoJob? ==> Attended(h.s)) && (Settled(h) ==> !Stuck(h.s))
  {
    hide InvOn;
    var h0 := Born(ids, dirty);
    BornInv(ids, dirty);
    LifeKeeps(h0, events);
    var h := Live(h0, events);
    ExclusiveOf(h.s);
    SumIsCardinality(h.s.threads);
    if h.job.NoJob? {
      NotStuck(h.s);
    }
  }

  /** While somebody waits and no dead client is queued, a reported death can be dealt with. */
  lemma JobCanStart(h: Life, t: Tid)
    requires LifeInv(h) && h.job.NoJob? && h.reported != []
    requires t in h.s.threads && t !in h.stopped && h.s.threads[t].Asleep?
    requires forall u :: u in h.stopped ==> !h.s.threads[u].Asleep?
    ensures MayLoad(h)
  {
    hide Owner, Count, NeedRecover, Registering, LocalsOk;
    assert Waiter(t, 1) in h.s.server.queue;
  }

  // ---------------------------------------------------------------- two threads

  /** With two threads, whoever takes the job is the only one asleep. */
  lemma LoadUnqueued(h: Life)
    requires LifeInv(h) && MayLoad(h) && |h.s.threads.Keys| <= 2
    ensures Unqueued(h)
  {
    hide LocalsOk, Registering;
    var s, head := h.s, h.s.server.queue[0].id;
    assert head in s.threads && s.threads[head].Asleep?;
    forall i | 0 <= i < |h.reported| ensures h.reported[i].tid in s.threads && !s.threads[h.reported[i].tid].Asleep? {
      var t := h.reported[i].tid;
      assert t in Tids(h.reported);
      SomebodyAwake(s, head);
      if s.threads[t].Asleep? {
        NobodyElse(s.threads.Keys, head, t);
      }
    }
  }

  lemma NobodyElse(ids: set<Tid>, t: Tid, u: Tid)
    requires |ids| <= 2 && t in ids && u in ids && t != u
    ensures ids == {t, u}
  {
    assert |ids - {t}| == |ids| - 1;
    assert |ids - {t} - {u}| == |ids| - 2;
    assert ids == ids - {t} - {u} + {t, u};
  }

  /** The threads of an attended mutex are not all asleep. */
  lemma SomebodyAwake(s: State, t: Tid)
    requires Inv(s) && Attended(s) && t in s.threads && s.threads[t].Asleep?
    ensures exists u :: u in s.threads && !s.threads[u].Asleep?
  {
    hide LocalsOk, Registering;
    assert Waiter(t, 1) in s.server.queue;
    if forall u :: u in s.threads ==> s.threads[u].Asleep? {
      NoWaking(s.threads);
      if !IsUnrecoverable(s.word) {
        SeesItself(s, t);
      }
    }
  }

  lemma {:induction false} NoWaking(m: Threads)
    requires forall t :: t in m ==> m[t].Asleep?
    ensures Sum(Waking, m) == 0
    decreases |m|
  {
    if m != map[] {
      var t :| t in m;
      SumSplit(Waking, m, t);
      NoWaking(m - {t});
    }
  }

  ghost predicate FewInv(h: Life) {
    LifeInv(h) && |h.s.threads.Keys| <= 2 && (h.job.Loaded? ==> Unqueued(h))
  }

  lemma StaysUnqueued(h: Life, l: Label)
    requires LifeInv(h) && MayGo(h, l) && Unqueued(h)
    ensures Unqueued(h.(s := Apply(h.s, l)))
  {
    hide InvOn, Apply, Waited, RegisteringOk;
    forall i | 0 <= i < |h.reported|
      ensures h.reported[i].tid in Apply(h.s, l).threads && !Apply(h.s, l).threads[h.reported[i].tid].Asleep? {
      assert h.reported[i].tid in Tids(h.reported);
      StoppedStay(h.s, l, h.reported[i].tid);
    }
  }

  lemma FewKeep(h: Life, e: Event)
    requires FewInv(h) && Tidy(h.s) && Tidy(After(h, e).s) && (e.Add? && h.job.Loaded? ==> MayAdd(h))
    ensures FewInv(After(h, e))
  {
    hide LifeInv, Tidy, MayAdd, Chosen, Released;
    EventKeeps(h, e);
    match e
    case Go(l) =>
      if MayGo(h, l) {
        StepKeys(h.s, l);
        if h.job.Loaded? { StaysUnqueued(h, l); }
      }
    case Stop(t) =>
    case Tell(d) =>
    case Load => if MayLoad(h) { LoadUnqueued(h); }
    case Add => SubsetSize(Survivors(h.s.threads, h.reported).Keys, h.s.threads.Keys);
    case Reply => if h.job.Replied? { ReleasedIsSome(h.s.threads, Chosen(h.s.server.queue, h.job.num, 1)); }
  }

  lemma {:induction false} FewLive(h: Life, events: seq<Event>)
    requires FewInv(h) && OrderlyLife(h, events)
    ensures FewInv(Live(h, events))
  {
    hide FewInv, Tidy, MayAdd, OrderlyLife, After;
    if events != [] {
      var n := |events| - 1;
      OrderlyFront(h, events);
      FewLive(h, events[..n]);
      FewKeep(Live(h, events[..n]), events[n]);
    }
  }

  /** After an orderly life, all deaths dealt with, the waiters are all asleep on a free mutex. */
  ghost predicate StrandedBy(ids: set<Tid>, events: seq<Event>) {
    && OrderlyLife(Born(ids, false), events)
    && Settled(Live(Born(ids, false), events)) && Stuck(Live(Born(ids, false), events).s)
  }

  lemma TwoAreSafe(ids: set<Tid>, events: seq<Event>)
    requires |ids| <= 2
    ensures !StrandedBy(ids, events)
  {
    hide InvOn, Stuck;
    var h0 := Born(ids, false);
    if OrderlyLife(h0, events) {
      BornInv(ids, false);
      assert h0.s.threads.Keys == ids;
      FewLive(h0, events);
      if Settled(Live(h0, events)) {
        NotStuck(Live(h0, events).s);
      }
    }
  }
}
