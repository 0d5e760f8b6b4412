/**
 The process-shared condition variable (src/thread-win32.c). A waiter draws a ticket under the mutex,
 releases the mutex and only then asks the referee to sleep until a wake value reaches its ticket.
 Signal and broadcast, under the mutex, advance the wake-up sequence and send a wake request. Ticket
 drawing, signalling and broadcasting exclude each other; arrivals at the server, the delivery of the
 request and the sweeping of unused locks happen at any time.
 */
module CondVar {
  import opened Basics
  import opened Referee
  import RefereeTheory

  /** `since` is the number of signals and broadcasts issued before the ticket was drawn. */
  datatype Pc =
    | Outside
    | Ticketed(ticket: nat, since: nat)
    | Asleep(ticket: nat, since: nat)
    | Released(ticket: nat, since: nat)

  datatype Request = Request(num: nat, val: int)

  datatype State = State(waiterSeq: nat, wakeupSeq: nat, pending: Option<Request>, server: Lock,
                         threads: map<int, Pc>, issued: nat, arrived: nat)

  datatype Label = TakeTicket(t: int) | Arrive(t: int) | Signal | Broadcast | Deliver | Sweep | Leave(t: int)

  function Initial(ids: set<int>): State {
    State(0, 0, None, FRESH, map t | t in ids :: Outside, 0, 0)
  }

  /** The sleepers chosen by a wake request are released. */
  function Release(m: map<int, Pc>, woken: seq<Waiter>): map<int, Pc> {
    map t | t in m ::
      if m[t].Asleep? && Waiter(t, m[t].ticket) in woken then Released(m[t].ticket, m[t].since) else m[t]
  }

  function ArriveNext(s: State, t: int, ticket: nat, since: nat): State {
    var w := Waiter(t, ticket);
    var pc := if ReturnsAtOnce(s.server, w) then Released(ticket, since) else Asleep(ticket, since);
    s.(server := AddWaiter(s.server, w), threads := s.threads[t := pc], arrived := s.arrived + 1)
  }

  function DeliverNext(s: State, r: Request): State {
    s.(pending := None, server := WakeWaiters(s.server, r.num, r.val),
       threads := Release(s.threads, Chosen(s.server.queue, r.num, r.val)))
  }

  function Apply(s: State, l: Label): State {
    match l
    case TakeTicket(t) =>
      if t in s.threads && s.threads[t].Outside? && s.pending.None? then
        s.(threads := s.threads[t := Ticketed(s.waiterSeq, s.issued)], waiterSeq := s.waiterSeq + 1)
      else s
    case Arrive(t) =>
      if t in s.threads && s.threads[t].Ticketed? then ArriveNext(s, t, s.threads[t].ticket, s.threads[t].since) else s
    case Signal =>
      if s.pending.None? && s.waiterSeq > s.wakeupSeq then
        s.(wakeupSeq := s.wakeupSeq + 1, pending := Some(Request(1, s.wakeupSeq)), issued := s.issued + 1)
      else s
    case Broadcast =>
      if s.pending.None? && s.waiterSeq > s.wakeupSeq then
        var n := s.waiterSeq - s.wakeupSeq;
        s.(wakeupSeq := s.wakeupSeq + n, pending := Some(Request(n, s.wakeupSeq + n - 1)), issued := s.issued + 1)
      else s
    case Deliver => if s.pending.Some? then DeliverNext(s, s.pending.value) else s
    case Sweep => if IsUnused(s.server) then s.(server := FRESH) else s
    case Leave(t) => if t in s.threads && s.threads[t].Released? then s.(threads := s.threads[t := Outside]) else s
  }

  function Exec(s: State, run: seq<Label>): State {
    if run == [] then s else Apply(Exec(s, run[..|run| - 1]), run[|run| - 1])
  }

  /** The request that a label makes to the server, if any. */
  function Requested(s: State, l: Label): seq<RefereeTheory.Op> {
    match l
    case Arrive(t) =>
      if t in s.threads && s.threads[t].Ticketed? then [RefereeTheory.Wait(Waiter(t, s.threads[t].ticket))] else []
    case Deliver => if s.pending.Some? then [RefereeTheory.Wake(s.pending.value.num, s.pending.value.val)] else []
    case Sweep => [RefereeTheory.Collect]
    case _ => []
  }

  /** The server's lock changes by arrivals, deliveries and sweeps only, as in its histories. */
  lemma ServerFollows(s: State, l: Label, g: RefereeTheory.Log)
    requires g.lock == s.server
    ensures var ops := Requested(s, l);
            Apply(s, l).server == if ops == [] then g.lock else RefereeTheory.Step(g, ops[0]).lock
  {
    hide Chosen, Left, Release;
  }

  // ---------------------------------------------------------------- no stale wake-up

  /** A waiter that no signal has followed still has its ticket ahead of the wake-up sequence. */
  ghost predicate TicketOk(s: State, pc: Pc) {
    match pc
    case Outside => true
    case Ticketed(k, since) => k < s.waiterSeq && since <= s.issued && (since == s.issued ==> s.wakeupSeq <= k)
    case Asleep(k, since) => k < s.waiterSeq && since <= s.issued && (since == s.issued ==> s.wakeupSeq <= k)
    case Released(_, since) => since < s.issued
  }

  ghost predicate Fresh(s: State) {
    && s.wakeupSeq <= s.waiterSeq
    && (s.pending.Some? ==> 0 <= s.pending.value.val < s.wakeupSeq && s.pending.value.num > 0)
    && (s.server.maxWake <= 0 || s.server.maxWake < s.wakeupSeq)
    && (s.server.nwaiter < 0 ==> s.wakeupSeq > 0)
    && (forall t :: t in s.threads ==> TicketOk(s, s.threads[t]))
  }

  /** Whoever is chosen by a request had a value within the request. */
  lemma {:induction false} ChosenEligible(q: seq<Waiter>, num: nat, val: int, w: Waiter)
    requires w in Chosen(q, num, val)
    ensures w in q && w.val <= val
  {
    if q[0].val > val {
      ChosenEligible(q[1..], num, val, w);
    } else if w != q[0] {
      ChosenEligible(q[1..], num - 1, val, w);
    }
  }

  lemma StepKeepsFresh(s: State, l: Label)
    requires Fresh(s)
    ensures Fresh(Apply(s, l))
  {
    if l.Deliver? && s.pending.Some? {
      var r := s.pending.value;
      var s' := DeliverNext(s, r);
      forall t | t in s'.threads ensures TicketOk(s', s'.threads[t]) {
        assert TicketOk(s, s.threads[t]);
        if s'.threads[t] != s.threads[t] {
          ChosenEligible(s.server.queue, r.num, r.val, Waiter(t, s.threads[t].ticket));
        }
      }
    } else if l.Arrive? && l.t in s.threads && s.threads[l.t].Ticketed? {
      assert TicketOk(s, s.threads[l.t]);
    }
  }

  /**
   No stale wake-up: in every run the wake-up sequence stays behind the waiter sequence, and a waiter
   is released, from the queue, from a banked wake-up or after a sweep, only if a signal or broadcast
   was issued after it drew its ticket.
   */
  lemma {:induction false} NoStaleWakeUp(ids: set<int>, run: seq<Label>)
    ensures Fresh(Exec(Initial(ids), run))
    ensures var s := Exec(Initial(ids), run);
            && s.wakeupSeq <= s.waiterSeq
            && forall t :: t in s.threads && s.threads[t].Released? ==> s.threads[t].since < s.issued
  {
    if run != [] {
      var front := run[..|run| - 1];
      NoStaleWakeUp(ids, front);
      StepKeepsFresh(Exec(Initial(ids), front), run[|run| - 1]);
    }
    var s := Exec(Initial(ids), run);
    assert forall t :: t in s.threads ==> TicketOk(s, s.threads[t]);
  }

  // ---------------------------------------------------------------- precision, when arrivals keep the ticket order

  /** The wake-ups that the server has been asked for. */
  ghost function Served(s: State): int {
    s.wakeupSeq - if s.pending.Some? then s.pending.value.num else 0
  }

  ghost predicate SleepsAs(m: map<int, Pc>, w: Waiter) {
    w.id in m && m[w.id].Asleep? && m[w.id].ticket == w.val
  }

  /** The queue holds exactly the tickets from `served` up to `arrived`, in order. */
  ghost predicate QueueIs(s: State, q: seq<Waiter>, served: int) {
    && |q| == (if s.arrived > served then s.arrived - served else 0)
    && (forall i :: 0 <= i < |q| ==> q[i].val == served + i && SleepsAs(s.threads, q[i]))
    && (forall t :: t in s.threads && s.threads[t].Asleep? ==> Waiter(t, s.threads[t].ticket) in q)
  }

  ghost predicate TicketsDistinct(m: map<int, Pc>) {
    forall t, u :: t in m && u in m && m[t].Ticketed? && m[u].Ticketed? && m[t].ticket == m[u].ticket ==> t == u
  }

  ghost predicate Precise(s: State) {
    && 0 <= Served(s) && s.wakeupSeq <= s.waiterSeq && s.arrived <= s.waiterSeq
    && (s.pending.Some? ==> s.pending.value.val == s.wakeupSeq - 1 && s.pending.value.num > 0)
    && s.server.nwaiter == s.arrived - Served(s)
    && (s.server.nwaiter < 0 ==> s.server.maxWake == Served(s) - 1)
    && (s.server.maxWake <= 0 || s.server.maxWake < Served(s))
    && QueueIs(s, s.server.queue, Served(s))
    && (forall t :: t in s.threads && s.threads[t].Ticketed? ==> s.arrived <= s.threads[t].ticket < s.waiterSeq)
    && TicketsDistinct(s.threads)
    && (forall t :: t in s.threads && s.threads[t].Released? ==> s.threads[t].ticket < Served(s))
  }

  /** The next waiter to arrive at the server is the one with the oldest ticket still under way. */
  ghost predicate InOrder(s: State, l: Label) {
    l.Arrive? && l.t in s.threads && s.threads[l.t].Ticketed? ==> s.threads[l.t].ticket == s.arrived
  }

  /** In a queue of consecutive values the eligible waiters are a prefix. */
  lemma {:induction false} ConsecutiveSelection(q: seq<Waiter>, base: int, num: nat)
    requires forall i :: 0 <= i < |q| ==> q[i].val == base + i
    ensures var k := if num < |q| then num else |q|;
            Chosen(q, num, base + num - 1) == q[..k] && Left(q, num, base + num - 1) == q[k..]
  {
    if q != [] && num > 0 {
      ConsecutiveSelection(q[1..], base + 1, num - 1);
      assert base + num - 1 == (base + 1) + (num - 1) - 1;
    }
  }

  lemma DeliverQueue(s: State, q: seq<Waiter>, k: nat, served: int, s': State)
    requires QueueIs(s, q, served) && k <= |q|
    requires s' == s.(threads := Release(s.threads, q[..k]), server := s'.server, pending := s'.pending)
    ensures forall i :: 0 <= i < |q[k..]| ==> q[k..][i].val == served + k + i && SleepsAs(s'.threads, q[k..][i])
    ensures forall t :: t in s'.threads && s'.threads[t].Asleep? ==> Waiter(t, s'.threads[t].ticket) in q[k..]
    ensures forall t :: t in s.threads && s.threads[t].Asleep? && s'.threads[t].Released? ==>
              s'.threads[t].ticket < served + k
  {
    forall i | 0 <= i < |q[k..]| ensures q[k..][i].val == served + k + i && SleepsAs(s'.threads, q[k..][i]) {
      var w := q[k + i];
      assert SleepsAs(s.threads, w);
      assert w !in q[..k];
      assert w == Waiter(w.id, s.threads[w.id].ticket);
    }
    forall t | t in s'.threads && s'.threads[t].Asleep? ensures Waiter(t, s'.threads[t].ticket) in q[k..] {
      assert q == q[..k] + q[k..];
    }
  }

  lemma DeliverPrecise(s: State)
    requires Precise(s) && s.pending.Some?
    ensures Precise(DeliverNext(s, s.pending.value))
  {
    hide SleepsAs;
    var r := s.pending.value;
    var q := s.server.queue;
    var served := Served(s);
    var k := if r.num < |q| then r.num else |q|;
    ConsecutiveSelection(q, served, r.num);
    hide Chosen, Left, QueueIs, TicketsDistinct;
    var s' := DeliverNext(s, r);
    DeliverQueueIs(s, q, k, served, s');
    assert Served(s') == served + r.num;
    assert s'.server.queue == q[k..];
  }

  lemma DeliverQueueIs(s: State, q: seq<Waiter>, k: nat, served: int, s': State)
    requires QueueIs(s, q, served) && k <= |q| && s.pending.Some?
    requires k == if s.pending.value.num < |q| then s.pending.value.num else |q|
    requires s' == s.(threads := Release(s.threads, q[..k]), server := s'.server, pending := s'.pending)
    ensures QueueIs(s', q[k..], served + s.pending.value.num)
    ensures TicketsDistinct(s.threads) ==> TicketsDistinct(s'.threads)
    ensures forall t :: t in s'.threads && s'.threads[t].Released? ==>
              s'.threads[t] == s.threads[t] || s'.threads[t].ticket < served + k
    ensures forall t :: t in s'.threads && s'.threads[t].Ticketed? ==> s'.threads[t] == s.threads[t]
  {
    hide SleepsAs;
    DeliverQueue(s, q, k, served, s');
  }

  lemma ArrivePrecise(s: State, t: int)
    requires Precise(s) && t in s.threads && s.threads[t].Ticketed? && s.threads[t].ticket == s.arrived
    ensures Precise(ArriveNext(s, t, s.threads[t].ticket, s.threads[t].since))
  {
    var k, since := s.threads[t].ticket, s.threads[t].since;
    var s' := ArriveNext(s, t, k, since);
    var q := s.server.queue;
    if ReturnsAtOnce(s.server, Waiter(t, k)) {
      assert q == [];
    } else {
      assert s'.server.queue == q + [Waiter(t, k)];
      forall u | u in s'.threads && s'.threads[u].Asleep? ensures Waiter(u, s'.threads[u].ticket) in s'.server.queue {
        assert s'.server.queue[|q|] == Waiter(t, k);
        if u != t { assert Waiter(u, s.threads[u].ticket) in q; }
      }
    }
  }

  lemma StepKeepsPrecise(s: State, l: Label)
    requires Precise(s) && InOrder(s, l)
    ensures Precise(Apply(s, l))
  {
    hide Precise;
    match l
    case Deliver => if s.pending.Some? { DeliverPrecise(s); }
    case Arrive(t) => if t in s.threads && s.threads[t].Ticketed? { ArrivePrecise(s, t); }
    case TakeTicket(t) => TicketPrecise(s, t);
    case Leave(t) => LeavePrecise(s, t);
    case Signal => SignalPrecise(s, l);
    case Broadcast => SignalPrecise(s, l);
    case Sweep => SweepPrecise(s);
  }

  lemma TicketPrecise(s: State, t: int)
    requires Precise(s)
    ensures Precise(Apply(s, TakeTicket(t)))
  {
    hide SleepsAs;
    var s' := Apply(s, TakeTicket(t));
    assert QueueIs(s', s.server.queue, Served(s)) by { StillAsleep(s, s', s.server.queue, Served(s)); }
  }

  lemma LeavePrecise(s: State, t: int)
    requires Precise(s)
    ensures Precise(Apply(s, Leave(t)))
  {
    hide SleepsAs;
    var s' := Apply(s, Leave(t));
    assert QueueIs(s', s.server.queue, Served(s)) by { StillAsleep(s, s', s.server.queue, Served(s)); }
  }

  /** A step that leaves the sleepers alone leaves the queue right. */
  lemma StillAsleep(s: State, s': State, q: seq<Waiter>, served: int)
    requires QueueIs(s, q, served) && s'.arrived == s.arrived && s'.threads.Keys == s.threads.Keys
    requires forall t :: t in s.threads && (s.threads[t].Asleep? || s'.threads[t].Asleep?) ==> s'.threads[t] == s.threads[t]
    ensures QueueIs(s', q, served)
  {
    forall i | 0 <= i < |q| ensures SleepsAs(s'.threads, q[i]) {
      assert SleepsAs(s.threads, q[i]);
    }
  }

  lemma SignalPrecise(s: State, l: Label)
    requires Precise(s) && (l.Signal? || l.Broadcast?)
    ensures Precise(Apply(s, l))
  {
    hide SleepsAs;
    assert QueueIs(Apply(s, l), s.server.queue, Served(s));
  }

  lemma SweepPrecise(s: State)
    requires Precise(s)
    ensures Precise(Apply(s, Sweep))
  {
    hide SleepsAs;
  }

  ghost predicate RunInOrder(ids: set<int>, run: seq<Label>) {
    forall k :: 0 <= k < |run| ==> InOrder(Exec(Initial(ids), run[..k]), run[k])
  }

  /**
   When the waiters reach the server in the order of their tickets, the signals are exact: the sleepers
   are precisely the arrived tickets that have not been signalled, so nobody sleeps once every
   ticket has been signalled and the request delivered.
   */
  lemma {:induction false} SignalsExact(ids: set<int>, run: seq<Label>)
    requires RunInOrder(ids, run)
    ensures Precise(Exec(Initial(ids), run))
    ensures var s := Exec(Initial(ids), run);
            && (forall t :: t in s.threads && s.threads[t].Asleep? ==> Served(s) <= s.threads[t].ticket < s.arrived)
            && (forall t :: t in s.threads && s.threads[t].Released? ==> s.threads[t].ticket < Served(s))
            && (s.wakeupSeq == s.waiterSeq && s.pending.None? ==> forall t :: t in s.threads ==> !s.threads[t].Asleep?)
  {
    if run != [] {
      var front := run[..|run| - 1];
      forall k | 0 <= k < |front| ensures InOrder(Exec(Initial(ids), front[..k]), front[k]) {
        assert front[..k] == run[..k];
      }
      SignalsExact(ids, front);
      StepKeepsPrecise(Exec(Initial(ids), front), run[|run| - 1]);
    }
    var s := Exec(Initial(ids), run);
    forall t | t in s.threads && s.threads[t].Asleep? ensures Served(s) <= s.threads[t].ticket < s.arrived {
      assert Waiter(t, s.threads[t].ticket) in s.server.queue;
    }
  }

  // ---------------------------------------------------------------- broadcast and signal

  /** Whoever arrives in order with a ticket that has been served goes on at once. */
  lemma GoesOnAtOnce(s: State, t: int)
    requires Precise(s) && t in s.threads && s.threads[t].Ticketed? && s.threads[t].ticket == s.arrived < Served(s)
    ensures ReturnsAtOnce(s.server, Waiter(t, s.threads[t].ticket))
    ensures Apply(s, Arrive(t)).threads[t].Released?
  {
  }

  lemma {:induction false} InOrderParts(ids: set<int>, run: seq<Label>, more: seq<Label>)
    requires RunInOrder(ids, run + more)
    ensures RunInOrder(ids, run)
  {
    forall k | 0 <= k < |run| ensures InOrder(Exec(Initial(ids), run[..k]), run[k]) {
      assert (run + more)[..k] == run[..k] && (run + more)[k] == run[k];
    }
  }

  /** What has been served stays served, and a ticket does not change on its way to the server. */
  lemma {:induction false} ServedGrows(s: State, more: seq<Label>, t: int)
    ensures Served(Exec(s, more)) >= Served(s)
    ensures t in s.threads && s.threads[t].Ticketed? && (forall k :: 0 <= k < |more| ==> more[k] != Arrive(t)) ==>
              t in Exec(s, more).threads && Exec(s, more).threads[t] == s.threads[t]
  {
    if more != [] {
      ServedGrows(s, more[..|more| - 1], t);
    }
  }

  lemma {:induction false} ExecParts(s: State, run: seq<Label>, more: seq<Label>)
    ensures Exec(s, run + more) == Exec(Exec(s, run), more)
    decreases |more|
  {
    if more == [] {
      assert run + more == run;
    } else {
      var n := |more| - 1;
      ExecParts(s, run, more[..n]);
      assert run + more == run + more[..n] + [more[n]];
      ExecOneMore(s, run + more[..n], more[n]);
    }
  }

  /** A broadcast catches up with all tickets drawn so far, in every run. */
  lemma BroadcastCatchesUp(ids: set<int>, run: seq<Label>)
    requires Exec(Initial(ids), run).pending.None?
    ensures var s := Exec(Initial(ids), run);
            var s' := Apply(s, Broadcast);
            && s'.wakeupSeq == s'.waiterSeq == s.waiterSeq && s'.threads == s.threads
            && (s.waiterSeq > s.wakeupSeq ==> s'.pending == Some(Request(s.waiterSeq - s.wakeupSeq, s.waiterSeq - 1)))
  {
    NoStaleWakeUp(ids, run);
  }

  /** In order, a broadcast and its delivery leave nobody asleep. */
  lemma BroadcastWakesAll(ids: set<int>, run: seq<Label>)
    requires RunInOrder(ids, run) && Exec(Initial(ids), run).pending.None?
    ensures var s := Exec(Initial(ids), run);
            var s' := Apply(Apply(s, Broadcast), Deliver);
            && s'.threads.Keys == s.threads.Keys && Precise(s') && Served(s') == s.waiterSeq
            && forall t :: t in s.threads ==>
                 if s.threads[t].Asleep? then s'.threads[t].Released? else s'.threads[t] == s.threads[t]
  {
    var s := Exec(Initial(ids), run);
    SignalsExact(ids, run);
    var s1 := Apply(s, Broadcast);
    StepKeepsPrecise(s, Broadcast);
    var s' := Apply(s1, Deliver);
    StepKeepsPrecise(s1, Deliver);
    assert s'.threads.Keys == s.threads.Keys;
    NobodyAsleep(s');
    DeliverMoves(s1);
  }

  lemma NobodyAsleep(s: State)
    requires Precise(s) && s.arrived <= Served(s)
    ensures forall t :: t in s.threads ==> !s.threads[t].Asleep?
  {
  }

  /** A delivery moves sleepers only. */
  lemma DeliverMoves(s: State)
    ensures var s' := Apply(s, Deliver);
            && s'.threads.Keys == s.threads.Keys
            && forall t :: t in s.threads ==>
                 s'.threads[t] == s.threads[t]
                 || (s.threads[t].Asleep? && s'.threads[t] == Released(s.threads[t].ticket, s.threads[t].since))
  {
    hide Chosen, Left;
    if s.pending.Some? {
      assert Release(s.threads, Chosen(s.server.queue, s.pending.value.num, s.pending.value.val)).Keys == s.threads.Keys;
    }
  }

  /**
   In order, whoever had a ticket at the broadcast and had not reached the server goes on at once when it
   arrives, however much later.
   */
  lemma BroadcastReachesLatecomers(ids: set<int>, run: seq<Label>, more: seq<Label>, t: int)
    requires Exec(Initial(ids), run).pending.None? && RunInOrder(ids, run + [Broadcast] + [Deliver] + more + [Arrive(t)])
    requires t in Exec(Initial(ids), run).threads && Exec(Initial(ids), run).threads[t].Ticketed?
    requires forall k :: 0 <= k < |more| ==> more[k] != Arrive(t)
    ensures var s' := Exec(Initial(ids), run + [Broadcast] + [Deliver] + more + [Arrive(t)]);
            t in s'.threads && s'.threads[t].Released?
  {
    hide Precise, Exec, Apply, RunInOrder, InOrder;
    var s0 := Initial(ids);
    var both := run + [Broadcast] + [Deliver];
    var all := both + more;
    InOrderParts(ids, all, [Arrive(t)]);
    InOrderParts(ids, both, more);
    AfterBroadcast(ids, run, t);
    ExecParts(s0, both, more);
    ServedGrows(Exec(s0, both), more, t);
    SignalsExact(ids, all);
    LastInOrder(ids, all, Arrive(t));
    ArrivesNext(Exec(s0, all), t);
    ExecOneMore(s0, all, Arrive(t));
  }

  lemma LastInOrder(ids: set<int>, run: seq<Label>, l: Label)
    requires RunInOrder(ids, run + [l])
    ensures InOrder(Exec(Initial(ids), run), l)
  {
    assert (run + [l])[..|run|] == run && (run + [l])[|run|] == l;
    assert InOrder(Exec(Initial(ids), (run + [l])[..|run|]), (run + [l])[|run|]);
  }

  lemma ArrivesNext(s: State, t: int)
    requires Precise(s) && InOrder(s, Arrive(t)) && t in s.threads && s.threads[t].Ticketed?
    requires s.threads[t].ticket < Served(s)
    ensures t in Apply(s, Arrive(t)).threads && Apply(s, Arrive(t)).threads[t].Released?
  {
    GoesOnAtOnce(s, t);
  }

  lemma AfterBroadcast(ids: set<int>, run: seq<Label>, t: int)
    requires Exec(Initial(ids), run).pending.None? && RunInOrder(ids, run + [Broadcast] + [Deliver])
    requires t in Exec(Initial(ids), run).threads && Exec(Initial(ids), run).threads[t].Ticketed?
    ensures var s1 := Exec(Initial(ids), run + [Broadcast] + [Deliver]);
            && t in s1.threads && s1.threads[t] == Exec(Initial(ids), run).threads[t]
            && s1.threads[t].Ticketed? && s1.threads[t].ticket < Served(s1)
  {
    hide Precise, Exec, Apply, InOrder;
    var s0 := Initial(ids);
    InOrderParts(ids, run + [Broadcast], [Deliver]);
    InOrderParts(ids, run, [Broadcast]);
    BroadcastWakesAll(ids, run);
    ExecOneMore(s0, run, Broadcast);
    ExecOneMore(s0, run + [Broadcast], Deliver);
    SignalsExact(ids, run);
    TicketDrawn(Exec(s0, run), t);
  }

  lemma TicketDrawn(s: State, t: int)
    requires Precise(s) && t in s.threads && s.threads[t].Ticketed?
    ensures s.threads[t].ticket < s.waiterSeq
  {
  }

  /** A signal and its delivery release at most one thread, in every state. */
  lemma SignalReleasesOne(s: State, t: int, u: int)
    requires s.pending.None? && t in s.threads && u in s.threads
    ensures var s' := Apply(Apply(s, Signal), Deliver);
            s'.threads[t] != s.threads[t] && s'.threads[u] != s.threads[u] ==> t == u
  {
    var s1 := Apply(s, Signal);
    if s1.pending.Some? {
      AtMost(s.server.queue, s1.pending.value.num, s1.pending.value.val);
    }
  }

  lemma {:induction false} AtMost(q: seq<Waiter>, num: nat, val: int)
    ensures |Chosen(q, num, val)| <= num
  {
    if q != [] && num > 0 {
      AtMost(q[1..], if q[0].val > val then num else num - 1, val);
    }
  }

  /** In order, a signal releases exactly the sleeper whose ticket is the oldest one not served yet. */
  lemma SignalReleasesOldest(ids: set<int>, run: seq<Label>)
    requires RunInOrder(ids, run) && Exec(Initial(ids), run).pending.None?
    ensures var s := Exec(Initial(ids), run);
            var s' := Apply(Apply(s, Signal), Deliver);
            forall t :: t in s.threads && s.threads[t].Asleep? ==>
              t in s'.threads && (s'.threads[t].Released? <==> s.threads[t].ticket == s.wakeupSeq)
  {
    var s := Exec(Initial(ids), run);
    SignalsExact(ids, run);
    var s1 := Apply(s, Signal);
    StepKeepsPrecise(s, Signal);
    var s' := Apply(s1, Deliver);
    StepKeepsPrecise(s1, Deliver);
    DeliverMoves(s1);
    OldestGoes(s, s');
  }

  lemma OldestGoes(s: State, s': State)
    requires Precise(s) && Precise(s') && s.pending.None? && s'.arrived == s.arrived && s'.threads.Keys == s.threads.Keys
    requires Served(s') == s.wakeupSeq + if s.waiterSeq > s.wakeupSeq then 1 else 0
    requires forall t :: t in s.threads ==>
               s'.threads[t] == s.threads[t] || (s.threads[t].Asleep? && s'.threads[t].Released? && s'.threads[t].ticket == s.threads[t].ticket)
    ensures forall t :: t in s.threads && s.threads[t].Asleep? ==>
              (s'.threads[t].Released? <==> s.threads[t].ticket == s.wakeupSeq)
  {
    forall t | t in s.threads && s.threads[t].Asleep? ensures s'.threads[t].Released? <==> s.threads[t].ticket == s.wakeupSeq {
      assert Waiter(t, s.threads[t].ticket) in s.server.queue;
      if s'.threads[t].Asleep? {
        assert Waiter(t, s'.threads[t].ticket) in s'.server.queue;
      }
    }
  }

  /** A released waiter returns and may wait again, with a ticket that is newer than all before it. */
  lemma WaitsAgain(ids: set<int>, run: seq<Label>, t: int)
    requires t in Exec(Initial(ids), run).threads && Exec(Initial(ids), run).threads[t].Released?
    requires Exec(Initial(ids), run).pending.None?
    ensures var s := Exec(Initial(ids), run);
            var s' := Apply(Apply(s, Leave(t)), TakeTicket(t));
            && t in s'.threads && s'.threads[t] == Ticketed(s.waiterSeq, s.issued) && s'.waiterSeq == s.waiterSeq + 1
            && forall u :: u in s.threads && (s.threads[u].Ticketed? || s.threads[u].Asleep?) ==> s.threads[u].ticket < s.waiterSeq
  {
    NoStaleWakeUp(ids, run);
    var s := Exec(Initial(ids), run);
    assert forall u :: u in s.threads ==> TicketOk(s, s.threads[u]);
  }

  // ---------------------------------------------------------------- arrivals out of order

  /** Every ticket has been signalled and every request delivered, yet somebody sleeps. */
  ghost predicate Stranded(s: State) {
    s.wakeupSeq == s.waiterSeq && s.pending.None? && exists t :: t in s.threads && s.threads[t].Asleep?
  }

  /** From then on nobody who sleeps is released, by any run in which nobody draws a ticket. */
  lemma {:induction false} StrandedUntilTicket(s: State, run: seq<Label>)
    requires Stranded(s) && forall k :: 0 <= k < |run| ==> !run[k].TakeTicket?
    ensures Stranded(Exec(s, run))
    ensures forall t :: t in s.threads && s.threads[t].Asleep? ==>
              t in Exec(s, run).threads && Exec(s, run).threads[t] == s.threads[t]
  {
    if run != [] {
      StrandedUntilTicket(s, run[..|run| - 1]);
      var t :| t in s.threads && s.threads[t].Asleep?;
      assert Exec(s, run).threads[t] == s.threads[t];
    }
  }

  ghost predicate NoRepeat(q: seq<Waiter>) {
    forall i, j :: 0 <= i < j < |q| ==> q[i] != q[j]
  }

  /** The queue holds the sleeping threads with their tickets, each once. */
  ghost predicate QueueSleeps(s: State) {
    && (forall i :: 0 <= i < |s.server.queue| ==> SleepsAs(s.threads, s.server.queue[i]))
    && NoRepeat(s.server.queue)
    && (forall t :: t in s.threads && s.threads[t].Asleep? ==> Waiter(t, s.threads[t].ticket) in s.server.queue)
  }

  /** A request splits a queue of distinct waiters into those it chooses and those it leaves. */
  lemma {:induction false} SelectionSplits(q: seq<Waiter>, num: nat, val: int)
    requires NoRepeat(q)
    ensures forall w :: w in q <==> w in Chosen(q, num, val) || w in Left(q, num, val)
    ensures forall w :: w in Left(q, num, val) ==> w !in Chosen(q, num, val)
    ensures NoRepeat(Left(q, num, val))
  {
    if q != [] && num > 0 {
      var rest, n := q[1..], if q[0].val > val then num else num - 1;
      SelectionSplits(rest, n, val);
      assert q == [q[0]] + rest;
      assert q[0] !in rest;
      var l := Left(rest, n, val);
      assert q[0] !in l;
      assert NoRepeat([q[0]] + l) by {
        assert forall j :: 0 <= j < |l| ==> l[j] in l;
      }
    }
  }

  lemma StepKeepsQueue(s: State, l: Label)
    requires QueueSleeps(s)
    ensures QueueSleeps(Apply(s, l))
  {
    if l.Deliver? && s.pending.Some? {
      DeliverKeepsQueue(s, s.pending.value);
    }
  }

  lemma DeliverKeepsQueue(s: State, r: Request)
    requires QueueSleeps(s)
    ensures QueueSleeps(DeliverNext(s, r))
  {
    hide Chosen, Left;
    var q, s' := s.server.queue, DeliverNext(s, r);
    var left, chosen := Left(q, r.num, r.val), Chosen(q, r.num, r.val);
    SelectionSplits(q, r.num, r.val);
    assert s'.server.queue == left && s'.threads == Release(s.threads, chosen);
    forall i | 0 <= i < |left| ensures SleepsAs(s'.threads, left[i]) {
      assert left[i] in q;
      assert SleepsAs(s.threads, left[i]);
      assert left[i] == Waiter(left[i].id, s.threads[left[i].id].ticket);
    }
    forall t | t in s'.threads && s'.threads[t].Asleep? ensures Waiter(t, s'.threads[t].ticket) in left {
      assert s'.threads[t] == s.threads[t] && Waiter(t, s.threads[t].ticket) in q;
    }
  }

  lemma {:induction false} RunKeepsQueue(ids: set<int>, run: seq<Label>)
    ensures QueueSleeps(Exec(Initial(ids), run))
  {
    if run != [] {
      RunKeepsQueue(ids, run[..|run| - 1]);
      StepKeepsQueue(Exec(Initial(ids), run[..|run| - 1]), run[|run| - 1]);
    }
  }

  /**
   A later ticket can end it: as soon as some thread draws one, the next signal releases the first of the
   stranded waiters, in the place of the newcomer.
   */
  lemma LaterTicketReleases(ids: set<int>, run: seq<Label>, c: int)
    requires Stranded(Exec(Initial(ids), run)) && c in Exec(Initial(ids), run).threads
    requires Exec(Initial(ids), run).threads[c].Outside?
    ensures var s := Exec(Initial(ids), run);
            var s' := Apply(Apply(Apply(s, TakeTicket(c)), Signal), Deliver);
            && s.server.queue != [] && SleepsAs(s.threads, s.server.queue[0])
            && s.server.queue[0].id in s'.threads && s'.threads[s.server.queue[0].id].Released?
            && c in s'.threads && s'.threads[c].Ticketed?
  {
    var s := Exec(Initial(ids), run);
    RunKeepsQueue(ids, run);
    NoStaleWakeUp(ids, run);
    var q := s.server.queue;
    assert TicketOk(s, s.threads[q[0].id]);
    assert Chosen(q, 1, s.wakeupSeq) == [q[0]] + Chosen(q[1..], 0, s.wakeupSeq);
  }

  function Overtaking(a: int, b: int): seq<Label> {
    [TakeTicket(a)] + [TakeTicket(b)] + [Arrive(b)] + [Signal] + [Deliver] + [Arrive(a)] + [Signal] + [Deliver]
  }

  lemma ExecOneMore(s: State, run: seq<Label>, l: Label)
    ensures Exec(s, run + [l]) == Apply(Exec(s, run), l)
  {
    assert (run + [l])[..|run|] == run;
  }

  /** `b` overtakes `a` on the way to the server; two signals then wake only one of the two waiters. */
  lemma OvertakingStrands(ids: set<int>, a: int, b: int)
    requires a in ids && b in ids && a != b
    ensures Stranded(Exec(Initial(ids), Overtaking(a, b)))
  {
    var s0 := Initial(ids);
    var r5 := [TakeTicket(a)] + [TakeTicket(b)] + [Arrive(b)] + [Signal] + [Deliver];
    ExecOneMore(s0, [], TakeTicket(a));
    ExecOneMore(s0, [TakeTicket(a)], TakeTicket(b));
    ExecOneMore(s0, [TakeTicket(a)] + [TakeTicket(b)], Arrive(b));
    ExecOneMore(s0, [TakeTicket(a)] + [TakeTicket(b)] + [Arrive(b)], Signal);
    ExecOneMore(s0, [TakeTicket(a)] + [TakeTicket(b)] + [Arrive(b)] + [Signal], Deliver);
    var s3 := Exec(s0, [TakeTicket(a)] + [TakeTicket(b)] + [Arrive(b)]);
    var qb := [Waiter(b, 1)];
    assert s3 == State(2, 0, None, Lock(1, 0, qb), s0.threads[a := Ticketed(0, 0)][b := Asleep(1, 0)], 0, 1);
    assert qb[1..] == [];
    assert Chosen(qb, 1, 0) == [] && Left(qb, 1, 0) == qb;
    var s5 := Exec(s0, r5);
    assert Release(s3.threads, []) == s3.threads;
    assert s5 == s3.(wakeupSeq := 1, issued := 1, server := Lock(0, 0, qb));
    SecondSignal(s5, a, b);
    ExecOneMore(s0, r5, Arrive(a));
    ExecOneMore(s0, r5 + [Arrive(a)], Signal);
    ExecOneMore(s0, r5 + [Arrive(a)] + [Signal], Deliver);
  }

  lemma SecondSignal(s: State, a: int, b: int)
    requires a != b && a in s.threads && b in s.threads && s.threads[a] == Ticketed(0, 0) && s.threads[b] == Asleep(1, 0)
    requires s.wakeupSeq == 1 && s.waiterSeq == 2 && s.pending.None? && s.server == Lock(0, 0, [Waiter(b, 1)])
    ensures Stranded(Apply(Apply(Apply(s, Arrive(a)), Signal), Deliver))
  {
    var q := [Waiter(b, 1), Waiter(a, 0)];
    var s1 := Apply(s, Arrive(a));
    assert s1.server == Lock(1, 0, q);
    assert q[1..] == [Waiter(a, 0)];
    assert Chosen(q, 1, 1) == [Waiter(b, 1)];
    var s3 := Apply(Apply(s1, Signal), Deliver);
    assert s3.threads[a] == Asleep(0, 0);
  }

  // ---------------------------------------------------------------- the exact condition

  /** A lone thread is always next in line. */
  ghost predicate Alone(s: State, t: int) {
    && s.threads.Keys == {t} && s.arrived <= s.waiterSeq
    && (if s.threads[t].Ticketed? then s.threads[t].ticket == s.arrived && s.waiterSeq == s.arrived + 1
        else s.waiterSeq == s.arrived)
  }

  lemma {:induction false} LoneRun(t: int, run: seq<Label>)
    ensures Alone(Exec(Initial({t}), run), t)
  {
    if run != [] {
      LoneRun(t, run[..|run| - 1]);
    } else {
      assert Initial({t}).threads.Keys == {t};
    }
  }

  ghost predicate StrandedAfter(ids: set<int>, run: seq<Label>) {
    Stranded(Exec(Initial(ids), run))
  }

  lemma {:induction false} EmptyRun(run: seq<Label>)
    ensures Exec(Initial({}), run).threads == map[]
  {
    if run != [] { EmptyRun(run[..|run| - 1]); }
  }

  /** If the order of arrivals is left open, no waiter is ever stranded exactly when there is at most one. */
  lemma StrandingExactly(ids: set<int>)
    ensures (forall run :: !StrandedAfter(ids, run)) <==> |ids| <= 1
  {
    if a, b :| a in ids && b in ids && a != b {
      assert |ids - {a} - {b}| == |ids| - 2;
      OvertakingStrands(ids, a, b);
      assert StrandedAfter(ids, Overtaking(a, b));
    } else if a :| a in ids {
      assert forall t :: t in ids <==> t in {a};
      assert ids == {a};
      forall run ensures !StrandedAfter(ids, run) {
        assert RunInOrder(ids, run) by {
          forall k | 0 <= k < |run| ensures InOrder(Exec(Initial(ids), run[..k]), run[k]) { LoneRun(a, run[..k]); }
        }
        SignalsExact(ids, run);
      }
    } else {
      assert forall t: int :: t !in ids;
      assert |ids| == 0;
      forall run ensures !StrandedAfter(ids, run) { EmptyRun(run); }
    }
  }
}
