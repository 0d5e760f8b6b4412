/**
 The process-shared mutex as a labelled transition system (src/thread-win32.c).

 Every thread runs `lock`, `trylock`, `unlock` and `consistent` as a program whose steps are
 single atomic accesses to the shared word (compare-and-swap, fetch-and-add, load) or single
 requests to the referee server. A run is any sequence of labels; a label that is not enabled
 leaves the state as it is, so the runs are exactly the interleavings of the threads.
 */
module MutexProtocol {
  import opened LockWord
  import opened Referee

  datatype Result = Success | Busy | OwnerDead | NotRecoverable

  /** Program counter of a thread, with its live local variables. */
  datatype Pc =
    | Idle(last: Result)
    | LockCas(seen: Word, inc: Word, notified: bool)
    | RegisterCas(seen: Word, inc: Word)
    | RegisterReload(inc: Word)
    | RegisterRelease(inc: Word)
    | AtWait(inc: Word)
    | Asleep(inc: Word)
    | Reload(inc: Word)
    | TryCas(second: bool, seen: Word, want: Word)
    | Holding(ret: Result)
    | UnlockLoad(ret: Result)
    | UnlockSub(ret: Result, unrecoverable: bool)
    | UnlockWake(num: nat)
    | ConsistentLoad(ret: Result)
    | ConsistentSub(ret: Result)

  type Threads = map<Tid, Pc>

  datatype State = State(word: Word, threads: Threads, server: Lock)

  datatype Call = DoLock | DoTryLock | DoUnlock | DoConsistent | Continue

  datatype Label = Run(tid: Tid, call: Call) | Sweep

  function AcquireResult(seen: Word): Result {
    if IsOwnerDead(seen) then OwnerDead else Success
  }

  function Goto(s: State, t: Tid, pc: Pc): State {
    s.(threads := s.threads[t := pc])
  }

  /** The threads released by a wake request continue with the reload of the word. */
  function Released(threads: Threads, woken: seq<Waiter>): Threads {
    map t | t in threads ::
      if threads[t].Asleep? && Waiter(t, 1) in woken then Reload(threads[t].inc) else threads[t]
  }

  /** The compare-and-swap of the lock loop. */
  function LockCasNext(s: State, t: Tid, seen: Word, inc: Word, notified: bool): State {
    if s.word == seen then Goto(s, t, Holding(AcquireResult(s.word))).(word := Wrap(seen + inc))
    else if IsUnrecoverable(s.word) then Goto(s, t, Idle(NotRecoverable))
    else if notified then Goto(s, t, AtWait(inc))
    else Goto(s, t, RegisterCas(s.word, inc))
  }

  /** One turn of the registration loop; a failed swap hands back the word it met. */
  function RegisterCasNext(s: State, t: Tid, seen: Word, inc: Word): State {
    if IsWaiterListFull(seen) then Goto(s, t, RegisterReload(inc))
    else if s.word == seen then
      Goto(s, t, RegisterRelease(inc)).(word := Wrap(ClearRegistering(seen) + MtxLockval(0, t, 1)))
    else if IsUnrecoverable(s.word) then Goto(s, t, LockCas(s.word, inc, false))
    else Goto(s, t, RegisterCas(s.word, inc))
  }

  /** The registering id is subtracted again; from now on the thread acquires as a waiter. */
  function RegisterReleaseNext(s: State, t: Tid, inc: Word): State {
    Goto(s, t, LockCas(ClearOwner(ClearRegistering(s.word)), Wrap(inc - MtxLockval(0, 0, 1)), true))
      .(word := Wrap(s.word - MtxLockval(0, t, 0)))
  }

  function WaitNext(s: State, t: Tid, inc: Word): State {
    Goto(s, t, if ReturnsAtOnce(s.server, Waiter(t, 1)) then Reload(inc) else Asleep(inc))
      .(server := AddWaiter(s.server, Waiter(t, 1)))
  }

  /** One of the two swaps of trylock. */
  function TryCasNext(s: State, t: Tid, second: bool, seen: Word, want: Word): State {
    if s.word == seen then Goto(s, t, Holding(AcquireResult(s.word))).(word := want)
    else if IsUnrecoverable(s.word) then Goto(s, t, Idle(NotRecoverable))
    else if second then Goto(s, t, Idle(Busy))
    else Goto(s, t, TryCas(true, ClearOwner(s.word), Wrap(want + ClearOwner(s.word))))
  }

  function UnlockSubNext(s: State, t: Tid, unrecoverable: bool): State {
    Goto(s, t, if IsWaited(s.word) then UnlockWake(if unrecoverable then Count(s.word) else 1) else Idle(Success))
      .(word := Wrap(s.word - UnlockVal(t, unrecoverable)))
  }

  function WakeNext(s: State, t: Tid, num: nat): State {
    State(s.word, Released(s.threads, Chosen(s.server.queue, num, 1))[t := Idle(Success)],
          WakeWaiters(s.server, num, 1))
  }

  /** One step of thread `t`. */
  function Advance(s: State, t: Tid, call: Call): State
    requires t in s.threads
  {
    match s.threads[t]
    case Idle(_) =>
      if call == DoLock then Goto(s, t, LockCas(0, PlainInc(t), false))
      else if call == DoTryLock then Goto(s, t, TryCas(false, 0, PlainInc(t)))
      else s
    case LockCas(seen, inc, notified) => LockCasNext(s, t, seen, inc, notified)
    case RegisterCas(seen, inc) => RegisterCasNext(s, t, seen, inc)
    case RegisterReload(inc) => Goto(s, t, LockCas(s.word, inc, false))
    case RegisterRelease(inc) => RegisterReleaseNext(s, t, inc)
    case AtWait(inc) => WaitNext(s, t, inc)
    case Asleep(_) => s
    case Reload(inc) => Goto(s, t, LockCas(ClearOwner(s.word), inc, true))
    case TryCas(second, seen, want) => TryCasNext(s, t, second, seen, want)
    case Holding(ret) =>
      if call == DoUnlock then Goto(s, t, UnlockLoad(ret))
      else if call == DoConsistent then Goto(s, t, ConsistentLoad(ret))
      else s
    case UnlockLoad(ret) => Goto(s, t, UnlockSub(ret, IsOwnerDead(s.word)))
    case UnlockSub(_, unrecoverable) => UnlockSubNext(s, t, unrecoverable)
    case UnlockWake(num) => WakeNext(s, t, num)
    case ConsistentLoad(ret) =>
      Goto(s, t, if IsOwnerDead(s.word) then ConsistentSub(ret) else Holding(ret))
    case ConsistentSub(ret) =>
      Goto(s, t, Holding(ret)).(word := Wrap(s.word - TWO40))
  }

  function Apply(s: State, l: Label): State {
    match l
    case Run(t, call) => if t in s.threads then Advance(s, t, call) else s
    case Sweep => if IsUnused(s.server) then s.(server := FRESH) else s
  }

  /** All threads idle, nobody known to the server, and the word free; `dirty` if its last owner died. */
  function Initial(ids: set<Tid>, dirty: bool): State {
    State(if dirty then TWO40 else 0, map t | t in ids :: Idle(Success), FRESH)
  }

  function Exec(s: State, run: seq<Label>): State {
    if run == [] then s else Apply(Exec(s, run[..|run| - 1]), run[|run| - 1])
  }
}
