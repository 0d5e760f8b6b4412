/**
 What the undoing of dead threads (src/pshared-lock.c) means for the protocol: when any set of
 threads dies in a reachable state of the mutex, the cleaned word describes the survivors alone.
 */
module CrashRecovery {
  import opened LockWord
  import opened Referee
  import opened MutexProtocol
  import opened MutexSafety
  import opened MutexWakeups
  import opened CrashUndo

  /** The waiter flag of a thread's robust data, free while its registration is being recorded. */
  ghost predicate Reported(pc: Pc, isWaiter: bool) {
    pc.RegisterRelease? || IsHolder(pc) || isWaiter == IsRegistered(pc)
  }

  ghost predicate Report(m: Threads, dead: seq<Dead>) {
    && Distinct(dead)
    && forall i :: 0 <= i < |dead| ==> dead[i].tid in m && Reported(m[dead[i].tid], dead[i].isWaiter)
  }

  ghost function Survivors(m: Threads, dead: seq<Dead>): Threads {
    map t | t in m && !Mentions(dead, t) :: m[t]
  }

  lemma OneDeadMore(m: Threads, dead: seq<Dead>)
    requires dead != [] && Distinct(dead) && dead[|dead| - 1].tid in m
    ensures dead[|dead| - 1].tid in Survivors(m, dead[..|dead| - 1])
    ensures Survivors(m, dead) == Survivors(m, dead[..|dead| - 1]) - {dead[|dead| - 1].tid}
  {
    var n := |dead| - 1;
    var rest, last := dead[..n], dead[n].tid;
    forall id ensures Mentions(dead, id) <==> Mentions(rest, id) || id == last {
      if Mentions(dead, id) && id != last {
        var i :| 0 <= i < |dead| && dead[i].tid == id;
        assert rest[i].tid == id;
      }
      if Mentions(rest, id) {
        var i :| 0 <= i < |rest| && rest[i].tid == id;
        assert dead[i].tid == id;
      }
    }
    assert !Mentions(rest, last);
  }

  /** The dead are charged exactly for the registrations they held. */
  lemma {:induction false} ChargedIsRegistered(f: Fields, m: Threads, dead: seq<Dead>)
    requires OwnerOk(f, m) && RegisteringOk(f, m) && Report(m, dead)
    ensures Sum(Registered, m) == Charged(f, dead) + Sum(Registered, Survivors(m, dead))
    decreases |dead|
  {
    if dead == [] {
      assert Survivors(m, dead) == m;
    } else {
      var n := |dead| - 1;
      var d, rest := dead[n], dead[..n];
      ChargedIsRegistered(f, m, rest);
      ChargedRemoveAt(f, dead, n);
      assert dead[..n] + dead[n + 1..] == rest;
      var left := Survivors(m, rest);
      OneDeadMore(m, dead);
      SumSplit(Registered, left, d.tid);
      assert Charged(f, [d]) == Weight(Registered, m[d.tid]) by { assert ([d])[1..] == []; }
    }
  }

  /**
   After the cleanup the owner field is the surviving owner or 0, the count field is the number of
   surviving waiters, the registering field belongs to a survivor, and the need-recover bit is set
   exactly if it was or if the owner died.
   */
  lemma SurvivorsConserved(s: State, dead: seq<Dead>)
    requires Inv(s) && RegisteringOk(Decode(s.word), s.threads) && !IsUnrecoverable(s.word)
    requires Report(s.threads, dead) && !(Mentions(dead, Owner(s.word)) && NeedRecover(s.word) == 1)
    ensures var w := Wrap(s.word + TotalChange(s.word, dead));
            var left := Survivors(s.threads, dead);
            && (forall t :: t in left ==> (IsHolder(left[t]) <==> Owner(w) == t))
            && (Owner(w) == 0 || Owner(w) in left)
            && Count(w) == Sum(Registered, left)
            && RegisteringOk(Decode(w), left)
            && (NeedRecover(w) == 1 <==> NeedRecover(s.word) == 1 || Mentions(dead, Owner(s.word)))
  {
    hide Owner, Count, NeedRecover, Registering, Wrap, LocalsOk, ServerOk, AllReleased;
    var f := Decode(s.word);
    ChargedIsRegistered(f, s.threads, dead);
    CleanupExactly(s.word, s.word, dead);
    RemoveAllClosed(f, dead);
    OwnerNotMask(s);
  }

  lemma OwnerNotMask(s: State)
    requires Inv(s) && !IsUnrecoverable(s.word)
    ensures Owner(s.word) == 0 || Owner(s.word) in s.threads
    ensures Count(s.word) == Sum(Registered, s.threads)
    ensures OwnerOk(Decode(s.word), s.threads)
  {
  }
}
