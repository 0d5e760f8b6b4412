/**
 Undoing dead threads on a mutex word (src/pshared-lock.c). The referee reports the dead threads of
 a mutex; a client computes, from one snapshot of the word, what each of them left in it, and adds
 the sum of those changes to the word in one atomic step.
 */
module CrashUndo {
  import opened LockWord

  datatype Dead = Dead(tid: Tid, isWaiter: bool)

  /** The difference that undoes one dead thread. */
  function LockvalChange(w: Word, d: Dead): int {
    if Owner(w) == d.tid then TWO40 - MtxLockval(d.tid, 0, 0)
    else if Registering(w) == d.tid then 0 - MtxLockval(0, d.tid, 1)
    else if d.isWaiter then 0 - MtxLockval(0, 0, 1)
    else 0
  }

  ghost function TotalChange(w: Word, dead: seq<Dead>): int {
    if dead == [] then 0 else LockvalChange(w, dead[0]) + TotalChange(w, dead[1..])
  }

  /** What removing one dead thread means for the fields. */
  ghost function Remove(f: Fields, d: Dead): Fields {
    if f.owner == d.tid then f.(owner := 0, recover := 1)
    else if f.registering == d.tid then f.(registering := 0, count := f.count - 1)
    else if d.isWaiter then f.(count := f.count - 1)
    else f
  }

  /** Removing the dead threads one after the other, each from what the previous removal left. */
  ghost function RemoveAll(f: Fields, dead: seq<Dead>): Fields
    decreases |dead|
  {
    if dead == [] then f else RemoveAll(Remove(f, dead[0]), dead[1..])
  }

  ghost predicate Distinct(dead: seq<Dead>) {
    forall i, j :: 0 <= i < j < |dead| ==> dead[i].tid != dead[j].tid
  }

  ghost predicate Mentions(dead: seq<Dead>, id: int) {
    exists i :: 0 <= i < |dead| && dead[i].tid == id
  }

  /** Number of dead threads that are counted as waiters. */
  ghost function Charged(f: Fields, dead: seq<Dead>): nat {
    if dead == [] then 0
    else (if dead[0].tid != f.owner && (dead[0].tid == f.registering || dead[0].isWaiter) then 1 else 0)
         + Charged(f, dead[1..])
  }

  /** The word after all removals, in closed form: every contribution of a live thread is still there. */
  ghost function Undone(f: Fields, dead: seq<Dead>): Fields {
    Fields(if Mentions(dead, f.owner) then 0 else f.owner,
           f.count - Charged(f, dead),
           if Mentions(dead, f.owner) then 1 else f.recover,
           if f.registering != f.owner && Mentions(dead, f.registering) then 0 else f.registering)
  }

  lemma MentionsSplit(dead: seq<Dead>, id: int)
    requires dead != []
    ensures Mentions(dead, id) <==> dead[0].tid == id || Mentions(dead[1..], id)
  {
    if Mentions(dead[1..], id) {
      var i :| 0 <= i < |dead[1..]| && dead[1..][i].tid == id;
      assert dead[i + 1].tid == id;
    }
    if Mentions(dead, id) && dead[0].tid != id {
      var i :| 0 <= i < |dead| && dead[i].tid == id;
      assert dead[1..][i - 1].tid == id;
    }
  }

  /** Removing one thread does not change what the others are charged for. */
  lemma {:induction false} ChargedStable(f: Fields, d: Dead, dead: seq<Dead>)
    requires !Mentions(dead, d.tid)
    ensures Charged(Remove(f, d), dead) == Charged(f, dead)
  {
    if dead != [] {
      MentionsSplit(dead, d.tid);
      ChargedStable(f, d, dead[1..]);
    }
  }

  lemma {:induction false} RemoveAllClosed(f: Fields, dead: seq<Dead>)
    requires Distinct(dead) && f.owner >= 0 && f.registering >= 0
    ensures RemoveAll(f, dead) == Undone(f, dead)
    decreases |dead|
  {
    if dead == [] {
    } else {
      var d, rest := dead[0], dead[1..];
      assert !Mentions(rest, d.tid) && !Mentions(rest, 0);
      var f1 := Remove(f, d);
      RemoveAllClosed(f1, rest);
      ChargedStable(f, d, rest);
      MentionsSplit(dead, f.owner);
      MentionsSplit(dead, f.registering);
    }
  }

  /** The sum of the changes seen by one snapshot, in closed form. */
  lemma {:induction false} TotalChangeClosed(w: Word, dead: seq<Dead>)
    requires Distinct(dead)
    ensures var f := Decode(w);
            TotalChange(w, dead) == (if Mentions(dead, f.owner) then TWO40 - f.owner else 0)
              - Charged(f, dead) * TWO32
              - (if f.registering != f.owner && Mentions(dead, f.registering) then f.registering * TWO41 else 0)
  {
    if dead == [] {
    } else {
      var f := Decode(w);
      TotalChangeClosed(w, dead[1..]);
      assert !Mentions(dead[1..], dead[0].tid);
      MentionsSplit(dead, f.owner);
      MentionsSplit(dead, f.registering);
    }
  }

  /** Live threads may have moved on since the snapshot, but a dead thread still stands where it stood. */
  ghost predicate SameDead(snapshot: Word, current: Word, dead: seq<Dead>) {
    forall i :: 0 <= i < |dead| ==>
      && (Owner(snapshot) == dead[i].tid <==> Owner(current) == dead[i].tid)
      && (Registering(snapshot) == dead[i].tid <==> Registering(current) == dead[i].tid)
  }

  lemma {:induction false} TotalChangeSame(snapshot: Word, current: Word, dead: seq<Dead>)
    requires SameDead(snapshot, current, dead)
    ensures TotalChange(snapshot, dead) == TotalChange(current, dead)
  {
    if dead != [] {
      assert SameDead(snapshot, current, dead[1..]) by {
        forall i | 0 <= i < |dead[1..]|
          ensures (Owner(snapshot) == dead[1..][i].tid <==> Owner(current) == dead[1..][i].tid)
               && (Registering(snapshot) == dead[1..][i].tid <==> Registering(current) == dead[1..][i].tid) {
          assert dead[1..][i] == dead[i + 1];
        }
      }
      TotalChangeSame(snapshot, current, dead[1..]);
    }
  }

  lemma WrapInto(x: int, w: Word)
    requires x == w || x == w + TWO64
    ensures Wrap(x) == w
  {
  }

  /** The one addition, on the fields: only a second mark for recovery carries out of its bit. */
  lemma AddUndone(w: Word, ownerDead: bool, charged: nat, registeringDead: bool)
    requires charged <= Count(w)
    ensures var f := Decode(w);
            var u := Fields(if ownerDead then 0 else f.owner, f.count - charged, if ownerDead then 1 else f.recover,
                            if registeringDead then 0 else f.registering);
            var delta := (if ownerDead then TWO40 - f.owner else 0) - charged * TWO32
                         - (if registeringDead then f.registering * TWO41 else 0);
            Decode(Wrap(w + delta)) == u <==> !(ownerDead && f.recover == 1)
  {
    hide Owner, Count, NeedRecover, Registering, Wrap;
    PackDecode(w);
    var f := Decode(w);
    var delta := (if ownerDead then TWO40 - f.owner else 0) - charged * TWO32
                 - (if registeringDead then f.registering * TWO41 else 0);
    var u := Fields(if ownerDead then 0 else f.owner, f.count - charged, if ownerDead then 1 else f.recover,
                    if registeringDead then 0 else f.registering);
    if ownerDead && f.recover == 1 {
      var carried := u.(recover := 0, registering := if u.registering + 1 == TWO23 then 0 else u.registering + 1);
      assert w + delta == Pack(carried) + if u.registering + 1 == TWO23 then TWO64 else 0;
      DecodePack(carried);
      WrapInto(w + delta, Pack(carried));
    } else {
      assert w + delta == Pack(u);
      DecodePack(u);
      WrapInto(w + delta, Pack(u));
    }
  }

  /**
   Adding the sum computed from one snapshot equals removing the dead threads one at a time, exactly
   when no dead owner leaves a mutex that was already waiting for recovery.
   */
  lemma CleanupExactly(snapshot: Word, current: Word, dead: seq<Dead>)
    requires Distinct(dead) && SameDead(snapshot, current, dead)
    requires Charged(Decode(current), dead) <= Count(current)
    ensures Decode(Wrap(current + TotalChange(snapshot, dead))) == RemoveAll(Decode(current), dead)
       <==> !(Mentions(dead, Owner(current)) && NeedRecover(current) == 1)
  {
    hide Owner, Count, NeedRecover, Registering, Wrap;
    var f := Decode(current);
    TotalChangeSame(snapshot, current, dead);
    TotalChangeClosed(current, dead);
    RemoveAllClosed(f, dead);
    AddUndone(current, Mentions(dead, f.owner), Charged(f, dead),
              f.registering != f.owner && Mentions(dead, f.registering));
  }

  // ---------------------------------------------------------------- any order

  lemma {:induction false} ChargedRemoveAt(f: Fields, dead: seq<Dead>, i: nat)
    requires i < |dead|
    ensures Charged(f, dead) == Charged(f, [dead[i]]) + Charged(f, dead[..i] + dead[i + 1..])
  {
    if i == 0 {
      assert dead[..0] + dead[1..] == dead[1..];
      assert Charged(f, [dead[0]][1..]) == 0;
    } else {
      var rest := dead[..i] + dead[i + 1..];
      assert rest[1..] == dead[1..][..i - 1] + dead[1..][i..];
      ChargedRemoveAt(f, dead[1..], i - 1);
    }
  }

  lemma RemoveAtMultiset(dead: seq<Dead>, i: nat)
    requires i < |dead|
    ensures multiset(dead[..i] + dead[i + 1..]) == multiset(dead) - multiset{dead[i]}
  {
    assert dead == dead[..i] + [dead[i]] + dead[i + 1..];
  }

  lemma Find(dead: seq<Dead>, d: Dead) returns (i: nat)
    requires d in multiset(dead)
    ensures i < |dead| && dead[i] == d
  {
    i :| i < |dead| && dead[i] == d;
  }

  lemma StillPermuted(a: seq<Dead>, b: seq<Dead>, i: nat)
    requires multiset(a) == multiset(b) && a != [] && i < |b| && b[i] == a[0]
    ensures multiset(a[1..]) == multiset(b[..i] + b[i + 1..])
  {
    RemoveAtMultiset(a, 0);
    RemoveAtMultiset(b, i);
    assert a[..0] + a[1..] == a[1..];
  }

  lemma {:induction false} ChargedPermutes(f: Fields, a: seq<Dead>, b: seq<Dead>)
    requires multiset(a) == multiset(b)
    ensures Charged(f, a) == Charged(f, b)
  {
    assert |a| == |multiset(a)| && |b| == |multiset(b)|;
    if a == [] {
      assert b == [];
    } else {
      hide Charged;
      var i := Find(b, a[0]) by { assert a[0] in multiset(a); }
      StillPermuted(a, b, i);
      assert a[..0] + a[1..] == a[1..];
      ChargedPermutes(f, a[1..], b[..i] + b[i + 1..]);
      ChargedRemoveAt(f, b, i);
      ChargedRemoveAt(f, a, 0);
    }
  }

  lemma MentionsPermutes(a: seq<Dead>, b: seq<Dead>, id: int)
    requires multiset(a) == multiset(b) && Mentions(a, id)
    ensures Mentions(b, id)
  {
    var i :| 0 <= i < |a| && a[i].tid == id;
    assert a[i] in multiset(b);
  }

  /** The order in which dead threads are removed does not matter. */
  lemma RemovalOrder(f: Fields, a: seq<Dead>, b: seq<Dead>)
    requires Distinct(a) && Distinct(b) && multiset(a) == multiset(b) && f.owner >= 0 && f.registering >= 0
    ensures RemoveAll(f, a) == RemoveAll(f, b)
  {
    RemoveAllClosed(f, a);
    RemoveAllClosed(f, b);
    ChargedPermutes(f, a, b);
    forall id ensures Mentions(a, id) <==> Mentions(b, id) {
      if Mentions(a, id) { MentionsPermutes(a, b, id); }
      if Mentions(b, id) { MentionsPermutes(b, a, id); }
    }
  }

  // ---------------------------------------------------------------- the cleanup job

  lemma {:induction false} TotalChangeSnoc(w: Word, dead: seq<Dead>, d: Dead)
    ensures TotalChange(w, dead + [d]) == TotalChange(w, dead) + LockvalChange(w, d)
  {
    if dead == [] {
      assert ([d])[1..] == [];
    } else {
      assert (dead + [d])[1..] == dead[1..] + [d];
      TotalChangeSnoc(w, dead[1..], d);
    }
  }

  lemma WrapAdd(a: int, b: int)
    ensures Wrap(Wrap(a) + b) == Wrap(a + b) && Wrap(b + Wrap(a)) == Wrap(a + b)
  {
    var k := a / TWO64;
    assert a == TWO64 * k + Wrap(a);
    assert (Wrap(a) + b) - (a + b) == TWO64 * (-k);
  }

  /**
   The whole job: `current` is the word met by the atomic addition, after `snapshot` was read. The
   reply asks for one wake-up exactly when waiters remain on a mutex left without an owner.
   */
  method CleanupMutexLock(snapshot: Word, current: Word, dead: seq<Dead>) returns (lockval: Word, numWakeup: nat)
    ensures lockval == Wrap(current + TotalChange(snapshot, dead))
    ensures numWakeup == if Count(lockval) > 0 && Owner(lockval) == 0 then 1 else 0
    ensures
      && Distinct(dead) && SameDead(snapshot, current, dead) && Charged(Decode(current), dead) <= Count(current)
      && !(Mentions(dead, Owner(current)) && NeedRecover(current) == 1)
      ==> Decode(lockval) == RemoveAll(Decode(current), dead) == Undone(Decode(current), dead)
  {
    var cleanupVal: Word := 0;
    for i := 0 to |dead|
      invariant cleanupVal == Wrap(TotalChange(snapshot, dead[..i]))
    {
      assert dead[..i + 1] == dead[..i] + [dead[i]];
      TotalChangeSnoc(snapshot, dead[..i], dead[i]);
      WrapAdd(TotalChange(snapshot, dead[..i]), LockvalChange(snapshot, dead[i]));
      cleanupVal := Wrap(cleanupVal + LockvalChange(snapshot, dead[i]));
    }
    assert dead[..|dead|] == dead;
    WrapAdd(TotalChange(snapshot, dead), current);
    lockval := Wrap(current + cleanupVal);
    if Distinct(dead) && SameDead(snapshot, current, dead) && Charged(Decode(current), dead) <= Count(current) {
      CleanupExactly(snapshot, current, dead);
      RemoveAllClosed(Decode(current), dead);
    }
    numWakeup := if IsWaited(lockval) && !IsLocked(lockval) then 1 else 0;
  }
}
