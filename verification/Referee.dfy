/**
 The lock kept by the referee server for one key (src/lock-referee-server.c), as a value: the
 signed waiter counter, the largest wake value seen so far and the FIFO queue of sleepers.
 */
module Referee {

  /** A client asking to wait: an identity and the smallest wake value that may release it. */
  datatype Waiter = Waiter(id: int, val: int)

  datatype Lock = Lock(nwaiter: int, maxWake: int, queue: seq<Waiter>)

  const FRESH := Lock(0, 0, [])

  /** Does a new waiter find its wake-up already banked? */
  predicate ReturnsAtOnce(l: Lock, w: Waiter) {
    l.nwaiter + 1 <= 0 && l.maxWake >= w.val
  }

  function AddWaiter(l: Lock, w: Waiter): Lock {
    if ReturnsAtOnce(l, w)
    then l.(nwaiter := l.nwaiter + 1)
    else l.(nwaiter := l.nwaiter + 1, queue := l.queue + [w])
  }

  /** The first `num` waiters of the queue whose value is at most `val`, in queue order. */
  function Chosen(q: seq<Waiter>, num: nat, val: int): seq<Waiter> {
    if q == [] || num == 0 then []
    else if q[0].val > val then Chosen(q[1..], num, val)
    else [q[0]] + Chosen(q[1..], num - 1, val)
  }

  /** What remains of the queue, in order, once those are gone. */
  function Left(q: seq<Waiter>, num: nat, val: int): seq<Waiter> {
    if q == [] || num == 0 then q
    else if q[0].val > val then [q[0]] + Left(q[1..], num, val)
    else Left(q[1..], num - 1, val)
  }

  function WakeWaiters(l: Lock, num: nat, val: int): Lock {
    Lock(l.nwaiter - num,
         if l.maxWake < val then val else l.maxWake,
         Left(l.queue, num, val))
  }

  function DropWaiter(l: Lock, i: nat): Lock
    requires i < |l.queue|
  {
    l.(nwaiter := l.nwaiter - 1, queue := l.queue[..i] + l.queue[i + 1..])
  }

  /** The server forgets such a lock at its next sweep and recreates it as `FRESH` on demand. */
  predicate IsUnused(l: Lock) {
    l.nwaiter == 0 && l.queue == []
  }

  predicate AllVal(q: seq<Waiter>, val: int) {
    forall i :: 0 <= i < |q| ==> q[i].val == val
  }

  /** With one common value the selection is a plain prefix of the queue. */
  lemma {:induction false} UniformSelection(q: seq<Waiter>, num: nat, val: int)
    requires AllVal(q, val)
    ensures var k := if num < |q| then num else |q|;
            Chosen(q, num, val) == q[..k] && Left(q, num, val) == q[k..]
  {
    if q != [] && num > 0 {
      UniformSelection(q[1..], num - 1, val);
    }
  }
}
