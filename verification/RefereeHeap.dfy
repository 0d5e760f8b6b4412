/**
 The server's lock as it is stored (src/lock-referee-server.c): waiting clients form a doubly linked
 queue whose nodes live inside the clients, next to the counters of the lock. Every operation is
 proved against the value-level `Referee.Lock`.
 */
module RefereeHeap {
  import opened Referee

  /** A client for the duration of one wait request; its wake value is fixed when the request arrives. */
  class Client {
    const id: int
    const wakeupVal: int
    var prev: Client?
    var next: Client?

    constructor (id: int, wakeupVal: int)
      ensures this.id == id && this.wakeupVal == wakeupVal
    {
      this.id, this.wakeupVal := id, wakeupVal;
      prev, next := null, null;
    }
  }

  class ServerLock {
    var first: Client?
    var last: Client?
    var nwaiter: int
    var maxWakeupVal: int
    ghost var nodes: seq<Client>

    /** `nodes` are the queued clients in order, and the links agree with it in both directions. */
    ghost predicate Valid()
      reads this, nodes
    {
      && (forall i, j :: 0 <= i < j < |nodes| ==> nodes[i] != nodes[j])
      && first == (if nodes == [] then null else nodes[0])
      && last == (if nodes == [] then null else nodes[|nodes| - 1])
      && (forall i {:trigger nodes[i].prev} :: 0 <= i < |nodes| ==>
            nodes[i].prev == if i == 0 then null else nodes[i - 1])
      && (forall i {:trigger nodes[i].next} :: 0 <= i < |nodes| ==>
            nodes[i].next == if i == |nodes| - 1 then null else nodes[i + 1])
    }

    ghost function Queued(): set<Client>
      reads this
    {
      set c | c in nodes
    }

    ghost function View(): Lock
      reads this
    {
      Lock(nwaiter, maxWakeupVal, Waiters(nodes))
    }

    constructor ()
      ensures Valid() && View() == FRESH
    {
      first, last, nwaiter, maxWakeupVal, nodes := null, null, 0, 0, [];
    }

    method AppendToQueue(node: Client)
      requires Valid() && node !in nodes
      modifies this`first, this`last, this`nodes, Queued()`next, node`prev, node`next
      ensures Valid() && nodes == old(nodes) + [node]
    {
      var l := last;
      if first == null {
        first := node;
      } else {
        l.next := node;
      }
      node.prev := l;
      node.next := null;
      last := node;
      nodes := nodes + [node];
    }

    /** The links of the removed node itself are left as they were. */
    method DropFromQueue(node: Client, ghost k: nat)
      requires Valid() && k < |nodes| && nodes[k] == node
      modifies this`first, this`last, this`nodes, Queued()`prev, Queued()`next
      ensures Valid() && nodes == old(nodes[..k] + nodes[k + 1..])
      ensures node.prev == old(node.prev) && node.next == old(node.next)
    {
      var p, n := node.prev, node.next;
      assert p == if k == 0 then null else nodes[k - 1];
      assert n == if k == |nodes| - 1 then null else nodes[k + 1];
      if p != null {
        p.next := n;
      } else {
        first := n;
      }
      if n != null {
        n.prev := p;
      } else {
        last := p;
      }
      nodes := nodes[..k] + nodes[k + 1..];
    }

    /** Returns whether the client is now waiting; if not, its wake-up had been banked. */
    method AddWaiter(tc: Client) returns (waiting: bool)
      requires Valid() && tc !in nodes
      modifies this, Queued()`next, tc`prev, tc`next
      ensures Valid()
      ensures View() == Referee.AddWaiter(old(View()), Waiter(tc.id, tc.wakeupVal))
      ensures waiting == !ReturnsAtOnce(old(View()), Waiter(tc.id, tc.wakeupVal))
      ensures nodes == if waiting then old(nodes) + [tc] else old(nodes)
    {
      nwaiter := nwaiter + 1;
      if nwaiter <= 0 && maxWakeupVal >= tc.wakeupVal {
        return false;
      }
      AppendToQueue(tc);
      return true;
    }

    /** Unlinks the client between those kept and the rest. */
    method TakeOut(node: Client, ghost kept: seq<Waiter>, ghost rest: seq<Waiter>)
      requires Valid() && |kept| < |nodes| && nodes[|kept|] == node && Waiters(nodes) == kept + rest
      modifies this`first, this`last, this`nodes, Queued()`prev, Queued()`next
      ensures Valid() && nodes == old(nodes[..|kept|] + nodes[|kept| + 1..])
      ensures Waiters(nodes) == kept + rest[1..] && node !in nodes && Queued() <= old(Queued())
      ensures node.next == old(node.next)
    {
      Drops(|kept|);
      WaitersDrop(nodes, |kept|);
      DropFromQueue(node, |kept|);
    }

    /** Unlinks, while walking the queue, the first `num` clients whose value allows it. */
    method Unlink(num: nat, val: int) returns (woken: seq<Client>)
      requires Valid()
      modifies this`first, this`last, this`nodes, Queued()`prev, Queued()`next
      ensures Valid()
      ensures Waiters(nodes) == Left(old(Waiters(nodes)), num, val)
      ensures Waiters(woken) == Chosen(old(Waiters(nodes)), num, val)
      ensures forall c :: c in woken ==> c in old(nodes) && c !in nodes
    {
      woken := [];
      var left: nat := num;
      var node := first;
      ghost var before, q := Queued(), Waiters(nodes);
      ghost var kept, rest := [], q;
      while node != null && left > 0
        invariant Valid() && Waiters(nodes) == kept + rest
        invariant node == if rest != [] then nodes[|kept|] else null
        invariant Queued() <= before
        invariant forall c :: c in woken ==> c in before && c !in nodes
        invariant Walking(q, num, val, kept, rest, left, Waiters(woken))
        decreases |rest|
      {
        hide Walking, Valid, Waiters;
        WaitersAt(nodes, |kept|);
        assert rest[0] == Waiters(nodes)[|kept|];
        Follow(|kept|);
        if node.wakeupVal > val {
          Skip(q, num, val, kept, rest, left, Waiters(woken));
          node := node.next;
          kept, rest := kept + [rest[0]], rest[1..];
        } else {
          Take(q, num, val, kept, rest, left, Waiters(woken));
          WaitersSnoc(woken, node);
          TakeOut(node, kept, rest);
          woken := woken + [node];
          left := left - 1;
          node := node.next;
          rest := rest[1..];
        }
      }
    }

    /** Wakes the first `num` clients whose value allows it; what cannot be delivered is banked. */
    method WakeWaiters(num: nat, val: int) returns (woken: seq<Client>)
      requires Valid()
      modifies this, Queued()`prev, Queued()`next
      ensures Valid()
      ensures View() == Referee.WakeWaiters(old(View()), num, val)
      ensures Waiters(woken) == Chosen(old(View()).queue, num, val)
      ensures forall c :: c in woken ==> c in old(nodes) && c !in nodes
    {
      nwaiter := nwaiter - num;
      if maxWakeupVal < val {
        maxWakeupVal := val;
      }
      woken := Unlink(num, val);
    }

    lemma Follow(k: nat)
      requires Valid() && k < |nodes|
      ensures nodes[k].next == if k == |nodes| - 1 then null else nodes[k + 1]
    {
    }

    lemma Drops(k: nat)
      requires Valid() && k < |nodes|
      ensures nodes[k] !in nodes[..k] + nodes[k + 1..]
    {
    }

    method DropWaiter(tc: Client, ghost k: nat)
      requires Valid() && k < |nodes| && nodes[k] == tc
      modifies this, Queued()`prev, Queued()`next
      ensures Valid()
      ensures View() == Referee.DropWaiter(old(View()), k)
    {
      WaitersDrop(nodes, k);
      nwaiter := nwaiter - 1;
      DropFromQueue(tc, k);
    }

    /** The part of `lock_is_unused` that the counters and the queue decide. */
    method IsUnused() returns (unused: bool)
      requires Valid()
      ensures unused == Referee.IsUnused(View())
    {
      unused := nwaiter == 0 && first == null;
    }
  }

  /** The waiting requests of the queued clients. */
  ghost function Waiters(nodes: seq<Client>): (w: seq<Waiter>)
    ensures |w| == |nodes|
  {
    seq(|nodes|, i requires 0 <= i < |nodes| => Waiter(nodes[i].id, nodes[i].wakeupVal))
  }

  lemma WaitersAt(nodes: seq<Client>, k: nat)
    requires k < |nodes|
    ensures Waiters(nodes)[k] == Waiter(nodes[k].id, nodes[k].wakeupVal)
  {
  }

  lemma WaitersSnoc(nodes: seq<Client>, node: Client)
    ensures Waiters(nodes + [node]) == Waiters(nodes) + [Waiter(node.id, node.wakeupVal)]
  {
  }

  lemma WaitersDrop(nodes: seq<Client>, k: nat)
    requires k < |nodes|
    ensures Waiters(nodes[..k] + nodes[k + 1..]) == Waiters(nodes)[..k] + Waiters(nodes)[k + 1..]
  {
  }

  /** The state of the walk: what was kept, what is still ahead and what was woken add up. */
  ghost predicate Walking(q: seq<Waiter>, num: nat, val: int, kept: seq<Waiter>, rest: seq<Waiter>, left: nat,
                          woken: seq<Waiter>) {
    kept + Left(rest, left, val) == Left(q, num, val) && woken + Chosen(rest, left, val) == Chosen(q, num, val)
  }

  lemma Skip(q: seq<Waiter>, num: nat, val: int, kept: seq<Waiter>, rest: seq<Waiter>, left: nat, woken: seq<Waiter>)
    requires Walking(q, num, val, kept, rest, left, woken) && rest != [] && left > 0 && rest[0].val > val
    ensures Walking(q, num, val, kept + [rest[0]], rest[1..], left, woken)
  {
  }

  lemma Take(q: seq<Waiter>, num: nat, val: int, kept: seq<Waiter>, rest: seq<Waiter>, left: nat, woken: seq<Waiter>)
    requires Walking(q, num, val, kept, rest, left, woken) && rest != [] && left > 0 && rest[0].val <= val
    ensures Walking(q, num, val, kept, rest[1..], left - 1, woken + [rest[0]])
  {
  }
}
