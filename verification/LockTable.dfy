/**
 The server's table of locks (src/lock-referee-server.c): an array sorted by key that is searched by
 bisection, grows by doubling and is compacted in place by the sweep of unused locks. Over its live
 elements it is a finite map from keys to locks.
 */
module LockTable {
  import opened Referee

  /** One element; `job` tells whether a cleanup job is attached. */
  datatype Entry = Entry(key: int, lock: Lock, job: bool)

  const KEY_NOTFOUND := 0x8000_0000
  const INITIAL_LEN := 128

  function NewEntry(key: int): Entry {
    Entry(key, FRESH, false)
  }

  predicate InUse(e: Entry) {
    !IsUnused(e.lock) || e.job
  }

  ghost predicate Sorted(s: seq<Entry>) {
    forall i, j :: 0 <= i < j < |s| ==> s[i].key < s[j].key
  }

  /** The map that a sorted sequence of entries stands for. */
  ghost function Table(s: seq<Entry>): map<int, Entry>
    requires Sorted(s)
  {
    map i | 0 <= i < |s| :: s[i].key := s[i]
  }

  /** The entries still in use, in order. */
  ghost function Kept(s: seq<Entry>): seq<Entry> {
    if s == [] then [] else Kept(s[..|s| - 1]) + if InUse(s[|s| - 1]) then [s[|s| - 1]] else []
  }

  lemma {:induction false} KeptMembers(s: seq<Entry>, e: Entry)
    ensures e in Kept(s) <==> e in s && InUse(e)
  {
    if s != [] {
      var front := s[..|s| - 1];
      KeptMembers(front, e);
      assert s == front + [s[|s| - 1]];
    }
  }

  lemma {:induction false} KeptSorted(s: seq<Entry>)
    requires Sorted(s)
    ensures Sorted(Kept(s)) && |Kept(s)| <= |s|
  {
    if s != [] {
      var front, e := s[..|s| - 1], s[|s| - 1];
      KeptSorted(front);
      forall i | 0 <= i < |Kept(front)| ensures Kept(front)[i].key < e.key {
        KeptMembers(front, Kept(front)[i]);
      }
    }
  }

  lemma KeptSnoc(s: seq<Entry>, i: nat)
    requires i < |s|
    ensures Kept(s[..i + 1]) == Kept(s[..i]) + if InUse(s[i]) then [s[i]] else []
  {
    assert s[..i + 1][..i] == s[..i];
  }

  /** Position and content of a key of the map. */
  lemma TableIndex(s: seq<Entry>, key: int) returns (i: nat)
    requires Sorted(s) && key in Table(s)
    ensures i < |s| && s[i].key == key && Table(s)[key] == s[i]
  {
    i :| i < |s| && s[i].key == key;
  }

  lemma TableHas(s: seq<Entry>, e: Entry)
    requires Sorted(s) && e in s
    ensures e.key in Table(s) && Table(s)[e.key] == e
  {
  }

  /** On the map, the sweep forgets exactly the unused locks. */
  lemma KeptTable(s: seq<Entry>, key: int)
    requires Sorted(s)
    ensures Sorted(Kept(s))
    ensures key in Table(Kept(s)) <==> key in Table(s) && InUse(Table(s)[key])
    ensures key in Table(Kept(s)) ==> Table(Kept(s))[key] == Table(s)[key]
  {
    KeptSorted(s);
    if key in Table(Kept(s)) {
      var i := TableIndex(Kept(s), key);
      KeptMembers(s, Kept(s)[i]);
      TableHas(s, Kept(s)[i]);
    }
    if key in Table(s) {
      var i := TableIndex(s, key);
      KeptMembers(s, s[i]);
      if InUse(s[i]) { TableHas(Kept(s), s[i]); }
    }
  }

  /** Where `key` is, or the only place where it may be inserted. */
  ghost predicate Located(s: seq<Entry>, key: int, r: int) {
    if r >= 0 then r < |s| && s[r].key == key
    else
      var p := r + KEY_NOTFOUND;
      0 <= p <= |s| && (forall i :: 0 <= i < p ==> s[i].key < key) && (forall i :: p <= i < |s| ==> key < s[i].key)
  }

  ghost function Inserted(s: seq<Entry>, key: int, p: nat): seq<Entry>
    requires p <= |s|
  {
    s[..p] + [NewEntry(key)] + s[p..]
  }

  lemma InsertSorted(s: seq<Entry>, key: int, p: nat)
    requires Sorted(s) && p <= |s| < KEY_NOTFOUND && Located(s, key, p - KEY_NOTFOUND)
    ensures Sorted(Inserted(s, key, p))
    ensures forall e :: e in Inserted(s, key, p) <==> e == NewEntry(key) || e in s
  {
    assert s == s[..p] + s[p..];
    assert NewEntry(key) in [NewEntry(key)];
  }

  /** Inserting at the place found keeps the order and adds the key to the map. */
  lemma InsertTable(s: seq<Entry>, key: int, p: nat)
    requires Sorted(s) && p <= |s| < KEY_NOTFOUND && Located(s, key, p - KEY_NOTFOUND)
    ensures Sorted(Inserted(s, key, p))
    ensures key !in Table(s)
    ensures Table(Inserted(s, key, p)) == Table(s)[key := NewEntry(key)]
  {
    hide Inserted, Table;
    InsertSorted(s, key, p);
    var t := Inserted(s, key, p);
    if key in Table(s) {
      var i := TableIndex(s, key);
    }
    TableHas(t, NewEntry(key));
    forall k | k in Table(t) ensures k == key || (k in Table(s) && Table(t)[k] == Table(s)[k]) {
      var i := TableIndex(t, k);
      if k != key { TableHas(s, t[i]); }
    }
    forall k | k in Table(s) ensures k in Table(t) {
      var i := TableIndex(s, k);
      TableHas(t, s[i]);
    }
  }

  // ---------------------------------------------------------------- the requests on the table

  /** A wait or wake request, a drop, the attachment of a cleanup job, each for one key, or the sweep. */
  datatype Request =
    | Ask(key: int, w: Waiter)
    | Rouse(key: int, num: nat, val: int)
    | Forget(key: int, i: nat)
    | SetJob(key: int, on: bool)
    | SweepAll

  function Lookup(t: map<int, Entry>, key: int): Entry {
    if key in t then t[key] else NewEntry(key)
  }

  function TableStep(t: map<int, Entry>, r: Request): map<int, Entry> {
    match r
    case Ask(key, w) => t[key := Lookup(t, key).(lock := AddWaiter(Lookup(t, key).lock, w))]
    case Rouse(key, num, val) => t[key := Lookup(t, key).(lock := WakeWaiters(Lookup(t, key).lock, num, val))]
    case Forget(key, i) =>
      if key in t && i < |t[key].lock.queue| then t[key := t[key].(lock := DropWaiter(t[key].lock, i))] else t
    case SetJob(key, on) =>
      if on then t[key := Lookup(t, key).(job := true)] else if key in t then t[key := t[key].(job := false)] else t
    case SweepAll => map key | key in t && InUse(t[key]) :: t[key]
  }

  lemma UpdateTable(s: seq<Entry>, i: nat, e: Entry)
    requires Sorted(s) && i < |s| && e.key == s[i].key
    ensures Sorted(s[i := e]) && Table(s[i := e]) == Table(s)[e.key := e]
  {
    hide Table;
    var t := s[i := e];
    assert forall j :: 0 <= j < |s| ==> t[j].key == s[j].key;
    TableHas(s, s[i]);
    forall k | k in Table(t) ensures k in Table(s)[e.key := e] && Table(t)[k] == Table(s)[e.key := e][k] {
      var j := TableIndex(t, k);
      if j != i { TableHas(s, s[j]); }
    }
    forall k | k in Table(s) ensures k in Table(t) {
      var j := TableIndex(s, k);
      TableHas(t, t[j]);
    }
  }

  lemma SweepTable(s: seq<Entry>)
    requires Sorted(s)
    ensures Sorted(Kept(s)) && Table(Kept(s)) == TableStep(Table(s), SweepAll)
  {
    hide Table, Kept;
    KeptSorted(s);
    forall key ensures (key in Table(Kept(s)) <==> key in Table(s) && InUse(Table(s)[key]))
                    && (key in Table(Kept(s)) ==> Table(Kept(s))[key] == Table(s)[key]) {
      KeptTable(s, key);
    }
  }

  class LockArray {
    var numUsed: nat
    var numMax: nat
    var sortedArray: array<Entry>

    ghost predicate Valid()
      reads this, sortedArray
    {
      && numUsed <= numMax == sortedArray.Length && 0 < numMax
      && numUsed < KEY_NOTFOUND
      && Sorted(sortedArray[..numUsed])
    }

    ghost function Live(): seq<Entry>
      reads this, sortedArray
      requires Valid()
    {
      sortedArray[..numUsed]
    }

    constructor ()
      ensures Valid() && fresh(sortedArray) && Live() == []
    {
      sortedArray := new Entry[INITIAL_LEN](i => NewEntry(0));
      numUsed, numMax := 0, INITIAL_LEN;
    }

    /** Bisection over the live elements. */
    method SearchKeyIndex(key: int) returns (r: int)
      requires Valid()
      ensures Located(Live(), key, r)
      ensures r >= 0 <==> key in Table(Live())
    {
      var l, h := 0, numUsed - 1;
      while l <= h
        invariant 0 <= l <= h + 1 <= numUsed
        invariant forall i :: 0 <= i < l ==> sortedArray[i].key < key
        invariant forall i :: h < i < numUsed ==> key < sortedArray[i].key
      {
        var m := (l + h) / 2;
        if key == sortedArray[m].key {
          assert Live()[m].key == key;
          return m;
        }
        if key < sortedArray[m].key {
          h := m - 1;
        } else {
          l := m + 1;
        }
      }
      return l - KEY_NOTFOUND;
    }

    /** The array is full, so that one more element needs a larger one. */
    predicate Full()
      reads this
    {
      numUsed + 1 > numMax
    }

    /**
     Doubles the array when one more element would not fit; `memory` tells whether the allocator can. If
     it cannot, the recorded size has been doubled all the same, while the array has not grown.
     */
    method MakeRoom(memory: bool) returns (ok: bool)
      requires Valid()
      modifies this`numMax, this`sortedArray
      ensures ok <==> memory || !old(Full())
      ensures ok ==> Valid() && Live() == old(Live()) && numUsed < numMax
      ensures sortedArray == old(sortedArray) || fresh(sortedArray)
      ensures !ok ==> sortedArray == old(sortedArray) && numMax == 2 * sortedArray.Length
    {
      if numUsed + 1 > numMax {
        numMax := numMax * 2;
        if !memory {
          return false;
        }
        var bigger := new Entry[numMax](i requires 0 <= i < numMax reads this, sortedArray =>
                                          if i < sortedArray.Length then sortedArray[i] else NewEntry(0));
        sortedArray := bigger;
        assert sortedArray[..numUsed] == old(sortedArray[..numUsed]);
      }
      return true;
    }

    /**
     Get or create: the index of the lock of `key`, or -1 when it is absent and not to be created, or when
     the array cannot grow. The recorded size stays that of the array exactly if growing did not fail.
     */
    method GetLock(key: int, create: bool, memory: bool) returns (index: int)
      requires Valid() && numUsed + 1 < KEY_NOTFOUND
      modifies this, sortedArray
      ensures sortedArray == old(sortedArray) || fresh(sortedArray)
      ensures Valid() <==> memory || !create || key in Table(old(Live())) || !old(Full())
      ensures Valid() ==>
                Table(Live()) == if key in Table(old(Live())) || !create then Table(old(Live()))
                                 else Table(old(Live()))[key := NewEntry(key)]
      ensures Valid() ==> (index == -1 <==> key !in Table(Live()))
      ensures Valid() && index != -1 ==> 0 <= index < |Live()| && Live()[index].key == key
      ensures !Valid() ==> index == -1 && numUsed == old(numUsed) && sortedArray == old(sortedArray)
                           && sortedArray[..] == old(sortedArray[..]) && numMax == 2 * sortedArray.Length
    {
      index := SearchKeyIndex(key);
      if index < 0 {
        if !create {
          return -1;
        }
        index := index + KEY_NOTFOUND;
        ghost var before := Live();
        var ok := MakeRoom(memory);
        if !ok {
          return -1;
        }
        InsertTable(before, key, index);
        InsertAt(index, key);
        assert Live()[index].key == key;
      }
    }

    /** Shifts the tail by one and fills the gap. */
    method InsertAt(index: nat, key: int)
      requires Valid() && numUsed < numMax && numUsed + 1 < KEY_NOTFOUND
      requires index <= numUsed && Sorted(Inserted(Live(), key, index))
      modifies this`numUsed, sortedArray
      ensures Valid() && Live() == Inserted(old(Live()), key, index)
      ensures sortedArray == old(sortedArray)
    {
      ghost var before := Live();
      numUsed := numUsed + 1;
      var locks := sortedArray;
      forall i | index < i < numUsed {
        locks[i] := locks[i - 1];
      }
      locks[index] := NewEntry(key);
      assert sortedArray[..numUsed] == Inserted(before, key, index);
    }

    /** Drops the unused locks; exactly the locks in use stay, in order. */
    method DropUnused()
      requires Valid()
      modifies this`numUsed, sortedArray
      ensures Valid() && Live() == Kept(old(Live()))
    {
      KeptSorted(Live());
      numUsed := Compact(sortedArray, numUsed);
    }

    method SetEntry(index: nat, e: Entry)
      requires Valid() && index < |Live()| && e.key == Live()[index].key
      modifies sortedArray
      ensures Valid() && Live() == old(Live())[index := e] && Table(Live()) == Table(old(Live()))[e.key := e]
    {
      UpdateTable(Live(), index, e);
      sortedArray[index] := e;
      assert sortedArray[..numUsed] == old(sortedArray[..numUsed])[index := e];
    }

    /** The entry of the key, created if need be, with its lock or its job changed. */
    method Change(key: int, e: Entry -> Entry)
      requires Valid() && numUsed + 1 < KEY_NOTFOUND && forall x: Entry :: e(x).key == x.key
      modifies this, sortedArray
      ensures Valid() && Table(Live()) == Table(old(Live()))[key := e(Lookup(Table(old(Live())), key))]
      ensures sortedArray == old(sortedArray) || fresh(sortedArray)
    {
      hide Table, Sorted;
      var index := GetLock(key, true, true);
      var entry := sortedArray[index];
      assert entry == Live()[index];
      TableHas(Live(), entry);
      SetEntry(index, e(entry));
    }

    /** Serves one request: find or create the lock, and change it. */
    method Serve(r: Request)
      requires Valid() && numUsed + 1 < KEY_NOTFOUND
      modifies this, sortedArray
      ensures Valid() && Table(Live()) == TableStep(Table(old(Live())), r)
      ensures sortedArray == old(sortedArray) || fresh(sortedArray)
    {
      hide Table;
      match r {
        case Ask(key, w) =>
          Change(key, (x: Entry) => x.(lock := AddWaiter(x.lock, w)));
        case Rouse(key, num, val) =>
          Change(key, (x: Entry) => x.(lock := WakeWaiters(x.lock, num, val)));
        case Forget(key, i) =>
          var index := GetLock(key, false, true);
          if index != -1 {
            var entry := sortedArray[index];
            assert entry == Live()[index];
            TableHas(Live(), entry);
            if i < |entry.lock.queue| {
              SetEntry(index, entry.(lock := DropWaiter(entry.lock, i)));
            }
          }
        case SetJob(key, on) =>
          if on {
            Change(key, (x: Entry) => x.(job := true));
          } else {
            var index := GetLock(key, false, true);
            if index != -1 {
              var entry := sortedArray[index];
              assert entry == Live()[index];
              TableHas(Live(), entry);
              SetEntry(index, entry.(job := false));
            }
          }
        case SweepAll =>
          SweepTable(Live());
          DropUnused();
      }
    }
  }

  /** The element-wise copy: `dst` runs behind `src`, over the elements in use. */
  method Compact(locks: array<Entry>, numUsed: nat) returns (dst: nat)
    requires numUsed <= locks.Length
    modifies locks
    ensures dst <= numUsed && locks[..dst] == Kept(old(locks[..numUsed]))
  {
    ghost var before := locks[..numUsed];
    var src := 0;
    dst := 0;
    while src < numUsed
      invariant dst <= src <= numUsed
      invariant locks[..dst] == Kept(before[..src])
      invariant forall i :: src <= i < numUsed ==> locks[i] == before[i]
    {
      hide Kept;
      KeptSnoc(before, src);
      if !IsUnused(locks[src].lock) || locks[src].job {
        if src != dst {
          locks[dst] := locks[src];
        }
        assert locks[..dst + 1] == locks[..dst] + [before[src]];
        dst := dst + 1;
      }
      src := src + 1;
    }
    assert before[..numUsed] == before;
  }
}
