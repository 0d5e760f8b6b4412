/**
 The 64-bit word of a process-shared mutex (src/mutex-lockval.h).

 The word packs four fields, from the least significant bit: the id of the owning thread
 (bits 0-31), the number of registered waiters (bits 32-39), the need-recover bit (bit 40) and
 the id of the thread that is changing the waiter count (bits 41-63). A word is modelled by its
 unsigned 64-bit value; every addition and subtraction wraps explicitly modulo 2^64, and a mask
 over a contiguous bit range is written with the matching division and remainder.
 */
module LockWord {

  const TWO23 := 0x80_0000
  const TWO32 := 0x1_0000_0000
  const TWO40 := 0x100_0000_0000
  const TWO41 := 0x200_0000_0000
  const TWO64 := 0x1_0000_0000_0000_0000

  const OWNER_MASK := 0xFFFF_FFFF
  const MAX_COUNT := 255

  type Word = w: int | 0 <= w < TWO64

  /** Thread ids in use: non-zero and small enough for the 23-bit registering field. */
  type Tid = t: int | 0 < t < TWO23 witness 1

  function Wrap(x: int): Word {
    x % TWO64
  }

  function Owner(w: Word): int {
    w % TWO32
  }

  function Count(w: Word): int {
    w / TWO32 % 256
  }

  function NeedRecover(w: Word): int {
    w / TWO40 % 2
  }

  function Registering(w: Word): int {
    w / TWO41
  }

  /** `w & ~MTX_OWNER_TID_MASK` */
  function ClearOwner(w: Word): Word {
    w - w % TWO32
  }

  /** `w & ~MTX_WAITER_TID_MASK` */
  function ClearRegistering(w: Word): Word {
    w % TWO41
  }

  function MtxLockval(owner: int, waiter: int, nwaiter: int): Word
    requires 0 <= owner < TWO32 && 0 <= waiter < TWO23 && 0 <= nwaiter <= MAX_COUNT
  {
    owner + nwaiter * TWO32 + waiter * TWO41
  }

  predicate IsWaited(w: Word) {
    Count(w) != 0
  }

  predicate IsLocked(w: Word) {
    Owner(w) != 0
  }

  predicate IsWaiterListFull(w: Word) {
    Count(w) == MAX_COUNT
  }

  predicate IsOwnerDead(w: Word) {
    NeedRecover(w) == 1
  }

  predicate IsUnrecoverable(w: Word) {
    Owner(w) == OWNER_MASK && NeedRecover(w) == 1
  }

  /** The four fields, kept apart. */
  datatype Fields = Fields(owner: int, count: int, recover: int, registering: int)

  ghost predicate InRange(f: Fields) {
    0 <= f.owner < TWO32 && 0 <= f.count <= MAX_COUNT && 0 <= f.recover <= 1 && 0 <= f.registering < TWO23
  }

  function Pack(f: Fields): int {
    f.owner + f.count * TWO32 + f.recover * TWO40 + f.registering * TWO41
  }

  function Decode(w: Word): (f: Fields)
    ensures InRange(f)
  {
    Fields(Owner(w), Count(w), NeedRecover(w), Registering(w))
  }

  lemma DecodePack(f: Fields)
    requires InRange(f)
    ensures 0 <= Pack(f) < TWO64
    ensures Decode(Pack(f)) == f
  {
    var w := Pack(f);
    assert w == f.owner + TWO32 * (f.count + 256 * (f.recover + 2 * f.registering));
    assert w / TWO32 == f.count + 256 * (f.recover + 2 * f.registering);
    assert w / TWO40 == f.recover + 2 * f.registering;
    assert w / TWO41 == f.registering;
  }

  lemma PackDecode(w: Word)
    ensures Pack(Decode(w)) == w
  {
    var a := w / TWO32;
    var b := w / TWO40;
    assert w == Owner(w) + TWO32 * a;
    assert a / 256 == b;
    assert a == Count(w) + 256 * b;
    assert b / 2 == w / TWO41;
    assert b == NeedRecover(w) + 2 * Registering(w);
  }

  lemma DecodeOf(w: Word, f: Fields)
    requires InRange(f) && w == Pack(f)
    ensures Decode(w) == f
  {
    DecodePack(f);
  }

  // ---------------------------------------------------------------- field isolation

  lemma MasksIsolateFields(w: Word)
    ensures Decode(ClearOwner(w)) == Decode(w).(owner := 0)
    ensures Decode(ClearRegistering(w)) == Decode(w).(registering := 0)
    ensures Decode(ClearOwner(ClearRegistering(w))) == Decode(w).(owner := 0, registering := 0)
  {
    PackDecode(w);
    DecodeOf(ClearOwner(w), Decode(w).(owner := 0));
    DecodeOf(ClearRegistering(w), Decode(w).(registering := 0));
    DecodeOf(ClearOwner(ClearRegistering(w)), Decode(w).(owner := 0, registering := 0));
  }

  /** Registering a waiter adds one to the count and stores the id; a full count would carry. */
  lemma RegisterFields(w: Word, tid: Tid)
    ensures Decode(Wrap(ClearRegistering(w) + MtxLockval(0, tid, 1)))
         == Decode(w).(count := Count(w) + 1, registering := tid)
       <==> !IsWaiterListFull(w)
  {
    PackDecode(w);
    var f := Decode(w);
    if !IsWaiterListFull(w) {
      DecodeOf(Wrap(ClearRegistering(w) + MtxLockval(0, tid, 1)), f.(count := f.count + 1, registering := tid));
    }
  }

  /** Releasing the registration only touches the topmost field, modulo 2^23. */
  lemma ReleaseFields(w: Word, tid: Tid)
    ensures Decode(Wrap(w - MtxLockval(0, tid, 0)))
         == Decode(w).(registering := (Registering(w) - tid) % TWO23)
  {
    PackDecode(w);
    var f := Decode(w);
    DecodeOf(Wrap(w - MtxLockval(0, tid, 0)), f.(registering := (f.registering - tid) % TWO23));
  }

  /** The increment used by a thread that acquires without being counted as a waiter. */
  function PlainInc(tid: Tid): Word {
    MtxLockval(tid, 0, 0)
  }

  /** The increment used by a registered waiter: its id minus one waiter. */
  function WaiterInc(tid: Tid): Word {
    Wrap(MtxLockval(tid, 0, 0) - MtxLockval(0, 0, 1))
  }

  lemma PlainAcquireFields(w: Word, tid: Tid)
    requires Owner(w) == 0
    ensures Decode(Wrap(w + PlainInc(tid))) == Decode(w).(owner := tid)
  {
    PackDecode(w);
    DecodeOf(Wrap(w + PlainInc(tid)), Decode(w).(owner := tid));
  }

  lemma WaiterAcquireFields(w: Word, tid: Tid)
    requires Owner(w) == 0 && Count(w) > 0
    ensures Decode(Wrap(w + WaiterInc(tid))) == Decode(w).(owner := tid, count := Count(w) - 1)
  {
    PackDecode(w);
    DecodeOf(Wrap(w + WaiterInc(tid)), Decode(w).(owner := tid, count := Count(w) - 1));
  }

  /** The value subtracted by unlock: the id, or the id minus all owner bits when giving up. */
  function UnlockVal(tid: Tid, unrecoverable: bool): int {
    MtxLockval(tid, 0, 0) - if unrecoverable then OWNER_MASK else 0
  }

  lemma UnlockFields(w: Word, tid: Tid, unrecoverable: bool)
    requires Owner(w) == tid
    ensures Decode(Wrap(w - UnlockVal(tid, unrecoverable)))
         == Decode(w).(owner := if unrecoverable then OWNER_MASK else 0)
  {
    PackDecode(w);
    DecodeOf(Wrap(w - UnlockVal(tid, unrecoverable)), Decode(w).(owner := if unrecoverable then OWNER_MASK else 0));
  }

  lemma ConsistentFields(w: Word)
    requires NeedRecover(w) == 1
    ensures Decode(Wrap(w - TWO40)) == Decode(w).(recover := 0)
  {
    PackDecode(w);
    DecodeOf(Wrap(w - TWO40), Decode(w).(recover := 0));
  }
}
