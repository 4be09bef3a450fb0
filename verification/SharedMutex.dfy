/**
 The reader/writer lock: its one 32-bit flag, and what each critical section does to it.
 A lock is seen as a writer bit and a number of readers.
 */
module SharedMutexes {
  type int32 = x: int | -0x8000_0000 <= x < 0x8000_0000

  const WRITE_LOCK_ACTIVE: int32 := -0x8000_0000
  const MAX_READERS: int32 := 0x7fff_ffff

  datatype Lock = Lock(writer: bool, readers: nat)

  const FREE := Lock(false, 0)

  /** `flag & write_lock_active`: the sign bit in two's complement. */
  function WriteBit(flag: int32): int32 {
    if flag < 0 then WRITE_LOCK_ACTIVE else 0
  }

  /** `flag & max_readers`: all bits but the sign bit. */
  function ReaderBits(flag: int32): (r: int32)
    ensures r >= 0
  {
    if flag < 0 then flag - WRITE_LOCK_ACTIVE else flag
  }

  /** `flag | write_lock_active` */
  function OrWriteBit(flag: int32): int32 {
    if flag < 0 then flag else flag + WRITE_LOCK_ACTIVE
  }

  /** `flag & ~max_readers | readers` */
  function WithReaders(flag: int32, readers: int32): int32
    requires readers >= 0
  {
    WriteBit(flag) + readers
  }

  function View(flag: int32): Lock {
    Lock(WriteBit(flag) != 0, ReaderBits(flag))
  }

  /** Every flag is a writer bit and up to MAX_READERS readers, and every such lock is one flag. */
  lemma FlagsAreLocks(lock: Lock)
    ensures lock.readers <= MAX_READERS <==> exists flag: int32 :: View(flag) == lock
    ensures forall a: int32, b: int32 :: View(a) == lock && View(b) == lock ==> a == b
  {
    if lock.readers <= MAX_READERS {
      assert View(if lock.writer then lock.readers + WRITE_LOCK_ACTIVE else lock.readers) == lock;
    }
  }

  /** Which sleepers a critical section wakes. */
  datatype Notify = Nobody | AllOnCond1 | OneOnCond1 | OneOnCond2

  /** How a critical section ends: holding the lock, refused, or waiting on a condition. */
  datatype Outcome = Held | Refused | WaitCond1 | WaitCond2

  // ---------- what the critical sections do, for any reader capacity ----------

  /** lock, up to its first wait: the writer bit, then the remaining readers. */
  function LockEffect(lock: Lock): (Lock, Outcome) {
    if lock.writer then (lock, WaitCond1) else (lock.(writer := true), DrainOutcome(lock))
  }

  /** lock, each time it wakes up draining. */
  function DrainOutcome(lock: Lock): Outcome {
    if lock.readers == 0 then Held else WaitCond2
  }

  function TryLockEffect(lock: Lock): (Lock, Outcome) {
    if lock == FREE then (Lock(true, 0), Held) else (lock, Refused)
  }

  predicate CanShare(lock: Lock, capacity: nat) {
    !lock.writer && lock.readers != capacity
  }

  /** lock_shared up to its wait, and try_lock_shared, which is refused instead of waiting. */
  function LockSharedEffect(lock: Lock, capacity: nat, otherwise: Outcome): (Lock, Outcome) {
    if CanShare(lock, capacity) then (Lock(false, lock.readers + 1), Held) else (lock, otherwise)
  }

  function UnlockSharedEffect(lock: Lock, capacity: nat): (Lock, Notify) {
    if lock.readers == 0 then (lock, Nobody)
    else
      var left := lock.readers - 1;
      (Lock(lock.writer, left),
       if lock.writer then (if left == 0 then OneOnCond2 else Nobody)
       else if left == capacity - 1 then OneOnCond1 else Nobody)
  }

  class SharedMutex {
    var flag: int32

    constructor ()
      ensures View(flag) == FREE
    {
      flag := 0;
    }

    method Lock() returns (outcome: Outcome)
      modifies this
      ensures (View(flag), outcome) == LockEffect(View(old(flag)))
      ensures View(old(flag)).writer ==> outcome == WaitCond1 && flag == old(flag)
      ensures !View(old(flag)).writer ==>
        View(flag) == View(old(flag)).(writer := true)
        && outcome == if View(old(flag)).readers == 0 then Held else WaitCond2
    {
      if WriteBit(flag) != 0 {
        return WaitCond1;
      }
      flag := OrWriteBit(flag);
      outcome := Drain();
    }

    method Drain() returns (outcome: Outcome)
      ensures outcome == DrainOutcome(View(flag))
    {
      if ReaderBits(flag) != 0 {
        return WaitCond2;
      }
      return Held;
    }

    method TryLock() returns (outcome: Outcome)
      modifies this
      ensures (View(flag), outcome) == TryLockEffect(View(old(flag)))
      ensures old(flag) == 0 ==> outcome == Held && View(flag) == View(old(flag)).(writer := true)
      ensures old(flag) != 0 ==> outcome == Refused && flag == old(flag)
    {
      if flag == 0 {
        flag := WRITE_LOCK_ACTIVE;
        return Held;
      }
      return Refused;
    }

    method Unlock() returns (notify: Notify)
      modifies this
      ensures View(flag) == FREE && notify == AllOnCond1
    {
      flag := 0;
      notify := AllOnCond1;
    }

    method LockShared() returns (outcome: Outcome)
      modifies this
      ensures (View(flag), outcome) == LockSharedEffect(View(old(flag)), MAX_READERS, WaitCond1)
    {
      if WriteBit(flag) != 0 || ReaderBits(flag) == MAX_READERS {
        return WaitCond1;
      }
      var readers := ReaderBits(flag) + 1;
      flag := WithReaders(flag, readers);
      return Held;
    }

    method TryLockShared() returns (outcome: Outcome)
      modifies this
      ensures (View(flag), outcome) == LockSharedEffect(View(old(flag)), MAX_READERS, Refused)
    {
      var readers := ReaderBits(flag);
      if !(WriteBit(flag) != 0) && readers != MAX_READERS {
        readers := readers + 1;
        flag := WithReaders(flag, readers);
        return Held;
      }
      return Refused;
    }

    method UnlockShared() returns (notify: Notify)
      modifies this
      ensures (View(flag), notify) == UnlockSharedEffect(View(old(flag)), MAX_READERS)
    {
      notify := Nobody;
      var readers := ReaderBits(flag) - 1;
      if readers >= 0 {
        flag := WithReaders(flag, readers);
        if WriteBit(flag) != 0 {
          if readers == 0 {
            notify := OneOnCond2;
          }
        } else {
          if readers == MAX_READERS - 1 {
            notify := OneOnCond1;
          }
        }
      }
    }
  }
}
