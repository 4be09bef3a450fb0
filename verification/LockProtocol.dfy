/**
 Threads on one reader/writer lock: every interleaving of the critical sections, with the
 waits in between. The number of threads and the reader capacity are parameters.
 */
module LockProtocol {
  import opened Counting
  import opened SharedMutexes

  /** Where a thread is. Asleep threads wait on cond1, or on cond2 when draining. */
  datatype Phase =
    | Idle
    | LockAwake | LockAsleep | DrainAwake | DrainAsleep | Exclusive
    | SharedAwake | SharedAsleep | Shared

  datatype State = State(lock: Lock, phase: seq<Phase>)

  datatype Action =
    | CallLock(t: nat) | TestLock(t: nat) | TestDrain(t: nat) | TryLock(t: nat) | Unlock(t: nat)
    | CallShared(t: nat) | TestShared(t: nat) | TryShared(t: nat)
    | UnlockShared(t: nat, woken: nat)   // woken: the sleeper notify_one picks, if any
    | SpuriousWake(t: nat)

  function Init(threads: nat): State {
    State(FREE, seq(threads, i => Idle))
  }

  predicate OnCond1(p: Phase) { p == LockAsleep || p == SharedAsleep }

  predicate Asleep(p: Phase) { OnCond1(p) || p == DrainAsleep }

  function Woken(p: Phase): Phase {
    match p
    case LockAsleep => LockAwake
    case SharedAsleep => SharedAwake
    case DrainAsleep => DrainAwake
    case _ => p
  }

  function WakeAllOnCond1(phase: seq<Phase>): (r: seq<Phase>)
    ensures |r| == |phase|
  {
    seq(|phase|, i requires 0 <= i < |phase| => if OnCond1(phase[i]) then Woken(phase[i]) else phase[i])
  }

  /** Whether notify_one may pick thread w: a sleeper on that condition, or anyone if none sleeps. */
  predicate MayPick(phase: seq<Phase>, notify: Notify, w: nat) {
    match notify
    case OneOnCond1 => w < |phase| && ((exists i :: 0 <= i < |phase| && OnCond1(phase[i])) ==> OnCond1(phase[w]))
    case OneOnCond2 => w < |phase| && ((exists i :: 0 <= i < |phase| && phase[i] == DrainAsleep) ==> phase[w] == DrainAsleep)
    case _ => true
  }

  function WakeOne(phase: seq<Phase>, notify: Notify, w: nat): (r: seq<Phase>)
    requires MayPick(phase, notify, w)
    ensures |r| == |phase|
  {
    match notify
    case OneOnCond1 => if OnCond1(phase[w]) then phase[w := Woken(phase[w])] else phase
    case OneOnCond2 => if phase[w] == DrainAsleep then phase[w := DrainAwake] else phase
    case _ => phase
  }

  /** Threads release only what they hold, and are inside one call at a time. */
  predicate Enabled(capacity: nat, s: State, a: Action) {
    && a.t < |s.phase|
    && match a
       case CallLock(t) => s.phase[t] == Idle
       case TestLock(t) => s.phase[t] == LockAwake
       case TestDrain(t) => s.phase[t] == DrainAwake
       case TryLock(t) => s.phase[t] == Idle
       case Unlock(t) => s.phase[t] == Exclusive
       case CallShared(t) => s.phase[t] == Idle
       case TestShared(t) => s.phase[t] == SharedAwake
       case TryShared(t) => s.phase[t] == Idle
       case UnlockShared(t, w) =>
         s.phase[t] == Shared && MayPick(s.phase[t := Idle], UnlockSharedEffect(s.lock, capacity).1, w)
       case SpuriousWake(t) => Asleep(s.phase[t])
  }

  function WriterPhase(outcome: Outcome): Phase {
    match outcome
    case Held => Exclusive
    case Refused => Idle
    case WaitCond1 => LockAsleep
    case WaitCond2 => DrainAsleep
  }

  function ReaderPhase(outcome: Outcome): Phase {
    match outcome
    case Held => Shared
    case Refused => Idle
    case _ => SharedAsleep
  }

  function Do(capacity: nat, s: State, a: Action): State
    requires Enabled(capacity, s, a)
  {
    var lock, phase := s.lock, s.phase;
    match a
    case CallLock(t) => State(lock, phase[t := LockAwake])
    case TestLock(t) =>
      var (after, outcome) := LockEffect(lock);
      State(after, phase[t := WriterPhase(outcome)])
    case TestDrain(t) => State(lock, phase[t := WriterPhase(DrainOutcome(lock))])
    case TryLock(t) =>
      var (after, outcome) := TryLockEffect(lock);
      State(after, phase[t := WriterPhase(outcome)])
    case Unlock(t) => State(FREE, WakeAllOnCond1(phase[t := Idle]))
    case CallShared(t) => State(lock, phase[t := SharedAwake])
    case TestShared(t) =>
      var (after, outcome) := LockSharedEffect(lock, capacity, WaitCond1);
      State(after, phase[t := ReaderPhase(outcome)])
    case TryShared(t) =>
      var (after, outcome) := LockSharedEffect(lock, capacity, Refused);
      State(after, phase[t := ReaderPhase(outcome)])
    case UnlockShared(t, w) =>
      var (after, notify) := UnlockSharedEffect(lock, capacity);
      State(after, WakeOne(phase[t := Idle], notify, w))
    case SpuriousWake(t) => State(lock, phase[t := Woken(phase[t])])
  }

  /** s is reached after k steps of `threads` threads. */
  ghost predicate Reach(capacity: nat, threads: nat, k: nat, s: State) {
    if k == 0 then s == Init(threads)
    else exists p: State, a: Action :: Reach(capacity, threads, k - 1, p) && Enabled(capacity, p, a) && s == Do(capacity, p, a)
  }

  // ---------- counting threads ----------

  predicate Writing(p: Phase) { p == DrainAwake || p == DrainAsleep || p == Exclusive }

  const IsShared := (p: Phase) => p == Shared
  const IsWriting := (p: Phase) => Writing(p)

  // ---------- the invariant ----------

  /** Writer bit and reader count say how many threads write and share. */
  ghost predicate Accounted(s: State) {
    && Count(s.phase, IsShared) == s.lock.readers
    && Count(s.phase, IsWriting) == (if s.lock.writer then 1 else 0)
  }

  ghost predicate Safe(capacity: nat, s: State) {
    && Accounted(s)
    && s.lock.readers <= capacity
    && (forall t :: 0 <= t < |s.phase| && s.phase[t] == Exclusive ==> s.lock.readers == 0)
    && (forall t :: 0 <= t < |s.phase| && s.phase[t] == DrainAsleep ==> s.lock.readers > 0)
  }

  /** Why a thread sleeps on cond1: a writer, or, for a reader, no free slot. */
  ghost predicate Justified(capacity: nat, s: State) {
    forall t :: 0 <= t < |s.phase| && OnCond1(s.phase[t]) ==>
      s.lock.writer || (s.lock.readers == capacity && s.phase[t] == SharedAsleep)
  }

  /** Moving one thread changes both counts by what it was and what it becomes. */
  lemma Moved(phase: seq<Phase>, t: nat, p: Phase)
    requires t < |phase|
    ensures Count(phase[t := p], IsShared)
         == Count(phase, IsShared) - (if phase[t] == Shared then 1 else 0) + (if p == Shared then 1 else 0)
    ensures Count(phase[t := p], IsWriting)
         == Count(phase, IsWriting) - (if Writing(phase[t]) then 1 else 0) + (if Writing(p) then 1 else 0)
  {
    CountUpdate(phase, IsShared, t, p);
    CountUpdate(phase, IsWriting, t, p);
  }

  /** There is at most one writer, and a sharing thread is counted. */
  lemma Holders(s: State, t: nat, u: nat)
    requires Accounted(s) && t < |s.phase| && u < |s.phase|
    ensures Writing(s.phase[t]) ==> s.lock.writer
    ensures Writing(s.phase[t]) && Writing(s.phase[u]) ==> t == u
    ensures s.phase[t] == Shared ==> s.lock.readers > 0
  {
    CountPositive(s.phase, IsShared);
    CountPositive(s.phase, IsWriting);
    assert IsShared(s.phase[t]) == (s.phase[t] == Shared) && IsWriting(s.phase[t]) == Writing(s.phase[t]);
    assert IsWriting(s.phase[u]) == Writing(s.phase[u]);
    if Writing(s.phase[t]) && Writing(s.phase[u]) {
      CountOne(s.phase, IsWriting, t, u);
    }
  }

  /** Waking keeps the counts. */
  lemma WokenCounts(before: seq<Phase>, after: seq<Phase>)
    requires |before| == |after|
    requires forall i :: 0 <= i < |before| ==> after[i] == before[i] || after[i] == Woken(before[i])
    ensures Count(after, IsShared) == Count(before, IsShared) && Count(after, IsWriting) == Count(before, IsWriting)
  {
    CountSame(after, before, IsShared);
    CountSame(after, before, IsWriting);
  }

  /** The exclusive holder is the only thread that writes. */
  lemma OnlyWriter(s: State, t: nat)
    requires Accounted(s) && t < |s.phase| && Writing(s.phase[t])
    ensures forall u :: 0 <= u < |s.phase| && u != t ==> !Writing(s.phase[u])
  {
    forall u | 0 <= u < |s.phase| && u != t
      ensures !Writing(s.phase[u])
    {
      Holders(s, t, u);
    }
  }

  lemma OnlyWriterOrNone(s: State, t: nat)
    requires Accounted(s) && t < |s.phase|
    requires !s.lock.writer || Writing(s.phase[t])
    ensures forall u :: 0 <= u < |s.phase| && u != t ==> !Writing(s.phase[u])
  {
    forall u | 0 <= u < |s.phase| && u != t
      ensures !Writing(s.phase[u])
    {
      Holders(s, t, u);
      Holders(s, u, u);
    }
  }

  lemma NoExclusive(s: State, t: nat)
    requires Accounted(s) && t < |s.phase| && s.phase[t] == Shared
    requires forall u :: 0 <= u < |s.phase| && s.phase[u] == Exclusive ==> s.lock.readers == 0
    ensures forall u :: 0 <= u < |s.phase| ==> s.phase[u] != Exclusive
  {
    Holders(s, t, t);
  }

  /** The last reader's notify_one on cond2 reaches the draining writer. */
  lemma OneDrainer(s: State, t: nat, w: nat)
    requires Accounted(s) && t < |s.phase| && s.phase[t] == Shared && MayPick(s.phase[t := Idle], OneOnCond2, w)
    ensures DrainAsleep !in WakeOne(s.phase[t := Idle], OneOnCond2, w)
  {
    var after := WakeOne(s.phase[t := Idle], OneOnCond2, w);
    forall u | 0 <= u < |s.phase|
      ensures after[u] != DrainAsleep
    {
      if s.phase[u] == DrainAsleep {
        assert s.phase[t := Idle][u] == DrainAsleep;
        Holders(s, u, w);
      }
    }
  }

  /** Actions that move one thread and touch neither bit of the lock. */
  lemma MoveSafe(capacity: nat, s: State, t: nat, p: Phase)
    requires Safe(capacity, s) && t < |s.phase|
    requires (s.phase[t] == Shared <==> p == Shared) && (Writing(s.phase[t]) <==> Writing(p))
    requires p == Exclusive ==> s.lock.readers == 0
    requires p == DrainAsleep ==> s.lock.readers > 0
    ensures Safe(capacity, State(s.lock, s.phase[t := p]))
  {
    Moved(s.phase, t, p);
  }

  lemma EnterWriterSafe(capacity: nat, s: State, t: nat, p: Phase)
    requires Safe(capacity, s) && t < |s.phase| && !s.lock.writer && s.phase[t] != Shared
    requires p == if s.lock.readers == 0 then Exclusive else DrainAsleep
    ensures Safe(capacity, State(s.lock.(writer := true), s.phase[t := p]))
  {
    Holders(s, t, t);
    Moved(s.phase, t, p);
  }

  lemma EnterSharedSafe(capacity: nat, s: State, t: nat)
    requires Safe(capacity, s) && t < |s.phase| && CanShare(s.lock, capacity) && s.phase[t] != Shared
    ensures Safe(capacity, State(Lock(false, s.lock.readers + 1), s.phase[t := Shared]))
  {
    Holders(s, t, t);
    Moved(s.phase, t, Shared);
    OnlyWriterOrNone(s, t);
  }

  lemma UnlockSafe(capacity: nat, s: State, t: nat)
    requires Safe(capacity, s) && t < |s.phase| && s.phase[t] == Exclusive
    ensures Safe(capacity, State(FREE, WakeAllOnCond1(s.phase[t := Idle])))
  {
    Holders(s, t, t);
    Moved(s.phase, t, Idle);
    OnlyWriter(s, t);
    WokenCounts(s.phase[t := Idle], WakeAllOnCond1(s.phase[t := Idle]));
  }

  lemma UnlockSharedSafe(capacity: nat, s: State, t: nat, w: nat)
    requires Safe(capacity, s) && Enabled(capacity, s, UnlockShared(t, w))
    ensures Safe(capacity, Do(capacity, s, UnlockShared(t, w)))
  {
    var next := Do(capacity, s, UnlockShared(t, w));
    Holders(s, t, t);
    Moved(s.phase, t, Idle);
    WokenCounts(s.phase[t := Idle], next.phase);
    NoExclusive(s, t);
    if s.lock.readers == 1 {
      if s.lock.writer {
        OneDrainer(s, t, w);
      } else {
        OnlyWriterOrNone(s, t);
      }
    }
  }

  /** Every critical section keeps the accounting and mutual exclusion. */
  lemma StepSafe(capacity: nat, s: State, a: Action)
    requires Safe(capacity, s) && Enabled(capacity, s, a)
    ensures Safe(capacity, Do(capacity, s, a))
  {
    var t := a.t;
    match a
    case CallLock(_) => MoveSafe(capacity, s, t, LockAwake);
    case TestLock(_) =>
      if s.lock.writer {
        MoveSafe(capacity, s, t, LockAsleep);
      } else {
        EnterWriterSafe(capacity, s, t, if s.lock.readers == 0 then Exclusive else DrainAsleep);
      }
    case TestDrain(_) => MoveSafe(capacity, s, t, if s.lock.readers == 0 then Exclusive else DrainAsleep);
    case TryLock(_) =>
      if s.lock == FREE {
        EnterWriterSafe(capacity, s, t, Exclusive);
      } else {
        MoveSafe(capacity, s, t, Idle);
      }
    case Unlock(_) => UnlockSafe(capacity, s, t);
    case CallShared(_) => MoveSafe(capacity, s, t, SharedAwake);
    case TestShared(_) =>
      if CanShare(s.lock, capacity) {
        EnterSharedSafe(capacity, s, t);
      } else {
        MoveSafe(capacity, s, t, SharedAsleep);
      }
    case TryShared(_) =>
      if CanShare(s.lock, capacity) {
        EnterSharedSafe(capacity, s, t);
      } else {
        MoveSafe(capacity, s, t, Idle);
      }
    case UnlockShared(_, w) => UnlockSharedSafe(capacity, s, t, w);
    case SpuriousWake(_) => MoveSafe(capacity, s, t, Woken(s.phase[t]));
  }

  // ---------- wake-ups ----------

  /** With no more than capacity + 1 threads and all slots taken, one thread at most is not sharing. */
  lemma OneOutsider(capacity: nat, s: State, i: nat, j: nat)
    requires Accounted(s) && s.lock.readers == capacity && |s.phase| <= capacity + 1
    requires i < |s.phase| && j < |s.phase| && s.phase[i] != Shared && s.phase[j] != Shared
    ensures i == j
  {
    if i != j {
      var x, y := if i < j then i else j, if i < j then j else i;
      assert !IsShared(s.phase[x]) && !IsShared(s.phase[y]);
      CountOthers(s.phase, IsShared, x, y);
    }
  }

  lemma UnlockSharedJustified(capacity: nat, s: State, t: nat, w: nat)
    requires Safe(capacity, s) && Justified(capacity, s) && |s.phase| <= capacity + 1
    requires Enabled(capacity, s, UnlockShared(t, w))
    ensures Justified(capacity, Do(capacity, s, UnlockShared(t, w)))
  {
    var next := Do(capacity, s, UnlockShared(t, w));
    Holders(s, t, t);
    if !s.lock.writer {
      forall u | 0 <= u < |s.phase|
        ensures !OnCond1(next.phase[u])
      {
        if OnCond1(s.phase[u]) {
          assert s.lock.readers == capacity;
          assert OnCond1(s.phase[t := Idle][u]);
          OneOutsider(capacity, s, u, w);
        }
      }
    }
  }

  /** Threads sleep on cond1 only for a reason, while there is at most one more of them than slots. */
  lemma StepJustified(capacity: nat, s: State, a: Action)
    requires Safe(capacity, s) && Justified(capacity, s) && |s.phase| <= capacity + 1
    requires Enabled(capacity, s, a)
    ensures Justified(capacity, Do(capacity, s, a))
  {
    match a
    case UnlockShared(t, w) => UnlockSharedJustified(capacity, s, t, w);
    case _ =>
  }

  // ---------- every reachable state ----------

  lemma {:induction false} CountInit(n: nat, of: Phase -> bool)
    requires !of(Idle)
    ensures Count(seq(n, i => Idle), of) == 0
  {
    CountPositive(seq(n, i => Idle), of);
  }

  lemma InitKept(capacity: nat, threads: nat)
    ensures Kept(capacity, threads, Init(threads))
  {
    CountInit(threads, IsShared);
    CountInit(threads, IsWriting);
  }

  ghost predicate Kept(capacity: nat, threads: nat, s: State) {
    |s.phase| == threads && Safe(capacity, s) && (threads <= capacity + 1 ==> Justified(capacity, s))
  }

  lemma StepKeeps(capacity: nat, threads: nat, s: State, a: Action)
    requires Kept(capacity, threads, s) && Enabled(capacity, s, a)
    ensures Kept(capacity, threads, Do(capacity, s, a))
  {
    StepSafe(capacity, s, a);
    if threads <= capacity + 1 {
      StepJustified(capacity, s, a);
    }
  }

  lemma {:induction false} AlwaysKept(capacity: nat, threads: nat, k: nat, s: State)
    requires Reach(capacity, threads, k, s)
    ensures Kept(capacity, threads, s)
  {
    hide Kept, Do, Enabled;
    if k == 0 {
      InitKept(capacity, threads);
    } else {
      var p: State, a: Action :|
        Reach(capacity, threads, k - 1, p) && Enabled(capacity, p, a) && s == Do(capacity, p, a);
      AlwaysKept(capacity, threads, k - 1, p);
      StepKeeps(capacity, threads, p, a);
    }
  }

  /** Accounting and mutual exclusion hold after any number of steps of any number of threads. */
  lemma AlwaysSafe(capacity: nat, threads: nat, k: nat, s: State)
    requires Reach(capacity, threads, k, s)
    ensures |s.phase| == threads && Safe(capacity, s)
    ensures threads <= capacity + 1 ==> Justified(capacity, s)
  {
    hide Reach;
    AlwaysKept(capacity, threads, k, s);
  }

  /** What holding the lock promises: a writer is alone, readers share with readers only. */
  lemma MutualExclusion(capacity: nat, threads: nat, k: nat, s: State, t: nat, u: nat)
    requires Reach(capacity, threads, k, s) && t < threads && u < threads && t != u
    ensures |s.phase| == threads
    ensures s.phase[t] == Exclusive ==> s.phase[u] != Exclusive && s.phase[u] != Shared
    ensures Writing(s.phase[t]) ==> s.lock.writer && !Writing(s.phase[u])
    ensures s.phase[t] == Shared ==> 0 < s.lock.readers <= capacity
  {
    AlwaysSafe(capacity, threads, k, s);
    Holders(s, t, u);
    Holders(s, u, t);
  }

  /** Someone sleeps, and nobody is left to wake him: no thread holds the lock or is inside a call awake. */
  ghost predicate Stuck(s: State) {
    && (exists t :: 0 <= t < |s.phase| && Asleep(s.phase[t]))
    && (forall t :: 0 <= t < |s.phase| ==> Asleep(s.phase[t]) || s.phase[t] == Idle)
  }

  /** With at most one more thread than reader slots no wake-up is lost. */
  lemma NoLostWakeUp(capacity: nat, threads: nat, k: nat, s: State)
    requires Reach(capacity, threads, k, s) && 0 < capacity && threads <= capacity + 1
    ensures !Stuck(s)
  {
    hide Reach;
    AlwaysSafe(capacity, threads, k, s);
    CountPositive(s.phase, IsShared);
    CountPositive(s.phase, IsWriting);
  }

  // ---------- the lost wake-up with two more threads than slots ----------

  lemma Extend(capacity: nat, threads: nat, k: nat, p: State, a: Action, s: State)
    requires Reach(capacity, threads, k, p) && Enabled(capacity, p, a) && s == Do(capacity, p, a)
    ensures Reach(capacity, threads, k + 1, s)
  {
  }

  lemma ReachStart(capacity: nat, threads: nat)
    ensures Reach(capacity, threads, 0, Init(threads))
  {
  }

  lemma ExtendTwice(capacity: nat, threads: nat, k: nat, p: State, a: Action, q: State, b: Action, s: State)
    requires Reach(capacity, threads, k, p)
    requires Enabled(capacity, p, a) && q == Do(capacity, p, a)
    requires Enabled(capacity, q, b) && s == Do(capacity, q, b)
    ensures Reach(capacity, threads, k + 2, s)
  {
    hide Reach;
    Extend(capacity, threads, k, p, a, q);
    Extend(capacity, threads, k + 1, q, b, s);
  }

  /** The first j threads share, the others are idle. */
  function Filling(threads: nat, j: nat): State {
    State(Lock(false, j), seq(threads, i => if i < j then Shared else Idle))
  }

  /** Slots all taken, and threads `capacity` up to j asleep waiting for one. */
  function Queueing(threads: nat, capacity: nat, j: nat): State {
    State(Lock(false, capacity),
          seq(threads, i => if i < capacity then Shared else if i < j then SharedAsleep else Idle))
  }

  /** Threads below j have left, the woken reader shares, and thread capacity + 1 still sleeps. */
  function Leaving(threads: nat, capacity: nat, j: nat): State
    requires j <= capacity + 1
  {
    State(Lock(false, capacity + 1 - j),
          seq(threads, i => if j <= i <= capacity then Shared else if i == capacity + 1 then SharedAsleep else Idle))
  }

  lemma {:induction false} Fill(capacity: nat, threads: nat, j: nat)
    requires j <= capacity && j <= threads
    ensures Reach(capacity, threads, 2 * j, Filling(threads, j))
  {
    hide Reach, Do, Enabled;
    if j == 0 {
      assert Filling(threads, 0) == Init(threads);
      ReachStart(capacity, threads);
    } else {
      Fill(capacity, threads, j - 1);
      FillOne(capacity, threads, j);
      ExtendTwice(capacity, threads, 2 * j - 2, Filling(threads, j - 1), CallShared(j - 1),
                  Do(capacity, Filling(threads, j - 1), CallShared(j - 1)), TestShared(j - 1), Filling(threads, j));
    }
  }

  lemma FillOne(capacity: nat, threads: nat, j: nat)
    requires 0 < j <= capacity && j <= threads
    ensures var p := Filling(threads, j - 1);
            && Enabled(capacity, p, CallShared(j - 1))
            && Enabled(capacity, Do(capacity, p, CallShared(j - 1)), TestShared(j - 1))
            && Do(capacity, Do(capacity, p, CallShared(j - 1)), TestShared(j - 1)) == Filling(threads, j)
  {
  }

  lemma QueueOne(capacity: nat, threads: nat, k: nat, j: nat)
    requires capacity <= j < threads && Reach(capacity, threads, k, Queueing(threads, capacity, j))
    ensures Reach(capacity, threads, k + 2, Queueing(threads, capacity, j + 1))
  {
    hide Reach;
    var p := Queueing(threads, capacity, j);
    var q := Do(capacity, p, CallShared(j));
    Extend(capacity, threads, k, p, CallShared(j), q);
    assert Do(capacity, q, TestShared(j)) == Queueing(threads, capacity, j + 1);
    Extend(capacity, threads, k + 1, q, TestShared(j), Queueing(threads, capacity, j + 1));
  }

  /** Two readers have left, the one that was woken has not run yet. */
  function LeftTwice(threads: nat, capacity: nat): State
    requires 2 <= capacity
  {
    State(Lock(false, capacity - 2),
          seq(threads, i => if 2 <= i < capacity then Shared else if i == capacity then SharedAwake
                            else if i == capacity + 1 then SharedAsleep else Idle))
  }

  /** Two readers leave before the one that was woken runs: the second sends no notification. */
  lemma LeaveTwice(capacity: nat, threads: nat)
    requires 2 <= capacity && capacity + 2 <= threads
    ensures var p := Queueing(threads, capacity, capacity + 2);
            && Enabled(capacity, p, UnlockShared(0, capacity))
            && Enabled(capacity, Do(capacity, p, UnlockShared(0, capacity)), UnlockShared(1, 0))
            && Do(capacity, Do(capacity, p, UnlockShared(0, capacity)), UnlockShared(1, 0)) == LeftTwice(threads, capacity)
  {
    var p := Queueing(threads, capacity, capacity + 2);
    assert OnCond1(p.phase[0 := Idle][capacity]);
  }

  lemma WokenShares(capacity: nat, threads: nat)
    requires 2 <= capacity && capacity + 2 <= threads
    ensures Enabled(capacity, LeftTwice(threads, capacity), TestShared(capacity))
    ensures Do(capacity, LeftTwice(threads, capacity), TestShared(capacity)) == Leaving(threads, capacity, 2)
  {
  }

  lemma {:induction false} LeaveAll(capacity: nat, threads: nat, k: nat, j: nat)
    requires 2 <= j <= capacity + 1 && capacity + 2 <= threads
    requires Reach(capacity, threads, k, Leaving(threads, capacity, 2))
    ensures Reach(capacity, threads, k + j - 2, Leaving(threads, capacity, j))
    decreases j
  {
    hide Reach;
    if j > 2 {
      LeaveAll(capacity, threads, k, j - 1);
      var p := Leaving(threads, capacity, j - 1);
      assert Do(capacity, p, UnlockShared(j - 1, 0)) == Leaving(threads, capacity, j);
      Extend(capacity, threads, k + j - 3, p, UnlockShared(j - 1, 0), Leaving(threads, capacity, j));
    }
  }

  lemma AllLeft(capacity: nat, threads: nat)
    requires capacity + 2 <= threads
    ensures Stuck(Leaving(threads, capacity, capacity + 1))
  {
    assert Asleep(Leaving(threads, capacity, capacity + 1).phase[capacity + 1]);
  }

  /** A run that strands a reader. */
  lemma LostWakeUp(capacity: nat, threads: nat)
    requires 2 <= capacity && capacity + 2 <= threads
    ensures exists k: nat, s: State :: Reach(capacity, threads, k, s) && Stuck(s)
  {
    hide Reach;
    ReachLeaving(capacity, threads);
    AllLeft(capacity, threads);
    LeaveAll(capacity, threads, 2 * capacity + 7, capacity + 1);
  }

  lemma ReachQueueing(capacity: nat, threads: nat)
    requires capacity + 2 <= threads
    ensures Reach(capacity, threads, 2 * capacity + 4, Queueing(threads, capacity, capacity + 2))
  {
    hide Reach;
    Fill(capacity, threads, capacity);
    assert Filling(threads, capacity) == Queueing(threads, capacity, capacity);
    QueueOne(capacity, threads, 2 * capacity, capacity);
    QueueOne(capacity, threads, 2 * capacity + 2, capacity + 1);
  }

  lemma ReachLeaving(capacity: nat, threads: nat)
    requires 2 <= capacity && capacity + 2 <= threads
    ensures Reach(capacity, threads, 2 * capacity + 7, Leaving(threads, capacity, 2))
  {
    hide Reach;
    ReachQueueing(capacity, threads);
    LeaveTwice(capacity, threads);
    var p := Queueing(threads, capacity, capacity + 2);
    ExtendTwice(capacity, threads, 2 * capacity + 4, p, UnlockShared(0, capacity),
                Do(capacity, p, UnlockShared(0, capacity)), UnlockShared(1, 0), LeftTwice(threads, capacity));
    WokenShares(capacity, threads);
    Extend(capacity, threads, 2 * capacity + 6, LeftTwice(threads, capacity), TestShared(capacity),
           Leaving(threads, capacity, 2));
  }

  /** No reachable state strands a sleeper exactly when there are at most capacity + 1 threads. */
  lemma WakeUpsIffFewThreads(capacity: nat, threads: nat)
    requires 2 <= capacity
    ensures (forall k: nat, s: State :: Reach(capacity, threads, k, s) ==> !Stuck(s)) <==> threads <= capacity + 1
  {
    if threads <= capacity + 1 {
      forall k: nat, s: State | Reach(capacity, threads, k, s)
        ensures !Stuck(s)
      {
        NoLostWakeUp(capacity, threads, k, s);
      }
    } else {
      LostWakeUp(capacity, threads);
    }
  }

  // ---------- what a call comes back with ----------

  /** Inside lock: before the writer bit is taken, and after. */
  predicate InLock(p: Phase) { p == LockAwake || p == LockAsleep || Draining(p) }

  predicate Draining(p: Phase) { p == DrainAwake || p == DrainAsleep }

  predicate InLockShared(p: Phase) { p == SharedAwake || p == SharedAsleep }

  /** lock comes back only with the lock held exclusively, and never gives the writer bit back. */
  lemma LockEndsHolding(capacity: nat, s: State, a: Action, t: nat)
    requires Enabled(capacity, s, a) && t < |s.phase| && InLock(s.phase[t])
    ensures var after := Do(capacity, s, a).phase[t];
            (InLock(after) || after == Exclusive) && (Draining(s.phase[t]) ==> Draining(after) || after == Exclusive)
  {
  }

  /** lock_shared comes back only with the lock held shared. */
  lemma LockSharedEndsHolding(capacity: nat, s: State, a: Action, t: nat)
    requires Enabled(capacity, s, a) && t < |s.phase| && InLockShared(s.phase[t])
    ensures InLockShared(Do(capacity, s, a).phase[t]) || Do(capacity, s, a).phase[t] == Shared
  {
  }

  /** What is held stays held until its owner releases it, and nobody is drawn into a call. */
  lemma OwnersDecide(capacity: nat, s: State, a: Action, t: nat)
    requires Enabled(capacity, s, a) && t < |s.phase|
    ensures var before, after := s.phase[t], Do(capacity, s, a).phase[t];
            && (before == Exclusive ==> after == if a == Unlock(t) then Idle else Exclusive)
            && (before == Shared ==> after == if a.UnlockShared? && a.t == t then Idle else Shared)
            && (a.t != t ==> after == before || (Asleep(before) && after == Woken(before)))
  {
  }

  ghost predicate SomeWriting(s: State) {
    exists u :: 0 <= u < |s.phase| && Writing(s.phase[u])
  }

  ghost predicate SomeShared(s: State) {
    exists u :: 0 <= u < |s.phase| && s.phase[u] == Shared
  }

  lemma LockTells(capacity: nat, s: State)
    requires Safe(capacity, s)
    ensures s.lock.writer <==> SomeWriting(s)
    ensures s.lock.readers == Count(s.phase, IsShared) && (s.lock.readers > 0 <==> SomeShared(s))
  {
    CountPositive(s.phase, IsShared);
    CountPositive(s.phase, IsWriting);
    if SomeWriting(s) {
      var u :| 0 <= u < |s.phase| && Writing(s.phase[u]);
      assert IsWriting(s.phase[u]);
    }
    if SomeShared(s) {
      var u :| 0 <= u < |s.phase| && s.phase[u] == Shared;
      assert IsShared(s.phase[u]);
    }
  }

  /**
   * try_lock takes the lock exactly when nobody writes or shares, and changes nothing otherwise. A
   * thread in lock takes the writer bit at its test exactly when nobody writes, and holds the lock at
   * once exactly when nobody shares either; when draining, exactly when nobody shares any more.
   */
  lemma WriterGetsIn(capacity: nat, threads: nat, k: nat, s: State, a: Action)
    requires Reach(capacity, threads, k, s) && Enabled(capacity, s, a)
    ensures a.TryLock? ==>
      (Do(capacity, s, a).phase[a.t] == Exclusive <==> !SomeWriting(s) && !SomeShared(s))
      && (Do(capacity, s, a).phase[a.t] != Exclusive ==> Do(capacity, s, a) == s)
    ensures a.TestLock? ==>
      (Writing(Do(capacity, s, a).phase[a.t]) <==> !SomeWriting(s))
      && (Do(capacity, s, a).phase[a.t] == Exclusive <==> !SomeWriting(s) && !SomeShared(s))
    ensures a.TestDrain? ==> (Do(capacity, s, a).phase[a.t] == Exclusive <==> !SomeShared(s))
  {
    hide Reach;
    AlwaysSafe(capacity, threads, k, s);
    LockTells(capacity, s);
    assert s.phase[a.t := s.phase[a.t]] == s.phase;
  }

  /** try_lock_shared and lock_shared get in exactly when nobody writes and a reader slot is free. */
  lemma ReaderGetsIn(capacity: nat, threads: nat, k: nat, s: State, a: Action)
    requires Reach(capacity, threads, k, s) && Enabled(capacity, s, a) && (a.TryShared? || a.TestShared?)
    ensures Do(capacity, s, a).phase[a.t] == Shared <==> !SomeWriting(s) && Count(s.phase, IsShared) < capacity
    ensures a.TryShared? && Do(capacity, s, a).phase[a.t] != Shared ==> Do(capacity, s, a) == s
  {
    hide Reach;
    AlwaysSafe(capacity, threads, k, s);
    LockTells(capacity, s);
    assert s.phase[a.t := s.phase[a.t]] == s.phase;
  }

  // ---------- the writer's drain ----------

  /** While a thread has the writer bit no reader enters, and each that leaves lowers the count. */
  lemma DrainStep(capacity: nat, s: State, a: Action, w: nat)
    requires Safe(capacity, s) && Enabled(capacity, s, a) && w < |s.phase| && Writing(s.phase[w])
    ensures var next := Do(capacity, s, a);
            && (forall t :: 0 <= t < |s.phase| && next.phase[t] == Shared ==> s.phase[t] == Shared)
            && next.lock.readers == s.lock.readers - (if a.UnlockShared? then 1 else 0)
            && (Writing(next.phase[w]) || (a == Unlock(w) && s.phase[w] == Exclusive))
  {
    Holders(s, w, a.t);
    Holders(s, a.t, a.t);
  }

  /** The states of a run in which thread w keeps the writer bit throughout. */
  ghost predicate WritingRun(capacity: nat, w: nat, run: seq<State>, actions: seq<Action>) {
    && |run| == |actions| + 1
    && (forall i :: 0 <= i < |run| ==> w < |run[i].phase| && Writing(run[i].phase[w]))
    && (forall i :: 0 <= i < |actions| ==> Enabled(capacity, run[i], actions[i]) && run[i + 1] == Do(capacity, run[i], actions[i]))
  }

  function Departures(actions: seq<Action>): nat {
    if actions == [] then 0
    else Departures(actions[..|actions| - 1]) + (if actions[|actions| - 1].UnlockShared? then 1 else 0)
  }

  /** The reader count is a termination measure of the drain: it equals the departures still to come. */
  lemma {:induction false} DrainRun(capacity: nat, w: nat, run: seq<State>, actions: seq<Action>)
    requires WritingRun(capacity, w, run, actions) && Safe(capacity, run[0])
    ensures Safe(capacity, run[|actions|])
    ensures run[|actions|].lock.readers + Departures(actions) == run[0].lock.readers
    ensures |run[|actions|].phase| == |run[0].phase|
    ensures forall t :: 0 <= t < |run[0].phase| && run[|actions|].phase[t] == Shared ==> run[0].phase[t] == Shared
  {
    if actions != [] {
      var n := |actions| - 1;
      assert actions[..n] + [actions[n]] == actions;
      DrainRun(capacity, w, run[..n + 1], actions[..n]);
      assert run[..n + 1][n] == run[n] && run[..n + 1][0] == run[0];
      StepSafe(capacity, run[n], actions[n]);
      DrainStep(capacity, run[n], actions[n], w);
    }
  }
}
