/** The map of registered RPC objects, and what each operation's critical section does to it. */
module Registries {
  datatype Result = Ok | AlreadyRegistered | NotFound

  /** Stands for one registration: the mutex allocated for it and the object pointer. */
  type Item = nat

  type Table = map<string, Item>

  function RegisterEffect(table: Table, name: string, item: Item): (Table, Result) {
    if name in table then (table, AlreadyRegistered) else (table[name := item], Ok)
  }

  function EraseEffect(table: Table, name: string): Table {
    table - {name}
  }

  class Registry {
    var items: Table

    constructor ()
      ensures items == map[]
    {
      items := map[];
    }

    /** The body of RegisterRPCObject, run under the registry's exclusive lock. */
    method Register(name: string, item: Item) returns (r: Result)
      modifies this
      ensures (items, r) == RegisterEffect(old(items), name, item)
      ensures name in old(items) ==> r == AlreadyRegistered && items == old(items)
      ensures name !in old(items) ==> r == Ok && items == old(items)[name := item]
      ensures forall other :: other != name ==>
        (other in items <==> other in old(items)) && (other in items ==> items[other] == old(items)[other])
    {
      if name in items {
        return AlreadyRegistered;
      }
      items := items[name := item];
      r := Ok;
    }

    method Find(name: string) returns (found: bool, item: Item)
      ensures found <==> name in items
      ensures found ==> item == items[name]
    {
      found := name in items;
      item := if found then items[name] else 0;
    }

    /** The end of UnregisterRPCObject. */
    method Erase(name: string)
      requires name in items
      modifies this
      ensures items == EraseEffect(old(items), name)
      ensures items.Keys == old(items).Keys - {name}
    {
      items := items - {name};
    }
  }
}

/**
 Threads that register, unregister and get RPC objects, and copy, assign and destroy the
 handles they got: every interleaving of the critical sections on the registry's lock and on
 the lock of each object. A thread that waits for a lock repeats its test.
 */
module RegistryProtocol {
  import opened Counting
  import opened Registries
  import opened SharedMutexes

  /** What get hands back: a handle, or one that refers to nothing. */
  datatype Given = NoHandle | Handle(id: nat)

  /** Where a thread is inside an operation; "Wants" is before the first test of a lock. */
  datatype Phase =
    | Idle
    | RegWants(name: string) | RegDrains(name: string) | RegInside(name: string)
    | UnregWants(name: string) | UnregDrains(name: string) | UnregInside(name: string)
    | ObjWants(name: string, item: Item) | ObjDrains(name: string, item: Item) | ObjHeld(name: string, item: Item)
    | Erasing(name: string, item: Item)
    | GetWants(name: string) | GetInside(name: string) | GetFound(name: string, item: Item)
    | GetReturns(name: string, given: Given)
    | Copying(source: nat)

  /** registry: the registry's lock; locks: the object locks that exist; handles: live handles by identity. */
  datatype State = State(
    registry: Lock,
    table: Table,
    locks: map<Item, Lock>,
    handles: map<nat, Item>,
    phase: seq<Phase>,
    nextItem: Item)

  datatype Action =
    | CallRegister(t: nat, name: string) | CallUnregister(t: nat, name: string) | CallGet(t: nat, name: string)
    | CallCopy(t: nat, source: nat) | CallAssign(t: nat, target: nat, source: nat) | Destroy(t: nat, handle: nat)
    | Proceed(t: nat, handle: nat)   // handle: the identity of a handle that comes into being

  function Init(threads: nat): State {
    State(FREE, map[], map[], map[], seq(threads, i => Idle), 0)
  }

  /** A handle that a copy in progress reads from must not be destroyed or assigned. */
  predicate Pinned(s: State, h: nat) {
    exists t :: 0 <= t < |s.phase| && s.phase[t] == Copying(h)
  }

  ghost predicate Enabled(s: State, a: Action) {
    && a.t < |s.phase|
    && match a
       case Proceed(t, h) => s.phase[t] != Idle && h !in s.handles
       case CallCopy(t, source) => s.phase[t] == Idle && source in s.handles
       case CallAssign(t, target, source) =>
         s.phase[t] == Idle && target != source && target in s.handles && source in s.handles && !Pinned(s, target)
       case Destroy(t, h) => s.phase[t] == Idle && h in s.handles && !Pinned(s, h)
       case _ => s.phase[a.t] == Idle
  }

  /** The object lock a step uses, if any. */
  function Touched(s: State, a: Action): set<Item> {
    match a
    case CallAssign(_, target, _) => if target in s.handles then {s.handles[target]} else {}
    case Destroy(_, h) => if h in s.handles then {s.handles[h]} else {}
    case Proceed(t, _) =>
      if t >= |s.phase| then {}
      else (match s.phase[t]
            case ObjWants(_, item) => {item}
            case ObjDrains(_, item) => {item}
            case ObjHeld(_, item) => {item}
            case GetFound(_, item) => {item}
            case Copying(source) => if source in s.handles then {s.handles[source]} else {}
            case _ => {})
    case _ => {}
  }

  /** An object lock; reading or writing one that does not exist any more has no meaning in the source. */
  function LockOf(s: State, item: Item): Lock {
    if item in s.locks then s.locks[item] else FREE
  }

  function SetLock(s: State, item: Item, lock: Lock): (next: State)
    ensures next.phase == s.phase
  {
    if item in s.locks then s.(locks := s.locks[item := lock]) else s
  }

  function At(s: State, t: nat, p: Phase): State
    requires t < |s.phase|
  {
    s.(phase := s.phase[t := p])
  }

  /** Takes the registry's lock, or an object's, exclusively, as far as it gets now. */
  function Writer(outcome: Outcome, wants: Phase, drains: Phase, held: Phase): Phase {
    match outcome
    case Held => held
    case WaitCond2 => drains
    case _ => wants
  }

  function Drop(s: State, h: nat, capacity: nat): State
    requires h in s.handles
  {
    var item := s.handles[h];
    SetLock(s, item, UnlockSharedEffect(LockOf(s, item), capacity).0).(handles := s.handles - {h})
  }

  /** lock_shared on an object for a new handle, as far as it gets now. */
  function Take(s: State, t: nat, item: Item, h: nat, waits: Phase, held: Phase, capacity: nat): (next: State)
    requires t < |s.phase|
    ensures |next.phase| == |s.phase| && forall u :: 0 <= u < |s.phase| && u != t ==> next.phase[u] == s.phase[u]
  {
    var (after, outcome) := LockSharedEffect(LockOf(s, item), capacity, WaitCond1);
    if outcome.Held? then At(SetLock(s, item, after).(handles := s.handles[h := item]), t, held)
    else At(s, t, waits)
  }

  ghost function Do(capacity: nat, s: State, a: Action): (next: State)
    requires Enabled(s, a)
    ensures |next.phase| == |s.phase|
  {
    match a
    case CallRegister(t, name) => At(s, t, RegWants(name))
    case CallUnregister(t, name) => At(s, t, UnregWants(name))
    case CallGet(t, name) => At(s, t, GetWants(name))
    case CallCopy(t, source) => At(s, t, Copying(source))
    case CallAssign(t, target, source) => At(Drop(s, target, capacity), t, Copying(source))
    case Destroy(t, h) => Drop(s, h, capacity)
    case Proceed(t, h) =>
      (match s.phase[t]
       case Idle => s
       case RegWants(name) =>
         var (after, outcome) := LockEffect(s.registry);
         At(s.(registry := after), t, Writer(outcome, RegWants(name), RegDrains(name), RegInside(name)))
       case RegDrains(name) =>
         At(s, t, Writer(DrainOutcome(s.registry), RegWants(name), RegDrains(name), RegInside(name)))
       case RegInside(name) =>
         var (table, result) := RegisterEffect(s.table, name, s.nextItem);
         var added := if result.Ok? then s.(table := table, locks := s.locks[s.nextItem := FREE], nextItem := s.nextItem + 1) else s;
         At(added.(registry := FREE), t, Idle)
       case UnregWants(name) =>
         var (after, outcome) := LockEffect(s.registry);
         At(s.(registry := after), t, Writer(outcome, UnregWants(name), UnregDrains(name), UnregInside(name)))
       case UnregDrains(name) =>
         At(s, t, Writer(DrainOutcome(s.registry), UnregWants(name), UnregDrains(name), UnregInside(name)))
       case UnregInside(name) =>
         if name in s.table then At(s, t, ObjWants(name, s.table[name])) else At(s.(registry := FREE), t, Idle)
       case ObjWants(name, item) =>
         var (after, outcome) := LockEffect(LockOf(s, item));
         At(SetLock(s, item, after), t, Writer(outcome, ObjWants(name, item), ObjDrains(name, item), ObjHeld(name, item)))
       case ObjDrains(name, item) =>
         At(s, t, Writer(DrainOutcome(LockOf(s, item)), ObjWants(name, item), ObjDrains(name, item), ObjHeld(name, item)))
       case ObjHeld(name, item) => At(SetLock(s, item, FREE), t, Erasing(name, item))
       case Erasing(name, item) =>
         At(s.(table := EraseEffect(s.table, name), locks := s.locks - {item}, registry := FREE), t, Idle)
       case GetWants(name) =>
         var (after, outcome) := LockSharedEffect(s.registry, capacity, WaitCond1);
         At(s.(registry := after), t, if outcome.Held? then GetInside(name) else GetWants(name))
       case GetInside(name) =>
         if name in s.table then At(s, t, GetFound(name, s.table[name]))
         else At(s, t, GetReturns(name, NoHandle))
       case GetFound(name, item) => Take(s, t, item, h, GetFound(name, item), GetReturns(name, Handle(h)), capacity)
       case GetReturns(_, _) => At(s.(registry := UnlockSharedEffect(s.registry, capacity).0), t, Idle)
       case Copying(source) =>
         if source in s.handles then Take(s, t, s.handles[source], h, Copying(source), Idle, capacity) else s)
  }

  ghost predicate Reach(capacity: nat, threads: nat, k: nat, s: State) {
    if k == 0 then s == Init(threads)
    else exists p: State, a: Action :: Reach(capacity, threads, k - 1, p) && Enabled(p, a) && s == Do(capacity, p, a)
  }

  // ---------- the invariant ----------

  /** The thread has the registry's writer bit. */
  predicate WritesRegistry(p: Phase) {
    p.RegDrains? || p.UnregDrains? || Inside(p)
  }

  /** The thread has the registry exclusively. */
  predicate Inside(p: Phase) {
    p.RegInside? || p.UnregInside? || Unregisters(p)
  }

  predicate Unregisters(p: Phase) {
    p.ObjWants? || p.ObjDrains? || p.ObjHeld? || p.Erasing?
  }

  predicate ReadsRegistry(p: Phase) {
    p.GetInside? || p.GetFound? || p.GetReturns?
  }

  /** The thread has this object's writer bit. */
  predicate WritesObject(p: Phase, item: Item) {
    (p.ObjDrains? || p.ObjHeld?) && p.item == item
  }

  const IsWriter := (p: Phase) => WritesRegistry(p)
  const IsReader := (p: Phase) => ReadsRegistry(p)

  /** The live handles to an object. */
  function HandlesTo(handles: map<nat, Item>, item: Item): set<nat> {
    set h | h in handles && handles[h] == item
  }

  ghost predicate RegistryAccounted(capacity: nat, registry: Lock, phase: seq<Phase>) {
    && Count(phase, IsReader) == registry.readers <= capacity
    && Count(phase, IsWriter) == (if registry.writer then 1 else 0)
    && (forall t :: 0 <= t < |phase| && Inside(phase[t]) ==> registry.readers == 0)
  }

  /** Exactly the registered objects have a lock, each its own. */
  ghost predicate TableMatchesLocks(s: State) {
    && s.locks.Keys == s.table.Values
    && (forall m, n :: m in s.table && n in s.table && m != n ==> s.table[m] != s.table[n])
    && (forall item :: item in s.locks ==> item < s.nextItem)
  }

  /** Shared counts are handle counts; the writer bit belongs to the thread that unregisters. */
  ghost predicate ObjectsAccounted(s: State) {
    && (forall item :: item in s.locks ==> s.locks[item].readers == |HandlesTo(s.handles, item)|)
    && (forall item :: item in s.locks && s.locks[item].writer ==>
          exists t :: 0 <= t < |s.phase| && WritesObject(s.phase[t], item))
  }

  ghost predicate NoDanglingHandle(s: State) {
    forall h :: h in s.handles ==> s.handles[h] in s.table.Values
  }

  predicate HasWriter(s: State, item: Item) {
    item in s.locks && s.locks[item].writer
  }

  /** What a thread in the middle of an operation relies on. */
  ghost predicate PhaseHolds(s: State, p: Phase) {
    match p
    case ObjWants(name, item) => name in s.table && s.table[name] == item
    case ObjDrains(name, item) => name in s.table && s.table[name] == item && HasWriter(s, item)
    case ObjHeld(name, item) =>
      name in s.table && s.table[name] == item && HasWriter(s, item) && HandlesTo(s.handles, item) == {}
    case Erasing(name, item) => name in s.table && s.table[name] == item && HandlesTo(s.handles, item) == {}
    case GetFound(name, item) => name in s.table && s.table[name] == item
    case Copying(source) => source in s.handles
    case _ => true
  }

  ghost predicate ObjectsHold(s: State) {
    && TableMatchesLocks(s)
    && ObjectsAccounted(s)
    && NoDanglingHandle(s)
    && (forall t :: 0 <= t < |s.phase| ==> PhaseHolds(s, s.phase[t]))
  }

  ghost predicate Inv(capacity: nat, s: State) {
    RegistryAccounted(capacity, s.registry, s.phase) && ObjectsHold(s)
  }

  // ---------- who excludes whom on the registry's lock ----------

  lemma Moved(phase: seq<Phase>, t: nat, p: Phase)
    requires t < |phase|
    ensures Count(phase[t := p], IsReader)
         == Count(phase, IsReader) - (if ReadsRegistry(phase[t]) then 1 else 0) + (if ReadsRegistry(p) then 1 else 0)
    ensures Count(phase[t := p], IsWriter)
         == Count(phase, IsWriter) - (if WritesRegistry(phase[t]) then 1 else 0) + (if WritesRegistry(p) then 1 else 0)
  {
    CountUpdate(phase, IsReader, t, p);
    CountUpdate(phase, IsWriter, t, p);
  }

  lemma Excluded(capacity: nat, registry: Lock, phase: seq<Phase>, t: nat, u: nat)
    requires RegistryAccounted(capacity, registry, phase) && t < |phase| && u < |phase|
    ensures WritesRegistry(phase[t]) ==> registry.writer
    ensures WritesRegistry(phase[t]) && WritesRegistry(phase[u]) ==> t == u
    ensures ReadsRegistry(phase[t]) ==> registry.readers > 0 && !Inside(phase[u])
  {
    CountPositive(phase, IsReader);
    CountPositive(phase, IsWriter);
    assert IsReader(phase[t]) == ReadsRegistry(phase[t]);
    assert IsWriter(phase[t]) == WritesRegistry(phase[t]) && IsWriter(phase[u]) == WritesRegistry(phase[u]);
    if WritesRegistry(phase[t]) && WritesRegistry(phase[u]) {
      CountOne(phase, IsWriter, t, u);
    }
  }

  /** A thread inside, with nobody else inside or reading. */
  lemma Alone(capacity: nat, registry: Lock, phase: seq<Phase>, t: nat)
    requires RegistryAccounted(capacity, registry, phase) && t < |phase| && Inside(phase[t])
    ensures forall u :: 0 <= u < |phase| && u != t ==> !WritesRegistry(phase[u]) && !ReadsRegistry(phase[u])
  {
    forall u | 0 <= u < |phase| && u != t
      ensures !WritesRegistry(phase[u]) && !ReadsRegistry(phase[u])
    {
      Excluded(capacity, registry, phase, t, u);
      Excluded(capacity, registry, phase, u, t);
    }
  }

  lemma StayAccounted(capacity: nat, registry: Lock, phase: seq<Phase>, t: nat, p: Phase)
    requires RegistryAccounted(capacity, registry, phase) && t < |phase|
    requires ReadsRegistry(phase[t]) == ReadsRegistry(p) && WritesRegistry(phase[t]) == WritesRegistry(p)
    requires Inside(p) ==> registry.readers == 0
    ensures RegistryAccounted(capacity, registry, phase[t := p])
  {
    Moved(phase, t, p);
  }

  lemma LockAccounted(capacity: nat, registry: Lock, phase: seq<Phase>, t: nat, wants: Phase, drains: Phase, held: Phase)
    requires RegistryAccounted(capacity, registry, phase) && t < |phase|
    requires !ReadsRegistry(phase[t]) && !WritesRegistry(phase[t])
    requires !ReadsRegistry(wants) && !WritesRegistry(wants)
    requires WritesRegistry(drains) && !ReadsRegistry(drains) && !Inside(drains)
    requires WritesRegistry(held) && !ReadsRegistry(held)
    ensures var (after, outcome) := LockEffect(registry);
            RegistryAccounted(capacity, after, phase[t := Writer(outcome, wants, drains, held)])
  {
    Moved(phase, t, Writer(LockEffect(registry).1, wants, drains, held));
  }

  lemma UnlockAccounted(capacity: nat, registry: Lock, phase: seq<Phase>, t: nat)
    requires RegistryAccounted(capacity, registry, phase) && t < |phase| && Inside(phase[t])
    ensures RegistryAccounted(capacity, FREE, phase[t := Idle])
  {
    Moved(phase, t, Idle);
    Excluded(capacity, registry, phase, t, t);
    Alone(capacity, registry, phase, t);
  }

  lemma LockSharedAccounted(capacity: nat, registry: Lock, phase: seq<Phase>, t: nat, wants: Phase, held: Phase)
    requires RegistryAccounted(capacity, registry, phase) && t < |phase|
    requires !ReadsRegistry(phase[t]) && !WritesRegistry(phase[t])
    requires !ReadsRegistry(wants) && !WritesRegistry(wants) && ReadsRegistry(held) && !WritesRegistry(held)
    ensures var (after, outcome) := LockSharedEffect(registry, capacity, WaitCond1);
            RegistryAccounted(capacity, after, phase[t := if outcome.Held? then held else wants])
  {
    var (after, outcome) := LockSharedEffect(registry, capacity, WaitCond1);
    Moved(phase, t, if outcome.Held? then held else wants);
    if outcome.Held? {
      forall u | 0 <= u < |phase|
        ensures !Inside(phase[u])
      {
        Excluded(capacity, registry, phase, u, u);
      }
    }
  }

  lemma UnlockSharedAccounted(capacity: nat, registry: Lock, phase: seq<Phase>, t: nat)
    requires RegistryAccounted(capacity, registry, phase) && t < |phase| && ReadsRegistry(phase[t])
    ensures RegistryAccounted(capacity, UnlockSharedEffect(registry, capacity).0, phase[t := Idle])
  {
    Moved(phase, t, Idle);
    Excluded(capacity, registry, phase, t, t);
  }

  lemma CallStep(capacity: nat, s: State, a: Action)
    requires RegistryAccounted(capacity, s.registry, s.phase) && Enabled(s, a) && !a.Proceed?
    ensures RegistryAccounted(capacity, Do(capacity, s, a).registry, Do(capacity, s, a).phase)
  {
    if !a.Destroy? {
      var p := Do(capacity, s, a).phase[a.t];
      StayAccounted(capacity, s.registry, s.phase, a.t, p);
    }
  }

  lemma RegisterStep(capacity: nat, s: State, a: Action)
    requires RegistryAccounted(capacity, s.registry, s.phase) && Enabled(s, a) && a.Proceed?
    requires s.phase[a.t].RegWants? || s.phase[a.t].RegDrains? || s.phase[a.t].RegInside?
    ensures RegistryAccounted(capacity, Do(capacity, s, a).registry, Do(capacity, s, a).phase)
  {
    var name := s.phase[a.t].name;
    match s.phase[a.t]
    case RegWants(_) =>
      LockAccounted(capacity, s.registry, s.phase, a.t, RegWants(name), RegDrains(name), RegInside(name));
    case RegDrains(_) =>
      StayAccounted(capacity, s.registry, s.phase, a.t,
                    Writer(DrainOutcome(s.registry), RegWants(name), RegDrains(name), RegInside(name)));
    case RegInside(_) => UnlockAccounted(capacity, s.registry, s.phase, a.t);
  }

  lemma UnregisterStep(capacity: nat, s: State, a: Action)
    requires RegistryAccounted(capacity, s.registry, s.phase) && Enabled(s, a) && a.Proceed?
    requires s.phase[a.t].UnregWants? || s.phase[a.t].UnregDrains? || s.phase[a.t].UnregInside?
    ensures RegistryAccounted(capacity, Do(capacity, s, a).registry, Do(capacity, s, a).phase)
  {
    var name := s.phase[a.t].name;
    match s.phase[a.t]
    case UnregWants(_) =>
      LockAccounted(capacity, s.registry, s.phase, a.t, UnregWants(name), UnregDrains(name), UnregInside(name));
    case UnregDrains(_) =>
      StayAccounted(capacity, s.registry, s.phase, a.t,
                    Writer(DrainOutcome(s.registry), UnregWants(name), UnregDrains(name), UnregInside(name)));
    case UnregInside(_) =>
      if name in s.table {
        StayAccounted(capacity, s.registry, s.phase, a.t, ObjWants(name, s.table[name]));
      } else {
        UnlockAccounted(capacity, s.registry, s.phase, a.t);
      }
  }

  lemma ObjectStep(capacity: nat, s: State, a: Action)
    requires RegistryAccounted(capacity, s.registry, s.phase) && Enabled(s, a) && a.Proceed? && Unregisters(s.phase[a.t])
    ensures RegistryAccounted(capacity, Do(capacity, s, a).registry, Do(capacity, s, a).phase)
  {
    if s.phase[a.t].Erasing? {
      UnlockAccounted(capacity, s.registry, s.phase, a.t);
    } else {
      var p := Do(capacity, s, a).phase[a.t];
      StayAccounted(capacity, s.registry, s.phase, a.t, p);
    }
  }

  lemma GetStep(capacity: nat, s: State, a: Action)
    requires RegistryAccounted(capacity, s.registry, s.phase) && Enabled(s, a) && a.Proceed?
    requires ReadsRegistry(s.phase[a.t]) || s.phase[a.t].GetWants? || s.phase[a.t].Copying?
    ensures RegistryAccounted(capacity, Do(capacity, s, a).registry, Do(capacity, s, a).phase)
  {
    if s.phase[a.t].GetWants? {
      var name := s.phase[a.t].name;
      LockSharedAccounted(capacity, s.registry, s.phase, a.t, GetWants(name), GetInside(name));
    } else if s.phase[a.t].GetReturns? {
      UnlockSharedAccounted(capacity, s.registry, s.phase, a.t);
    } else {
      var p := Do(capacity, s, a).phase[a.t];
      Excluded(capacity, s.registry, s.phase, a.t, a.t);
      StayAccounted(capacity, s.registry, s.phase, a.t, p);
    }
  }

  /** Every step keeps the registry's lock accounted for. */
  lemma RegistryStep(capacity: nat, s: State, a: Action)
    requires RegistryAccounted(capacity, s.registry, s.phase) && Enabled(s, a)
    ensures RegistryAccounted(capacity, Do(capacity, s, a).registry, Do(capacity, s, a).phase)
  {
    if !a.Proceed? {
      CallStep(capacity, s, a);
    } else if Unregisters(s.phase[a.t]) {
      ObjectStep(capacity, s, a);
    } else if ReadsRegistry(s.phase[a.t]) || s.phase[a.t].GetWants? || s.phase[a.t].Copying? {
      GetStep(capacity, s, a);
    } else if s.phase[a.t].RegWants? || s.phase[a.t].RegDrains? || s.phase[a.t].RegInside? {
      RegisterStep(capacity, s, a);
    } else {
      UnregisterStep(capacity, s, a);
    }
  }

  // ---------- objects, handles and the table ----------

  lemma HandleAdded(handles: map<nat, Item>, h: nat, item: Item)
    requires h !in handles
    ensures HandlesTo(handles[h := item], item) == HandlesTo(handles, item) + {h} && h !in HandlesTo(handles, item)
    ensures forall other :: other != item ==> HandlesTo(handles[h := item], other) == HandlesTo(handles, other)
  {
  }

  lemma HandleDropped(handles: map<nat, Item>, h: nat)
    requires h in handles
    ensures HandlesTo(handles - {h}, handles[h]) == HandlesTo(handles, handles[h]) - {h} && h in HandlesTo(handles, handles[h])
    ensures forall other :: other != handles[h] ==> HandlesTo(handles - {h}, other) == HandlesTo(handles, other)
  {
  }

  /** A thread moves on; locks, handles and table stay. */
  lemma MoveHolds(s: State, registry: Lock, t: nat, p: Phase)
    requires ObjectsHold(s) && t < |s.phase| && PhaseHolds(s, p)
    requires forall item :: item in s.locks && s.locks[item].writer && WritesObject(s.phase[t], item) ==> WritesObject(p, item)
    ensures ObjectsHold(At(s.(registry := registry), t, p))
  {
    var next := At(s.(registry := registry), t, p);
    forall item | item in next.locks && next.locks[item].writer
      ensures exists u :: 0 <= u < |next.phase| && WritesObject(next.phase[u], item)
    {
      var u :| 0 <= u < |s.phase| && WritesObject(s.phase[u], item);
      assert WritesObject(next.phase[u], item);
    }
  }

  /** A shared count and a handle go up together; the object is not about to be erased. */
  lemma AddHandleHolds(s: State, h: nat, item: Item)
    requires ObjectsHold(s) && h !in s.handles && item in s.locks
    requires forall t :: 0 <= t < |s.phase| ==> !((s.phase[t].ObjHeld? || s.phase[t].Erasing?) && s.phase[t].item == item)
    ensures ObjectsHold(s.(locks := s.locks[item := s.locks[item].(readers := s.locks[item].readers + 1)],
                           handles := s.handles[h := item]))
  {
    HandleAdded(s.handles, h, item);
    var next := s.(locks := s.locks[item := s.locks[item].(readers := s.locks[item].readers + 1)],
                   handles := s.handles[h := item]);
    assert next.locks.Keys == s.locks.Keys;
    forall t | 0 <= t < |s.phase|
      ensures PhaseHolds(next, next.phase[t])
    {
      assert PhaseHolds(s, s.phase[t]);
    }
  }

  /** A handle and its shared count go down together; nobody copies from that handle. */
  lemma DropHolds(s: State, h: nat, capacity: nat)
    requires ObjectsHold(s) && h in s.handles && !Pinned(s, h)
    ensures ObjectsHold(Drop(s, h, capacity))
  {
    var item := s.handles[h];
    HandleDropped(s.handles, h);
    assert item in s.locks && s.locks[item].readers > 0;
    var next := Drop(s, h, capacity);
    assert next.locks.Keys == s.locks.Keys;
    forall t | 0 <= t < |s.phase|
      ensures PhaseHolds(next, next.phase[t])
    {
      assert PhaseHolds(s, s.phase[t]);
      assert s.phase[t] != Copying(h);
      if s.phase[t].ObjHeld? || s.phase[t].Erasing? {
        assert HandlesTo(next.handles, s.phase[t].item) <= HandlesTo(s.handles, s.phase[t].item);
      }
    }
  }

  /** The writer bit of an object is set or cleared by a thread that unregisters it. */
  lemma WriterBitHolds(s: State, item: Item, writer: bool, t: nat, p: Phase)
    requires ObjectsHold(s) && t < |s.phase| && item in s.locks
    requires PhaseHolds(s.(locks := s.locks[item := s.locks[item].(writer := writer)]), p)
    requires writer ==> WritesObject(p, item)
    requires forall other :: other != item ==> !WritesObject(s.phase[t], other)
    requires forall u :: 0 <= u < |s.phase| && u != t ==> !WritesObject(s.phase[u], item)
    ensures ObjectsHold(At(s.(locks := s.locks[item := s.locks[item].(writer := writer)]), t, p))
  {
    var next := At(s.(locks := s.locks[item := s.locks[item].(writer := writer)]), t, p);
    assert next.locks.Keys == s.locks.Keys;
    forall other | other in next.locks && next.locks[other].writer
      ensures exists u :: 0 <= u < |next.phase| && WritesObject(next.phase[u], other)
    {
      if other == item {
        assert WritesObject(next.phase[t], other);
      } else {
        var u :| 0 <= u < |s.phase| && WritesObject(s.phase[u], other);
        assert u != t;
        assert WritesObject(next.phase[u], other);
      }
    }
    forall u | 0 <= u < |next.phase|
      ensures PhaseHolds(next, next.phase[u])
    {
      if u != t {
        assert PhaseHolds(s, s.phase[u]) && !WritesObject(s.phase[u], item);
      }
    }
  }

  lemma ValuesAdded(table: Table, name: string, item: Item)
    requires name !in table
    ensures table[name := item].Values == table.Values + {item}
  {
    var next := table[name := item];
    assert next[name] == item;
    forall v | v in table.Values
      ensures v in next.Values
    {
      var n :| n in table && table[n] == v;
      assert next[n] == v;
    }
  }

  lemma NewItemUnused(s: State)
    requires ObjectsHold(s)
    ensures HandlesTo(s.handles, s.nextItem) == {}
  {
    forall h | h in s.handles
      ensures s.handles[h] != s.nextItem
    {
      assert s.handles[h] in s.locks;
    }
  }

  lemma RegisterPhaseHolds(s: State, name: string, next: State, p: Phase)
    requires ObjectsHold(s) && name !in s.table && PhaseHolds(s, p)
    requires next == s.(table := s.table[name := s.nextItem], locks := s.locks[s.nextItem := FREE],
                        nextItem := s.nextItem + 1)
    ensures PhaseHolds(next, p)
  {
    ValuesAdded(s.table, name, s.nextItem);
  }

  /** A new entry gets a new, free lock. */
  lemma RegisterHolds(s: State, name: string)
    requires ObjectsHold(s) && name !in s.table
    ensures ObjectsHold(s.(table := s.table[name := s.nextItem], locks := s.locks[s.nextItem := FREE],
                           nextItem := s.nextItem + 1))
  {
    hide PhaseHolds;
    var item := s.nextItem;
    var next := s.(table := s.table[name := item], locks := s.locks[item := FREE], nextItem := item + 1);
    ValuesAdded(s.table, name, item);
    NewItemUnused(s);
    forall t | 0 <= t < |s.phase|
      ensures PhaseHolds(next, next.phase[t])
    {
      RegisterPhaseHolds(s, name, next, s.phase[t]);
    }
  }

  /** An entry goes when no handle refers to it and no other thread is in the registry. */
  lemma EraseHolds(s: State, name: string, item: Item)
    requires ObjectsHold(s) && name in s.table && s.table[name] == item && HandlesTo(s.handles, item) == {}
    requires forall t :: 0 <= t < |s.phase| ==> !Unregisters(s.phase[t]) && !s.phase[t].GetFound?
    ensures ObjectsHold(s.(table := s.table - {name}, locks := s.locks - {item}))
  {
    var next := s.(table := s.table - {name}, locks := s.locks - {item});
    assert next.table.Values == s.table.Values - {item} by {
      forall v | v in s.table.Values && v != item
        ensures v in next.table.Values
      {
        var n :| n in s.table && s.table[n] == v;
        assert next.table[n] == v;
      }
    }
    forall h | h in s.handles
      ensures s.handles[h] in next.table.Values
    {
      assert h !in HandlesTo(s.handles, item);
    }
    forall t | 0 <= t < |s.phase|
      ensures PhaseHolds(next, next.phase[t])
    {
      assert PhaseHolds(s, s.phase[t]);
    }
  }

  // ---------- every step ----------

  lemma CallHolds(capacity: nat, s: State, a: Action)
    requires Inv(capacity, s) && Enabled(s, a) && !a.Proceed?
    ensures ObjectsHold(Do(capacity, s, a))
  {
    if a.Destroy? {
      DropHolds(s, a.handle, capacity);
    } else if a.CallAssign? {
      DropHolds(s, a.target, capacity);
      MoveHolds(Drop(s, a.target, capacity), s.registry, a.t, Copying(a.source));
    } else {
      var p := Do(capacity, s, a).phase[a.t];
      MoveHolds(s, s.registry, a.t, p);
    }
  }

  lemma RegisterProceeds(capacity: nat, s: State, a: Action)
    requires Inv(capacity, s) && Enabled(s, a) && a.Proceed?
    requires s.phase[a.t].RegWants? || s.phase[a.t].RegDrains? || s.phase[a.t].RegInside?
    ensures ObjectsHold(Do(capacity, s, a))
  {
    var name, next := s.phase[a.t].name, Do(capacity, s, a);
    if s.phase[a.t].RegInside? && name !in s.table {
      RegisterHolds(s, name);
      var added := s.(table := s.table[name := s.nextItem], locks := s.locks[s.nextItem := FREE], nextItem := s.nextItem + 1);
      MoveHolds(added, FREE, a.t, Idle);
    } else {
      MoveHolds(s, next.registry, a.t, next.phase[a.t]);
    }
  }

  lemma UnregisterProceeds(capacity: nat, s: State, a: Action)
    requires Inv(capacity, s) && Enabled(s, a) && a.Proceed?
    requires s.phase[a.t].UnregWants? || s.phase[a.t].UnregDrains? || s.phase[a.t].UnregInside?
    ensures ObjectsHold(Do(capacity, s, a))
  {
    var next := Do(capacity, s, a);
    MoveHolds(s, next.registry, a.t, next.phase[a.t]);
  }

  /** While a thread unregisters, no other does, and none is between finding an entry and its handle. */
  lemma OnlyUnregister(capacity: nat, s: State, t: nat)
    requires Inv(capacity, s) && t < |s.phase| && Unregisters(s.phase[t])
    ensures forall u :: 0 <= u < |s.phase| && u != t ==> !Unregisters(s.phase[u]) && !s.phase[u].GetFound?
  {
    Alone(capacity, s.registry, s.phase, t);
  }

  lemma NoHandles(s: State, item: Item)
    requires ObjectsHold(s) && item in s.locks && s.locks[item].readers == 0
    ensures HandlesTo(s.handles, item) == {}
  {
  }

  lemma ObjectProceeds(capacity: nat, s: State, a: Action)
    requires Inv(capacity, s) && Enabled(s, a) && a.Proceed? && Unregisters(s.phase[a.t])
    ensures ObjectsHold(Do(capacity, s, a))
  {
    var t, name, item, next := a.t, s.phase[a.t].name, s.phase[a.t].item, Do(capacity, s, a);
    assert PhaseHolds(s, s.phase[t]);
    assert item in s.locks;
    OnlyUnregister(capacity, s, t);
    if s.phase[t].ObjWants? {
      assert !s.locks[item].writer;
      if s.locks[item].readers == 0 {
        NoHandles(s, item);
      }
      WriterBitHolds(s, item, true, t, next.phase[t]);
    } else if s.phase[t].ObjDrains? {
      if s.locks[item].readers == 0 {
        NoHandles(s, item);
      }
      MoveHolds(s, s.registry, t, next.phase[t]);
    } else if s.phase[t].ObjHeld? {
      assert s.locks[item].readers == 0;
      WriterBitHolds(s, item, false, t, Erasing(name, item));
    } else {
      MoveHolds(s, FREE, t, Idle);
      EraseHolds(At(s.(registry := FREE), t, Idle), name, item);
    }
  }

  /** A new handle through lock_shared; only a thread that unregisters the object could object. */
  lemma TakeHolds(capacity: nat, s: State, t: nat, item: Item, h: nat, waits: Phase, held: Phase)
    requires ObjectsHold(s) && t < |s.phase| && h !in s.handles && item in s.locks
    requires forall u :: 0 <= u < |s.phase| ==> !((s.phase[u].ObjHeld? || s.phase[u].Erasing?) && s.phase[u].item == item)
    requires waits == s.phase[t] && !Unregisters(waits) && (held.Idle? || held.GetReturns?)
    ensures ObjectsHold(Take(s, t, item, h, waits, held, capacity))
  {
    if CanShare(s.locks[item], capacity) {
      AddHandleHolds(s, h, item);
      var added := s.(locks := s.locks[item := s.locks[item].(readers := s.locks[item].readers + 1)],
                      handles := s.handles[h := item]);
      MoveHolds(added, s.registry, t, held);
    } else {
      MoveHolds(s, s.registry, t, waits);
    }
  }

  lemma GetProceeds(capacity: nat, s: State, a: Action)
    requires Inv(capacity, s) && Enabled(s, a) && a.Proceed?
    requires ReadsRegistry(s.phase[a.t]) || s.phase[a.t].GetWants? || s.phase[a.t].Copying?
    ensures ObjectsHold(Do(capacity, s, a))
  {
    var t, p, next := a.t, s.phase[a.t], Do(capacity, s, a);
    assert PhaseHolds(s, p);
    if p.GetFound? {
      forall u | 0 <= u < |s.phase|
        ensures !Unregisters(s.phase[u])
      {
        Excluded(capacity, s.registry, s.phase, t, u);
      }
      TakeHolds(capacity, s, t, p.item, a.handle, p, GetReturns(p.name, Handle(a.handle)));
    } else if p.Copying? {
      var item := s.handles[p.source];
      assert p.source in HandlesTo(s.handles, item);
      forall u | 0 <= u < |s.phase|
        ensures !((s.phase[u].ObjHeld? || s.phase[u].Erasing?) && s.phase[u].item == item)
      {
        assert PhaseHolds(s, s.phase[u]);
      }
      TakeHolds(capacity, s, t, item, a.handle, p, Idle);
    } else {
      MoveHolds(s, next.registry, t, next.phase[t]);
    }
  }

  lemma Step(capacity: nat, s: State, a: Action)
    requires Inv(capacity, s) && Enabled(s, a)
    ensures Inv(capacity, Do(capacity, s, a))
  {
    RegistryStep(capacity, s, a);
    if !a.Proceed? {
      CallHolds(capacity, s, a);
    } else if Unregisters(s.phase[a.t]) {
      ObjectProceeds(capacity, s, a);
    } else if ReadsRegistry(s.phase[a.t]) || s.phase[a.t].GetWants? || s.phase[a.t].Copying? {
      GetProceeds(capacity, s, a);
    } else if s.phase[a.t].RegWants? || s.phase[a.t].RegDrains? || s.phase[a.t].RegInside? {
      RegisterProceeds(capacity, s, a);
    } else {
      UnregisterProceeds(capacity, s, a);
    }
  }

  // ---------- every reachable state ----------

  lemma InitInv(capacity: nat, threads: nat)
    ensures Inv(capacity, Init(threads))
  {
    CountPositive(Init(threads).phase, IsReader);
    CountPositive(Init(threads).phase, IsWriter);
  }

  lemma {:induction false} AlwaysInv(capacity: nat, threads: nat, k: nat, s: State)
    requires Reach(capacity, threads, k, s)
    ensures Inv(capacity, s)
  {
    hide Inv, Do, Enabled;
    if k == 0 {
      InitInv(capacity, threads);
    } else {
      var p: State, a: Action :| Reach(capacity, threads, k - 1, p) && Enabled(p, a) && s == Do(capacity, p, a);
      AlwaysInv(capacity, threads, k - 1, p);
      Step(capacity, p, a);
    }
  }

  /** Every live handle refers to a registered object, and counts once in that object's lock. */
  lemma NoHandleDangles(capacity: nat, threads: nat, k: nat, s: State, h: nat)
    requires Reach(capacity, threads, k, s) && h in s.handles
    ensures s.handles[h] in s.table.Values && s.handles[h] in s.locks
    ensures s.locks[s.handles[h]].readers == |HandlesTo(s.handles, s.handles[h])| > 0
  {
    AlwaysInv(capacity, threads, k, s);
    assert h in HandlesTo(s.handles, s.handles[h]);
  }

  /** No step uses the lock of an object that is gone. */
  lemma LocksExist(capacity: nat, threads: nat, k: nat, s: State, a: Action)
    requires Reach(capacity, threads, k, s) && Enabled(s, a)
    ensures Touched(s, a) <= s.locks.Keys
  {
    AlwaysInv(capacity, threads, k, s);
    assert PhaseHolds(s, s.phase[a.t]);
  }

  /** Only the end of an unregistration takes anything out of the table, and only its own entry. */
  lemma OnlyErasingErases(capacity: nat, s: State, a: Action, name: string)
    requires Enabled(s, a) && name in s.table
    ensures var next := Do(capacity, s, a);
            (name in next.table && next.table[name] == s.table[name])
            || (a.Proceed? && s.phase[a.t].Erasing? && s.phase[a.t].name == name)
    ensures s.table[name] !in Do(capacity, s, a).table.Values ==>
      a.Proceed? && s.phase[a.t].Erasing? && s.phase[a.t].name == name
  {
    var next := Do(capacity, s, a);
    if name in next.table {
      assert next.table[name] in next.table.Values;
    }
  }

  /** An object goes only at the end of its own unregistration, when no handle to it is left. */
  lemma ErasedUnused(capacity: nat, threads: nat, k: nat, s: State, a: Action, item: Item)
    requires Reach(capacity, threads, k, s) && Enabled(s, a)
    requires item in s.table.Values && item !in Do(capacity, s, a).table.Values
    ensures a.Proceed? && s.phase[a.t].Erasing? && s.phase[a.t].item == item
    ensures HandlesTo(s.handles, item) == {} && item !in Do(capacity, s, a).locks
  {
    AlwaysInv(capacity, threads, k, s);
    var next := Do(capacity, s, a);
    var n :| n in s.table && s.table[n] == item;
    OnlyErasingErases(capacity, s, a, n);
    assert PhaseHolds(s, s.phase[a.t]);
  }

  /** When GetRPCObject takes the object's shared lock no thread has or wants it exclusively. */
  lemma GetMeetsNoWriter(capacity: nat, threads: nat, k: nat, s: State, t: nat)
    requires Reach(capacity, threads, k, s) && t < |s.phase| && s.phase[t].GetFound?
    ensures s.phase[t].item in s.locks && !s.locks[s.phase[t].item].writer
    ensures forall u :: 0 <= u < |s.phase| ==> !Unregisters(s.phase[u])
  {
    AlwaysInv(capacity, threads, k, s);
    assert PhaseHolds(s, s.phase[t]);
    forall u | 0 <= u < |s.phase|
      ensures !Unregisters(s.phase[u])
    {
      Excluded(capacity, s.registry, s.phase, t, u);
    }
  }

  // ---------- what each operation does for its caller ----------

  /** Inside register, unregister or get, for a name. */
  predicate Registering(p: Phase) { p.RegWants? || p.RegDrains? || p.RegInside? }

  predicate Unregistering(p: Phase) { p.UnregWants? || p.UnregDrains? || p.UnregInside? || Unregisters(p) }

  predicate Getting(p: Phase) { p.GetWants? || ReadsRegistry(p) }

  /** A call starts its operation, for the name it was given. */
  lemma CallStarts(capacity: nat, s: State, a: Action)
    requires Enabled(s, a) && (a.CallRegister? || a.CallUnregister? || a.CallGet?)
    ensures var after := Do(capacity, s, a).phase[a.t];
            && (if a.CallRegister? then Registering(after) else if a.CallUnregister? then Unregistering(after) else Getting(after))
            && after.name == a.name
    ensures Do(capacity, s, a) == s.(phase := s.phase[a.t := Do(capacity, s, a).phase[a.t]])
  {
  }

  /** A copy starts from its source handle and leaves everything else as it is. */
  lemma CopyStarts(capacity: nat, s: State, a: Action)
    requires Enabled(s, a) && a.CallCopy?
    ensures Do(capacity, s, a) == s.(phase := s.phase[a.t := Copying(a.source)])
  {
  }

  ghost predicate SomeThread(phase: seq<Phase>, of: Phase -> bool) {
    exists u :: 0 <= u < |phase| && of(phase[u])
  }

  /** The registry's lock lets register and unregister in exactly when no thread writes or reads. */
  lemma WriterLetIn(capacity: nat, threads: nat, k: nat, s: State, a: Action, next: State)
    requires Reach(capacity, threads, k, s) && Enabled(s, a) && a.Proceed? && next == Do(capacity, s, a)
    requires s.phase[a.t].RegWants? || s.phase[a.t].UnregWants? || s.phase[a.t].RegDrains? || s.phase[a.t].UnregDrains?
    ensures Inside(next.phase[a.t]) <==>
      !SomeThread(s.phase, IsReader)
      && (s.phase[a.t].RegWants? || s.phase[a.t].UnregWants? ==> !SomeThread(s.phase, IsWriter))
  {
    hide Reach, ObjectsHold, RegisterEffect, EraseEffect, Take, Drop, SetLock, LockOf;
    AlwaysInv(capacity, threads, k, s);
    CountPositive(s.phase, IsReader);
    CountPositive(s.phase, IsWriter);
  }

  /** It lets get in exactly when no thread writes and a reader slot is free. */
  lemma ReaderLetIn(capacity: nat, threads: nat, k: nat, s: State, a: Action, next: State)
    requires Reach(capacity, threads, k, s) && Enabled(s, a) && a.Proceed? && next == Do(capacity, s, a)
    requires s.phase[a.t].GetWants?
    ensures next.phase[a.t].GetInside? <==> !SomeThread(s.phase, IsWriter) && Count(s.phase, IsReader) != capacity
  {
    hide Reach, ObjectsHold, RegisterEffect, EraseEffect, Take, Drop, SetLock, LockOf;
    AlwaysInv(capacity, threads, k, s);
    CountPositive(s.phase, IsWriter);
  }

  /** The object's lock lets the unregistering thread in exactly when no handle to the object is left. */
  lemma ObjectLetsIn(capacity: nat, threads: nat, k: nat, s: State, a: Action, next: State)
    requires Reach(capacity, threads, k, s) && Enabled(s, a) && a.Proceed? && next == Do(capacity, s, a)
    requires s.phase[a.t].ObjWants? || s.phase[a.t].ObjDrains?
    ensures |next.phase| == |s.phase|
    ensures next.phase[a.t].ObjHeld? <==> HandlesTo(s.handles, s.phase[a.t].item) == {}
    ensures !next.phase[a.t].ObjHeld? ==> next.phase[a.t].ObjDrains?
  {
    hide Reach;
    AlwaysInv(capacity, threads, k, s);
    assert PhaseHolds(s, s.phase[a.t]);
    var item := s.phase[a.t].item;
    OnlyUnregister(capacity, s, a.t);
    assert s.locks[item].writer ==> WritesObject(s.phase[a.t], item);
    if s.locks[item].readers == 0 {
      NoHandles(s, item);
    }
  }

  /** Only a thread's own steps move it. */
  lemma OwnSteps(capacity: nat, s: State, a: Action, u: nat)
    requires Enabled(s, a) && u < |s.phase| && u != a.t
    ensures Do(capacity, s, a).phase[u] == s.phase[u]
  {
    if a.Proceed? {
      OwnProceeds(capacity, s, a, u);
    }
  }

  lemma OwnProceeds(capacity: nat, s: State, a: Action, u: nat)
    requires Enabled(s, a) && u < |s.phase| && u != a.t && a.Proceed?
    ensures Do(capacity, s, a).phase[u] == s.phase[u]
  {
    hide LockEffect, DrainOutcome, LockSharedEffect, UnlockSharedEffect, RegisterEffect, EraseEffect;
    hide LockOf, SetLock, Writer, Drop, Take;
  }

  /** One step of get(name), from phase `before` to phase `after`. */
  ghost predicate GetAnswer(s: State, next: State, before: Phase, after: Phase)
    requires Getting(before)
  {
    && next.table == s.table
    && (if before.GetReturns? then after == Idle else Getting(after) && after.name == before.name)
    && (if before.GetReturns? || !after.GetReturns? || after.given.NoHandle? then next.handles == s.handles
        else before.name in s.table && after.given.id !in s.handles
             && next.handles == s.handles[after.given.id := s.table[before.name]])
    && (!before.GetReturns? && after.GetReturns? && after.given.NoHandle? ==> before.name !in s.table)
  }

  /**
   * get(name) stays get(name) until it comes back. It is given no handle exactly when the name is not
   * registered then, and otherwise a new handle to the object registered under that name.
   */
  lemma GetAnswers(capacity: nat, threads: nat, k: nat, s: State, a: Action, next: State)
    requires Reach(capacity, threads, k, s) && Enabled(s, a) && a.Proceed? && Getting(s.phase[a.t])
    requires next == Do(capacity, s, a)
    ensures |next.phase| == |s.phase| && GetAnswer(s, next, s.phase[a.t], next.phase[a.t])
  {
    hide Reach;
    AlwaysInv(capacity, threads, k, s);
    assert PhaseHolds(s, s.phase[a.t]);
  }

  /** Once it has found the object get waits for nothing but a reader slot. */
  lemma GetWaitsForSlot(capacity: nat, threads: nat, k: nat, s: State, a: Action, next: State)
    requires Reach(capacity, threads, k, s) && Enabled(s, a) && a.Proceed? && s.phase[a.t].GetFound?
    requires next == Do(capacity, s, a)
    ensures |next.phase| == |s.phase| && s.phase[a.t].item in s.locks
    ensures next.phase[a.t].GetReturns? <==> s.locks[s.phase[a.t].item].readers != capacity
    ensures !next.phase[a.t].GetReturns? ==> next == s
  {
    hide Reach;
    GetMeetsNoWriter(capacity, threads, k, s, a.t);
    assert s.phase[a.t := s.phase[a.t]] == s.phase;
  }

  /** register(name) comes back with the name registered: as it was, or for a new object with a free lock. */
  lemma RegisterAnswers(capacity: nat, threads: nat, k: nat, s: State, a: Action, next: State)
    requires Reach(capacity, threads, k, s) && Enabled(s, a) && a.Proceed? && Registering(s.phase[a.t])
    requires next == Do(capacity, s, a)
    ensures var name, after := s.phase[a.t].name, next.phase[a.t];
            && next.handles == s.handles
            && (after == Idle ==> s.phase[a.t].RegInside? && name in next.table)
            && (after != Idle ==> Registering(after) && after.name == name && next.table == s.table && next.locks == s.locks)
            && (after == Idle && name in s.table ==> next.table == s.table && next.locks == s.locks)
            && (after == Idle && name !in s.table ==>
                  next.table[name] !in s.table.Values && next.table[name] !in s.locks
                  && next.table == s.table[name := next.table[name]] && next.locks == s.locks[next.table[name] := FREE])
  {
    hide Reach;
    AlwaysInv(capacity, threads, k, s);
  }

  /** unregister(name) comes back from its look-up exactly when the name is not registered, else goes on to its object. */
  lemma UnregisterLooksUp(capacity: nat, threads: nat, k: nat, s: State, a: Action, next: State)
    requires Reach(capacity, threads, k, s) && Enabled(s, a) && a.Proceed? && next == Do(capacity, s, a)
    requires Unregistering(s.phase[a.t]) && !Unregisters(s.phase[a.t])
    ensures var name, after := s.phase[a.t].name, next.phase[a.t];
            && next.handles == s.handles && next.table == s.table && next.locks == s.locks
            && (after == Idle ==> name !in s.table)
            && (after != Idle ==> Unregistering(after) && after.name == name)
            && (s.phase[a.t].UnregInside? && name in s.table ==> after == ObjWants(name, s.table[name]))
  {
    hide LockEffect, DrainOutcome, LockSharedEffect, UnlockSharedEffect, RegisterEffect, EraseEffect;
    hide LockOf, Take, Drop, SetLock, Reach;
  }

  /** Then it stays at that object, and comes back having removed exactly its entry and its lock. */
  lemma UnregisterRemoves(capacity: nat, threads: nat, k: nat, s: State, a: Action, next: State)
    requires Reach(capacity, threads, k, s) && Enabled(s, a) && a.Proceed? && next == Do(capacity, s, a)
    requires Unregisters(s.phase[a.t])
    ensures var before, after := s.phase[a.t], next.phase[a.t];
            && before.name in s.table && before.item == s.table[before.name] && next.handles == s.handles
            && (after != Idle ==>
                  Unregisters(after) && after.name == before.name && after.item == before.item && next.table == s.table)
            && (after == Idle ==>
                  next.table == s.table - {before.name} && next.locks == s.locks - {before.item})
  {
    hide Reach;
    AlwaysInv(capacity, threads, k, s);
    assert PhaseHolds(s, s.phase[a.t]);
  }

  /** The state with handle h gone: one reader less on its object's lock, and nothing else. */
  ghost predicate Dropped(s: State, h: nat, next: State) {
    && h in s.handles && s.handles[h] in s.locks && s.handles[h] in next.locks
    && next.handles == s.handles - {h}
    && s.locks[s.handles[h]].readers > 0
    && next.locks == s.locks[s.handles[h] := s.locks[s.handles[h]].(readers := s.locks[s.handles[h]].readers - 1)]
    && next.table == s.table && next.registry == s.registry
  }

  /** Destroying a handle drops it; assigning to it drops what it was and then copies. */
  lemma DestroyDrops(capacity: nat, threads: nat, k: nat, s: State, a: Action, next: State)
    requires Reach(capacity, threads, k, s) && Enabled(s, a) && next == Do(capacity, s, a)
    ensures a.Destroy? ==> Dropped(s, a.handle, next) && next.phase == s.phase
    ensures a.CallAssign? ==> Dropped(s, a.target, next) && next.phase == s.phase[a.t := Copying(a.source)]
  {
    hide Reach;
    AlwaysInv(capacity, threads, k, s);
    var h := if a.Destroy? then a.handle else if a.CallAssign? then a.target else 0;
    if a.Destroy? || a.CallAssign? {
      NoHandleDangles(capacity, threads, k, s, h);
    }
  }

  // ---------- a copy that meets an unregistration ----------

  /** Thread t copies a handle to an object that thread u is draining. */
  ghost predicate CopyMeetsDrain(s: State, t: nat, u: nat) {
    && t < |s.phase| && u < |s.phase|
    && s.phase[t].Copying? && s.phase[u].ObjDrains?
    && s.phase[t].source in s.handles
    && s.handles[s.phase[t].source] == s.phase[u].item
  }

  lemma OthersLeaveThem(capacity: nat, s: State, a: Action, t: nat, u: nat)
    requires Enabled(s, a) && CopyMeetsDrain(s, t, u) && a.t != t && a.t != u && a.Proceed?
    requires !WritesRegistry(s.phase[a.t]) && !ReadsRegistry(s.phase[a.t]) && HasWriter(s, s.phase[u].item)
    ensures CopyMeetsDrain(Do(capacity, s, a), t, u)
    ensures Do(capacity, s, a).phase[t] == s.phase[t] && Do(capacity, s, a).phase[u] == s.phase[u]
  {
    if s.phase[a.t].Copying? && s.phase[a.t].source in s.handles {
      var other := s.handles[s.phase[a.t].source];
      if other == s.phase[u].item {
        assert !CanShare(s.locks[other], capacity);
      }
    }
  }

  lemma CallsLeaveThem(capacity: nat, s: State, a: Action, t: nat, u: nat)
    requires Enabled(s, a) && CopyMeetsDrain(s, t, u) && !a.Proceed?
    ensures CopyMeetsDrain(Do(capacity, s, a), t, u)
    ensures Do(capacity, s, a).phase[t] == s.phase[t] && Do(capacity, s, a).phase[u] == s.phase[u]
  {
    assert Pinned(s, s.phase[t].source);
  }

  /** Neither of the two moves, whatever step is taken by whom. */
  lemma CopyWaits(capacity: nat, s: State, a: Action, t: nat, u: nat)
    requires Inv(capacity, s) && Enabled(s, a) && CopyMeetsDrain(s, t, u)
    ensures CopyMeetsDrain(Do(capacity, s, a), t, u)
    ensures Do(capacity, s, a).phase[t] == s.phase[t] && Do(capacity, s, a).phase[u] == s.phase[u]
  {
    var source, item := s.phase[t].source, s.phase[u].item;
    assert source in HandlesTo(s.handles, item);
    assert PhaseHolds(s, s.phase[u]);
    if !a.Proceed? {
      CallsLeaveThem(capacity, s, a, t, u);
    } else if a.t != t && a.t != u {
      Alone(capacity, s.registry, s.phase, u);
      OthersLeaveThem(capacity, s, a, t, u);
    } else {
      assert s.locks[item].readers > 0 && !CanShare(s.locks[item], capacity);
    }
  }

  ghost predicate Leads(capacity: nat, p: State, a: Action, s: State) {
    Enabled(p, a) && s == Do(capacity, p, a)
  }

  /** Consecutive states of a run. */
  ghost predicate Chain(capacity: nat, states: seq<State>, actions: seq<Action>) {
    && |states| == |actions| + 1
    && (forall i :: 0 <= i < |actions| ==> Leads(capacity, states[i], actions[i], states[i + 1]))
  }

  /** Once they have met, neither ever moves again, in any run of any threads: each waits for the other. */
  lemma {:induction false} CopyWaitsForever(
    capacity: nat, states: seq<State>, actions: seq<Action>, i: nat, t: nat, u: nat)
    requires Chain(capacity, states, actions) && i <= |actions|
    requires Inv(capacity, states[0]) && CopyMeetsDrain(states[0], t, u)
    ensures Inv(capacity, states[i]) && CopyMeetsDrain(states[i], t, u)
    ensures states[i].phase[t] == states[0].phase[t] && states[i].phase[u] == states[0].phase[u]
    decreases i
  {
    hide Inv, Do, Enabled;
    if i > 0 {
      CopyWaitsForever(capacity, states, actions, i - 1, t, u);
      assert Leads(capacity, states[i - 1], actions[i - 1], states[i]);
      CopyWaits(capacity, states[i - 1], actions[i - 1], t, u);
      Step(capacity, states[i - 1], actions[i - 1]);
    }
  }

  /**
   * When a copy gets its lock: exactly when nobody is draining the object, and a reader slot is free.
   * Then the new handle refers to the object of the old one.
   */
  lemma CopyGoesThroughIff(capacity: nat, threads: nat, k: nat, s: State, t: nat, h: nat, next: State)
    requires Reach(capacity, threads, k, s) && t < |s.phase| && s.phase[t].Copying? && h !in s.handles
    requires next == Do(capacity, s, Proceed(t, h))
    ensures |next.phase| == |s.phase| && s.phase[t].source in s.handles && s.handles[s.phase[t].source] in s.locks
    ensures next.phase[t] == Idle <==>
      (forall u :: 0 <= u < |s.phase| ==> !CopyMeetsDrain(s, t, u))
      && s.locks[s.handles[s.phase[t].source]].readers != capacity
    ensures next.phase[t] == Idle ==> next.handles == s.handles[h := s.handles[s.phase[t].source]]
    ensures next.phase[t] != Idle ==> next == s
  {
    hide Reach;
    AlwaysInv(capacity, threads, k, s);
    assert PhaseHolds(s, s.phase[t]);
    CopyMeetsIff(capacity, s, t);
  }

  /** A thread that copies finds the writer bit set exactly when some thread is draining the object. */
  lemma CopyMeetsIff(capacity: nat, s: State, t: nat)
    requires Inv(capacity, s) && t < |s.phase| && s.phase[t].Copying? && s.phase[t].source in s.handles
    ensures HasWriter(s, s.handles[s.phase[t].source]) <==>
      exists u :: 0 <= u < |s.phase| && CopyMeetsDrain(s, t, u)
  {
    var item := s.handles[s.phase[t].source];
    assert s.phase[t].source in HandlesTo(s.handles, item);
    if HasWriter(s, item) {
      var u :| 0 <= u < |s.phase| && WritesObject(s.phase[u], item);
      assert PhaseHolds(s, s.phase[u]);
      assert CopyMeetsDrain(s, t, u);
    }
  }

  lemma ReachStart(capacity: nat, threads: nat)
    ensures Reach(capacity, threads, 0, Init(threads))
  {
  }

  lemma {:induction false} ChainReaches(
    capacity: nat, threads: nat, states: seq<State>, actions: seq<Action>, i: nat)
    requires Chain(capacity, states, actions) && i <= |actions| && states[0] == Init(threads)
    ensures Reach(capacity, threads, i, states[i])
    decreases i
  {
    hide Reach, Leads;
    if i == 0 {
      ReachStart(capacity, threads);
    } else {
      ChainReaches(capacity, threads, states, actions, i - 1);
      Extend(capacity, threads, i - 1, states[i - 1], actions[i - 1], states[i]);
    }
  }

  lemma Extend(capacity: nat, threads: nat, k: nat, p: State, a: Action, s: State)
    requires Reach(capacity, threads, k, p) && Leads(capacity, p, a, s)
    ensures Reach(capacity, threads, k + 1, s)
  {
  }

  /** One object named "a", and the handles to it. */
  function OneObject(registry: Lock, lock: Lock, handles: map<nat, Item>, phase: seq<Phase>): State {
    State(registry, map["a" := 0], map[0 := lock], handles, phase, 1)
  }

  /** Thread 0 registers "a" and gets a handle; thread 1 unregisters "a"; thread 0 copies its handle. */
  const MEETING_ACTIONS: seq<Action> := [
    CallRegister(0, "a"), Proceed(0, 0), Proceed(0, 0),
    CallGet(0, "a"), Proceed(0, 0), Proceed(0, 0), Proceed(0, 0), Proceed(0, 1),
    CallUnregister(1, "a"), Proceed(1, 1), Proceed(1, 1), Proceed(1, 1),
    CallCopy(0, 0)]

  const MEETING_STATES: seq<State> := [
    State(FREE, map[], map[], map[], [Idle, Idle], 0),
    State(FREE, map[], map[], map[], [RegWants("a"), Idle], 0),
    State(Lock(true, 0), map[], map[], map[], [RegInside("a"), Idle], 0),
    OneObject(FREE, FREE, map[], [Idle, Idle]),
    OneObject(FREE, FREE, map[], [GetWants("a"), Idle]),
    OneObject(Lock(false, 1), FREE, map[], [GetInside("a"), Idle]),
    OneObject(Lock(false, 1), FREE, map[], [GetFound("a", 0), Idle]),
    OneObject(Lock(false, 1), Lock(false, 1), map[0 := 0], [GetReturns("a", Handle(0)), Idle]),
    OneObject(FREE, Lock(false, 1), map[0 := 0], [Idle, Idle]),
    OneObject(FREE, Lock(false, 1), map[0 := 0], [Idle, UnregWants("a")]),
    OneObject(Lock(true, 0), Lock(false, 1), map[0 := 0], [Idle, UnregInside("a")]),
    OneObject(Lock(true, 0), Lock(false, 1), map[0 := 0], [Idle, ObjWants("a", 0)]),
    OneObject(Lock(true, 0), Lock(true, 1), map[0 := 0], [Idle, ObjDrains("a", 0)]),
    OneObject(Lock(true, 0), Lock(true, 1), map[0 := 0], [Copying(0), ObjDrains("a", 0)])]

  lemma RegisterSteps(capacity: nat, i: nat)
    requires capacity > 0 && 0 <= i < 3
    ensures Leads(capacity, MEETING_STATES[i], MEETING_ACTIONS[i], MEETING_STATES[i + 1])
  {
  }

  lemma FindSteps(capacity: nat, i: nat)
    requires capacity > 0 && 3 <= i < 6
    ensures Leads(capacity, MEETING_STATES[i], MEETING_ACTIONS[i], MEETING_STATES[i + 1])
  {
  }

  lemma GetSteps(capacity: nat, i: nat)
    requires capacity > 0 && 6 <= i < 8
    ensures Leads(capacity, MEETING_STATES[i], MEETING_ACTIONS[i], MEETING_STATES[i + 1])
  {
  }

  lemma UnregisterSteps(capacity: nat, i: nat)
    requires capacity > 0 && 8 <= i < 11
    ensures Leads(capacity, MEETING_STATES[i], MEETING_ACTIONS[i], MEETING_STATES[i + 1])
  {
  }

  lemma MeetSteps(capacity: nat, i: nat)
    requires capacity > 0 && 11 <= i < 13
    ensures Leads(capacity, MEETING_STATES[i], MEETING_ACTIONS[i], MEETING_STATES[i + 1])
  {
  }

  /** Such a meeting is reachable: get a handle, start to unregister its object, copy the handle. */
  lemma CopyMeetsDrainReached(capacity: nat)
    requires capacity > 0
    ensures exists k: nat, s: State :: Reach(capacity, 2, k, s) && CopyMeetsDrain(s, 0, 1)
  {
    forall i | 0 <= i < |MEETING_ACTIONS|
      ensures Leads(capacity, MEETING_STATES[i], MEETING_ACTIONS[i], MEETING_STATES[i + 1])
    {
      if i < 3 {
        RegisterSteps(capacity, i);
      } else if i < 6 {
        FindSteps(capacity, i);
      } else if i < 8 {
        GetSteps(capacity, i);
      } else if i < 11 {
        UnregisterSteps(capacity, i);
      } else {
        MeetSteps(capacity, i);
      }
    }
    assert Init(2).phase == [Idle, Idle];
    ChainReaches(capacity, 2, MEETING_STATES, MEETING_ACTIONS, 13);
    assert CopyMeetsDrain(MEETING_STATES[13], 0, 1);
  }
}