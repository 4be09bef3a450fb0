/**
 The hand-off of accepted requests to detached threads: push, count in, spawn; pop, process,
 count out, notify; and the wait for all of them once the accept thread has been joined.
 Requests are numbered in the order they are accepted.
 */
module RequestHandOff {
  import opened Counting

  // ---------- what the critical sections do ----------

  function PushEffect(queue: seq<nat>, request: nat): seq<nat> {
    queue + [request]
  }

  /** The oldest request, and the queue without it. */
  function PopEffect(queue: seq<nat>): (nat, seq<nat>)
    requires queue != []
  {
    (queue[0], queue[1..])
  }

  function CountInEffect(counter: int): int {
    counter + 1
  }

  function CountOutEffect(counter: int): int {
    counter - 1
  }

  /** The queue and the counter of outstanding requests, each changed under its own mutex. */
  class AcceptFunc {
    var queueRequest: seq<nat>
    var counter: int

    constructor ()
      ensures queueRequest == [] && counter == 0
    {
      queueRequest, counter := [], 0;
    }

    method Push(request: nat)
      modifies this`queueRequest
      ensures queueRequest == PushEffect(old(queueRequest), request)
    {
      queueRequest := queueRequest + [request];
    }

    method Pop() returns (request: nat)
      requires queueRequest != []
      modifies this`queueRequest
      ensures (request, queueRequest) == PopEffect(old(queueRequest))
      ensures [request] + queueRequest == old(queueRequest)
    {
      request := queueRequest[0];
      queueRequest := queueRequest[1..];
    }

    method CountIn()
      modifies this`counter
      ensures counter == CountInEffect(old(counter))
    {
      counter := counter + 1;
    }

    method CountOut()
      requires counter > 0
      modifies this`counter
      ensures counter == CountOutEffect(old(counter)) >= 0
    {
      counter := counter - 1;
    }
  }

  /** The accept thread: between requests, after push, after counting in, or joined. */
  datatype Accepting = Listening | Pushed | CountedIn | Joined

  datatype Worker =
    Spawned | Popped(request: nat) | Processed(request: nat) | CountedOut(request: nat) | Gone(request: nat)

  datatype Waiting = NotYet | Awake | Asleep | Returned

  /** accepted: how many requests came so far; processed: how often process_request ran for each. */
  datatype State = State(
    queue: seq<nat>, counter: int, accepted: nat, accepting: Accepting,
    workers: seq<Worker>, waiting: Waiting, processed: map<nat, nat>)

  datatype Action =
    | Accept | CountIn | Spawn | Join
    | Pop(w: nat) | Process(w: nat) | CountOut(w: nat) | NotifyAll(w: nat)
    | CallWait | TestCounter | SpuriousWake

  const INIT := State([], 0, 0, Listening, [], NotYet, map[])

  /** A worker acts next by its phase; the guard of Pop is left out on purpose. */
  predicate Enabled(s: State, a: Action) {
    match a
    case Accept => s.accepting == Listening
    case CountIn => s.accepting == Pushed
    case Spawn => s.accepting == CountedIn
    case Join => s.accepting == Listening
    case Pop(w) => w < |s.workers| && s.workers[w].Spawned?
    case Process(w) => w < |s.workers| && s.workers[w].Popped?
    case CountOut(w) => w < |s.workers| && s.workers[w].Processed?
    case NotifyAll(w) => w < |s.workers| && s.workers[w].CountedOut?
    case CallWait => s.accepting == Joined && s.waiting == NotYet
    case TestCounter => s.waiting == Awake
    case SpuriousWake => s.waiting == Asleep
  }

  function Runs(processed: map<nat, nat>, request: nat): nat {
    if request in processed then processed[request] else 0
  }

  function Do(s: State, a: Action): State
    requires Enabled(s, a)
  {
    match a
    case Accept => s.(queue := PushEffect(s.queue, s.accepted), accepted := s.accepted + 1, accepting := Pushed)
    case CountIn => s.(counter := CountInEffect(s.counter), accepting := CountedIn)
    case Spawn => s.(workers := s.workers + [Spawned], accepting := Listening)
    case Join => s.(accepting := Joined)
    case Pop(w) =>
      if s.queue == [] then s
      else
        var (request, rest) := PopEffect(s.queue);
        s.(queue := rest, workers := s.workers[w := Popped(request)])
    case Process(w) =>
      var r := s.workers[w].request;
      s.(workers := s.workers[w := Processed(r)], processed := s.processed[r := Runs(s.processed, r) + 1])
    case CountOut(w) => s.(counter := CountOutEffect(s.counter), workers := s.workers[w := Worker.CountedOut(s.workers[w].request)])
    case NotifyAll(w) =>
      s.(workers := s.workers[w := Gone(s.workers[w].request)], waiting := if s.waiting == Asleep then Awake else s.waiting)
    case CallWait => s.(waiting := Awake)
    case TestCounter => s.(waiting := if s.counter == 0 then Returned else Asleep)
    case SpuriousWake => s.(waiting := Awake)
  }

  ghost predicate Reach(k: nat, s: State) {
    if k == 0 then s == INIT
    else exists p: State, a: Action :: Reach(k - 1, p) && Enabled(p, a) && s == Do(p, a)
  }

  // ---------- the invariant ----------

  const IsSpawned := (w: Worker) => w.Spawned?
  const IsOutstanding := (w: Worker) => w.Spawned? || w.Popped? || w.Processed?

  /** Requests taken from the queue so far. */
  function Taken(s: State): int {
    s.accepted - |s.queue|
  }

  ghost predicate Accounted(s: State) {
    && Count(s.workers, IsSpawned) == |s.queue| - (if s.accepting == Pushed || s.accepting == CountedIn then 1 else 0)
    && Count(s.workers, IsOutstanding) == s.counter - (if s.accepting == CountedIn then 1 else 0)
  }

  /** The queue holds the latest requests, in order. */
  ghost predicate InOrder(s: State) {
    && |s.queue| <= s.accepted
    && (forall i :: 0 <= i < |s.queue| ==> s.queue[i] == Taken(s) + i)
  }

  /** Every taken request has exactly one worker. */
  ghost predicate OneWorkerEach(workers: seq<Worker>, taken: int) {
    && (forall w :: 0 <= w < |workers| && !workers[w].Spawned? ==> workers[w].request < taken)
    && (forall v, w :: 0 <= v < w < |workers| && !workers[v].Spawned? && !workers[w].Spawned? ==>
          workers[v].request != workers[w].request)
    && (forall r: nat :: r < taken ==> Served(workers, r))
  }

  ghost predicate Served(workers: seq<Worker>, r: nat) {
    exists w :: 0 <= w < |workers| && !workers[w].Spawned? && workers[w].request == r
  }

  /** process_request ran once for the requests of workers past it, and for no other. */
  ghost predicate ProcessedOnce(s: State) {
    && (forall w :: 0 <= w < |s.workers| && s.workers[w].Popped? ==> Runs(s.processed, s.workers[w].request) == 0)
    && (forall w :: 0 <= w < |s.workers| && !s.workers[w].Spawned? && !s.workers[w].Popped? ==>
          Runs(s.processed, s.workers[w].request) == 1)
    && (forall r: nat :: r >= Taken(s) ==> Runs(s.processed, r) == 0)
  }

  /** The waiter sleeps only while some worker has still to notify; it returns only when all are counted out. */
  ghost predicate WaitHolds(s: State) {
    && (s.waiting != NotYet ==> s.accepting == Joined)
    && (s.waiting == Asleep ==> exists w :: 0 <= w < |s.workers| && !s.workers[w].Gone?)
    && (s.waiting == Returned ==> s.counter == 0)
  }

  ghost predicate Inv(s: State) {
    Accounted(s) && InOrder(s) && OneWorkerEach(s.workers, Taken(s)) && ProcessedOnce(s) && WaitHolds(s)
  }

  lemma Moved(workers: seq<Worker>, w: nat, to: Worker)
    requires w < |workers|
    ensures Count(workers[w := to], IsSpawned)
         == Count(workers, IsSpawned) - (if workers[w].Spawned? then 1 else 0) + (if to.Spawned? then 1 else 0)
    ensures Count(workers[w := to], IsOutstanding)
         == Count(workers, IsOutstanding) - (if IsOutstanding(workers[w]) then 1 else 0) + (if IsOutstanding(to) then 1 else 0)
  {
    CountUpdate(workers, IsSpawned, w, to);
    CountUpdate(workers, IsOutstanding, w, to);
  }

  /** A spawned worker finds its request, and an outstanding one is counted. */
  lemma SomethingThere(s: State, w: nat)
    requires Accounted(s) && w < |s.workers|
    ensures s.workers[w].Spawned? ==> s.queue != []
    ensures IsOutstanding(s.workers[w]) ==> s.counter > 0
  {
    CountPositive(s.workers, IsSpawned);
    CountPositive(s.workers, IsOutstanding);
    assert IsSpawned(s.workers[w]) == s.workers[w].Spawned?;
  }

  lemma AcceptStep(s: State, a: Action)
    requires Inv(s) && Enabled(s, a) && (a.Accept? || a.CountIn? || a.Join?)
    ensures Inv(Do(s, a))
  {
    var next := Do(s, a);
    assert Taken(next) == Taken(s);
  }

  lemma SpawnStep(s: State)
    requires Inv(s) && Enabled(s, Spawn)
    ensures Inv(Do(s, Spawn))
  {
    var next := Do(s, Spawn);
    assert next.workers[..|s.workers|] == s.workers;
    forall r: nat | r < Taken(next)
      ensures Served(next.workers, r)
    {
      assert Served(s.workers, r);
      var w :| 0 <= w < |s.workers| && !s.workers[w].Spawned? && s.workers[w].request == r;
      assert next.workers[w] == s.workers[w];
    }
  }

  lemma PopStep(s: State, w: nat)
    requires Inv(s) && Enabled(s, Pop(w))
    ensures Inv(Do(s, Pop(w)))
  {
    SomethingThere(s, w);
    var next := Do(s, Pop(w));
    Moved(s.workers, w, Popped(s.queue[0]));
    assert Taken(next) == Taken(s) + 1 && next.workers[w].request == Taken(s);
    forall r: nat | r < Taken(next)
      ensures Served(next.workers, r)
    {
      if r == Taken(s) {
        assert next.workers[w].request == r;
      } else {
        assert Served(s.workers, r);
        var v :| 0 <= v < |s.workers| && !s.workers[v].Spawned? && s.workers[v].request == r;
        assert next.workers[v] == s.workers[v];
      }
    }
  }

  /** A worker that keeps its request keeps the assignment of requests to workers. */
  lemma AdvanceKeeps(workers: seq<Worker>, taken: int, w: nat, to: Worker)
    requires OneWorkerEach(workers, taken) && w < |workers| && !workers[w].Spawned? && !to.Spawned?
    requires to.request == workers[w].request
    ensures OneWorkerEach(workers[w := to], taken)
  {
    var after := workers[w := to];
    forall r: nat | r < taken
      ensures Served(after, r)
    {
      assert Served(workers, r);
      var v :| 0 <= v < |workers| && !workers[v].Spawned? && workers[v].request == r;
      assert after[v].request == r;
    }
  }

  lemma ProcessStep(s: State, w: nat)
    requires Inv(s) && Enabled(s, Process(w))
    ensures Inv(Do(s, Process(w)))
  {
    var next := Do(s, Process(w));
    forall v | 0 <= v < |s.workers| && v != w && !s.workers[v].Spawned?
      ensures s.workers[v].request != s.workers[w].request
    {
      assert s.workers[if v < w then v else w].request != s.workers[if v < w then w else v].request;
    }
    forall r: nat | r >= Taken(s)
      ensures Runs(next.processed, r) == 0
    {
      assert Runs(s.processed, r) == 0;
    }
    Moved(s.workers, w, next.workers[w]);
    AdvanceKeeps(s.workers, Taken(s), w, next.workers[w]);
    assert 0 <= w < |next.workers| && !next.workers[w].Gone?;
  }

  lemma CountOutStep(s: State, w: nat)
    requires Inv(s) && Enabled(s, CountOut(w))
    ensures Inv(Do(s, CountOut(w)))
  {
    SomethingThere(s, w);
    var next := Do(s, CountOut(w));
    Moved(s.workers, w, next.workers[w]);
    AdvanceKeeps(s.workers, Taken(s), w, next.workers[w]);
    assert 0 <= w < |next.workers| && !next.workers[w].Gone?;
  }

  lemma NotifyStep(s: State, w: nat)
    requires Inv(s) && Enabled(s, NotifyAll(w))
    ensures Inv(Do(s, NotifyAll(w)))
  {
    var next := Do(s, NotifyAll(w));
    Moved(s.workers, w, next.workers[w]);
    AdvanceKeeps(s.workers, Taken(s), w, next.workers[w]);
  }

  lemma WaitStep(s: State, a: Action)
    requires Inv(s) && Enabled(s, a) && (a.CallWait? || a.TestCounter? || a.SpuriousWake?)
    ensures Inv(Do(s, a))
  {
    var next := Do(s, a);
    CountPositive(s.workers, IsOutstanding);
  }

  lemma Step(s: State, a: Action)
    requires Inv(s) && Enabled(s, a)
    ensures Inv(Do(s, a))
  {
    if a.Accept? || a.CountIn? || a.Join? {
      AcceptStep(s, a);
    } else if a.Spawn? {
      SpawnStep(s);
    } else if a.Pop? {
      PopStep(s, a.w);
    } else if a.Process? {
      ProcessStep(s, a.w);
    } else if a.CountOut? {
      CountOutStep(s, a.w);
    } else if a.NotifyAll? {
      NotifyStep(s, a.w);
    } else {
      WaitStep(s, a);
    }
  }

  lemma InitInv()
    ensures Inv(INIT)
  {
  }

  lemma {:induction false} AlwaysInv(k: nat, s: State)
    requires Reach(k, s)
    ensures Inv(s)
  {
    hide Inv, Do, Enabled;
    if k == 0 {
      InitInv();
    } else {
      var p: State, a: Action :| Reach(k - 1, p) && Enabled(p, a) && s == Do(p, a);
      AlwaysInv(k - 1, p);
      Step(p, a);
    }
  }

  // ---------- what the protocol promises ----------

  /** Pop never meets an empty queue and gets the oldest request; the counter never goes below zero. */
  lemma PopAndCountSafe(k: nat, s: State, w: nat)
    requires Reach(k, s) && w < |s.workers|
    ensures s.workers[w].Spawned? ==> s.queue != [] && s.queue[0] == Taken(s)
    ensures s.workers[w].Processed? ==> s.counter - 1 >= 0
    ensures s.counter >= 0
  {
    AlwaysInv(k, s);
    SomethingThere(s, w);
  }

  /** No request is processed twice, and each that is processed was accepted. */
  lemma NeverTwice(k: nat, s: State, r: nat)
    requires Reach(k, s)
    ensures Runs(s.processed, r) <= 1
    ensures Runs(s.processed, r) == 1 ==> r < s.accepted
  {
    AlwaysInv(k, s);
    if r < Taken(s) {
      assert Served(s.workers, r);
    }
  }

  /** Once the wait has returned every accepted request has been processed, exactly once. */
  lemma AllProcessedOnReturn(k: nat, s: State, r: nat)
    requires Reach(k, s) && s.waiting == Returned
    ensures s.queue == [] && s.counter == 0
    ensures r < s.accepted <==> Runs(s.processed, r) == 1
    ensures r >= s.accepted <==> Runs(s.processed, r) == 0
    ensures forall w :: 0 <= w < |s.workers| ==> s.workers[w].CountedOut? || s.workers[w].Gone?
  {
    AlwaysInv(k, s);
    CountPositive(s.workers, IsOutstanding);
    CountPositive(s.workers, IsSpawned);
    forall w | 0 <= w < |s.workers|
      ensures !IsOutstanding(s.workers[w])
    {
      assert Count(s.workers, IsOutstanding) == 0;
    }
    assert Count(s.workers, IsSpawned) == 0 by {
      CountSame(s.workers, s.workers, IsSpawned);
      assert forall w :: 0 <= w < |s.workers| ==> !IsSpawned(s.workers[w]);
    }
    if r < s.accepted {
      assert Served(s.workers, r);
    }
  }

  /** The wait never sleeps forever: while it sleeps some worker has still to notify it. */
  lemma WaitIsWoken(k: nat, s: State)
    requires Reach(k, s) && s.waiting == Asleep
    ensures exists w :: 0 <= w < |s.workers| && !s.workers[w].Gone?
    ensures (forall w :: 0 <= w < |s.workers| ==> s.workers[w].CountedOut? || s.workers[w].Gone?) ==> s.counter == 0
  {
    AlwaysInv(k, s);
    CountPositive(s.workers, IsOutstanding);
  }

  // ---------- what the wait does not promise ----------

  /** Some detached thread has its notify_all on the condition variable still to come. */
  ghost predicate StillTouched(s: State) {
    exists w :: 0 <= w < |s.workers| && s.workers[w].CountedOut?
  }

  /** The wait has returned, with n requests accepted, and the object is still in use. */
  ghost predicate ReturnedEarly(s: State, n: nat) {
    s.waiting == Returned && s.accepted == n && StillTouched(s)
  }

  ghost predicate Leads(p: State, a: Action, s: State) {
    Enabled(p, a) && s == Do(p, a)
  }

  lemma Extend(k: nat, p: State, a: Action, s: State)
    requires Reach(k, p) && Leads(p, a, s)
    ensures Reach(k + 1, s)
  {
  }

  lemma ReachStart()
    ensures Reach(0, INIT)
  {
  }

  /** process_request has run once for each of the first n requests. */
  function OnceEach(n: nat): (processed: map<nat, nat>)
    ensures forall r: nat :: r in processed <==> r < n
  {
    if n == 0 then map[] else OnceEach(n - 1)[n - 1 := 1]
  }

  /** n requests have been served, one after the other, up to counting out. */
  function ServedUpTo(n: nat): State {
    State([], 0, n, Listening, seq(n, i requires 0 <= i < n => Worker.CountedOut(i)), NotYet, OnceEach(n))
  }

  /** The states while request n is accepted and served, step by step. */
  function Serving(n: nat, step: nat): State
    requires step < 6
  {
    var p := ServedUpTo(n);
    match step
    case 0 => p
    case 1 => p.(queue := [n], accepted := n + 1, accepting := Pushed)
    case 2 => p.(queue := [n], accepted := n + 1, counter := 1, accepting := CountedIn)
    case 3 => p.(queue := [n], accepted := n + 1, counter := 1, workers := p.workers + [Spawned])
    case 4 => p.(accepted := n + 1, counter := 1, workers := p.workers + [Popped(n)])
    case 5 => p.(accepted := n + 1, counter := 1, workers := p.workers + [Processed(n)], processed := p.processed[n := 1])
  }

  lemma AcceptOne(n: nat)
    ensures Leads(Serving(n, 0), Accept, Serving(n, 1))
    ensures Leads(Serving(n, 1), CountIn, Serving(n, 2))
    ensures Leads(Serving(n, 2), Spawn, Serving(n, 3))
  {
  }

  lemma ProcessOne(n: nat)
    ensures Leads(Serving(n, 3), Pop(n), Serving(n, 4))
    ensures Leads(Serving(n, 4), Process(n), Serving(n, 5))
  {
    var workers := ServedUpTo(n).workers;
    assert (workers + [Spawned])[n := Popped(n)] == workers + [Popped(n)];
    assert (workers + [Popped(n)])[n := Processed(n)] == workers + [Processed(n)];
  }

  lemma CountOutOne(n: nat)
    ensures Leads(Serving(n, 5), CountOut(n), ServedUpTo(n + 1))
  {
    var workers := ServedUpTo(n).workers;
    assert (workers + [Processed(n)])[n := Worker.CountedOut(n)] == ServedUpTo(n + 1).workers;
    assert ServedUpTo(n).processed[n := 1] == ServedUpTo(n + 1).processed;
  }

  lemma ServeOne(k: nat, n: nat)
    requires Reach(k, Serving(n, 0))
    ensures Reach(k + 6, ServedUpTo(n + 1))
  {
    hide Reach, Leads, Serving, ServedUpTo;
    AcceptOne(n);
    ProcessOne(n);
    CountOutOne(n);
    Extend(k, Serving(n, 0), Accept, Serving(n, 1));
    Extend(k + 1, Serving(n, 1), CountIn, Serving(n, 2));
    Extend(k + 2, Serving(n, 2), Spawn, Serving(n, 3));
    Extend(k + 3, Serving(n, 3), Pop(n), Serving(n, 4));
    Extend(k + 4, Serving(n, 4), Process(n), Serving(n, 5));
    Extend(k + 5, Serving(n, 5), CountOut(n), ServedUpTo(n + 1));
  }

  lemma {:induction false} ServeAll(n: nat)
    ensures Reach(6 * n, ServedUpTo(n))
  {
    hide Reach, Do, Enabled;
    if n == 0 {
      ReachStart();
      assert ServedUpTo(0) == INIT;
    } else {
      ServeAll(n - 1);
      assert Serving(n - 1, 0) == ServedUpTo(n - 1);
      ServeOne(6 * (n - 1), n - 1);
    }
  }

  /** The wait returns although none of the n threads has come to its notify_all. */
  lemma WaitReturns(n: nat)
    requires n > 0
    ensures exists k: nat, s: State :: Reach(k, s) && ReturnedEarly(s, n)
  {
    hide Reach;
    ServeAll(n);
    var served := ServedUpTo(n);
    var joined := served.(accepting := Joined);
    var called := joined.(waiting := Awake);
    var returned := called.(waiting := Returned);
    Extend(6 * n, served, Join, joined);
    Extend(6 * n + 1, joined, CallWait, called);
    Extend(6 * n + 2, called, TestCounter, returned);
    assert returned.workers[0].CountedOut?;
    assert ReturnedEarly(returned, n);
  }

  /**
   * A return from the wait can leave detached threads with the object in hand exactly when any
   * request has been accepted at all: only a server that never served may drop it right away.
   */
  lemma ReturnsEarlyIff(n: nat)
    ensures (exists k: nat, s: State :: Reach(k, s) && ReturnedEarly(s, n)) <==> n > 0
  {
    hide Reach;
    if n > 0 {
      WaitReturns(n);
    } else {
      forall k: nat, s: State | Reach(k, s)
        ensures !ReturnedEarly(s, n)
      {
        AlwaysInv(k, s);
      }
    }
  }
}
