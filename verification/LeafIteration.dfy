/**
 * Iterating the elements of a codec: the iterator of a struct's children, which skips arrays of
 * size zero, and the recursive walk that calls back once per leaf.
 */
module LeafIteration {
  /**
   * One element of a struct type, as `resolve` reports it. Every element of an array has the same
   * children. `placed` says that the element has a static position: only then does an array of
   * size zero resolve at array position 0.
   */
  datatype Element = Element(arraySize: nat, placed: bool, children: seq<Element>) {
    predicate Resolves() {
      arraySize > 0 || placed
    }
  }

  /** Element index and array position, one pair per level. */
  type Step = (nat, nat)
  type Path = seq<Step>

  // ---------- enumerations ----------

  /**
   * The array positions gone through at element k. A lenient walk does not look at the size of the
   * first element and so takes it to be there once.
   */
  function Positions(children: seq<Element>, k: nat, lenient: bool): nat
    requires k < |children|
  {
    if lenient && k == 0 && children[0].arraySize == 0 then 1 else children[k].arraySize
  }

  /** The leaves below the elements from index k on, in order; base is the way to their struct. */
  function LeavesFrom(children: seq<Element>, base: Path, k: nat, lenient: bool): seq<Path>
    requires k <= |children|
    decreases children, |children| - k, 1, 0
  {
    if k == |children| then []
    else LeavesAt(children, base, k, 0, lenient) + LeavesFrom(children, base, k + 1, lenient)
  }

  /** The leaves below element k from array position pos on. */
  function LeavesAt(children: seq<Element>, base: Path, k: nat, pos: nat, lenient: bool): seq<Path>
    requires k < |children| && pos <= Positions(children, k, lenient)
    decreases children, |children| - k, 0, Positions(children, k, lenient) - pos
  {
    if pos == Positions(children, k, lenient) then []
    else LeavesBelow(children[k], base + [(k, pos)], lenient) + LeavesAt(children, base, k, pos + 1, lenient)
  }

  /** The leaves below one array element. */
  function LeavesBelow(element: Element, here: Path, lenient: bool): seq<Path>
    decreases element.children, |element.children| + 1, 0, 0
  {
    if element.children == [] then [here] else LeavesFrom(element.children, here, 0, lenient)
  }

  /** What is documented: all leaf elements within all array elements. */
  function Leaves(children: seq<Element>, base: Path): seq<Path> {
    LeavesFrom(children, base, 0, false)
  }

  /** What the walk calls back for. */
  function Visited(children: seq<Element>, base: Path): seq<Path> {
    LeavesFrom(children, base, 0, true)
  }

  // ---------- which leaves there are ----------

  /** From level d on, p leads from these elements to a leaf: every step is to a position the array has. */
  predicate LeafPath(children: seq<Element>, p: Path, d: nat)
    decreases children
  {
    && d < |p| && p[d].0 < |children| && p[d].1 < children[p[d].0].arraySize
    && var below := children[p[d].0].children;
       if below == [] then |p| == d + 1 else LeafPath(below, p, d + 1)
  }

  /** The walk's step to a position: one that the array has, or position 0 of a first element of size 0. */
  predicate Entered(children: seq<Element>, step: Step) {
    && step.0 < |children|
    && (step.1 < children[step.0].arraySize || (step == (0, 0) && children[0].arraySize == 0))
  }

  /** The same with the walk's steps. */
  predicate CalledPath(children: seq<Element>, p: Path, d: nat)
    decreases children
  {
    && d < |p| && Entered(children, p[d])
    && var below := children[p[d].0].children;
       if below == [] then |p| == d + 1 else CalledPath(below, p, d + 1)
  }

  predicate IsLeaf(children: seq<Element>, p: Path, d: nat, lenient: bool) {
    if lenient then CalledPath(children, p, d) else LeafPath(children, p, d)
  }

  lemma {:induction false} LeafStep(children: seq<Element>, p: Path, d: nat, lenient: bool)
    ensures IsLeaf(children, p, d, lenient) <==>
      && d < |p| && p[d].0 < |children| && p[d].1 < Positions(children, p[d].0, lenient)
      && var below := children[p[d].0].children;
         if below == [] then |p| == d + 1 else IsLeaf(below, p, d + 1, lenient)
  {
  }

  lemma {:induction false} MembersFrom(children: seq<Element>, base: Path, k: nat, lenient: bool, p: Path)
    requires k <= |children|
    ensures p in LeavesFrom(children, base, k, lenient) <==>
      base <= p && IsLeaf(children, p, |base|, lenient) && p[|base|].0 >= k
    decreases children, |children| - k, 1, 0
  {
    if k < |children| {
      MembersAt(children, base, k, 0, lenient, p);
      MembersFrom(children, base, k + 1, lenient, p);
    }
  }

  lemma {:induction false} MembersAt(children: seq<Element>, base: Path, k: nat, pos: nat, lenient: bool, p: Path)
    requires k < |children| && pos <= Positions(children, k, lenient)
    ensures p in LeavesAt(children, base, k, pos, lenient) <==>
      base <= p && IsLeaf(children, p, |base|, lenient) && p[|base|].0 == k && p[|base|].1 >= pos
    decreases children, |children| - k, 0, Positions(children, k, lenient) - pos
  {
    if pos < Positions(children, k, lenient) {
      MembersBelow(children, base, k, pos, lenient, p);
      MembersAt(children, base, k, pos + 1, lenient, p);
    }
  }

  lemma PrefixStep(base: Path, step: Step, p: Path)
    ensures base + [step] <= p <==> base <= p && |base| < |p| && p[|base|] == step
  {
    if base + [step] <= p {
      assert base == (base + [step])[..|base|] == p[..|base|];
      assert p[|base|] == (base + [step])[|base|];
    }
  }

  lemma {:induction false} MembersBelow(children: seq<Element>, base: Path, k: nat, pos: nat, lenient: bool, p: Path)
    requires k < |children| && pos < Positions(children, k, lenient)
    ensures p in LeavesBelow(children[k], base + [(k, pos)], lenient) <==>
      base <= p && IsLeaf(children, p, |base|, lenient) && p[|base|] == (k, pos)
    decreases children, |children| - k, 0, 0
  {
    var here := base + [(k, pos)];
    PrefixStep(base, (k, pos), p);
    LeafStep(children, p, |base|, lenient);
    if children[k].children == [] {
      assert here <= p && |p| == |here| ==> p == here;
    } else {
      MembersFrom(children[k].children, here, 0, lenient, p);
    }
  }

  /** The documented leaves are exactly the paths to a leaf. */
  lemma LeavesAreTheLeafPaths(children: seq<Element>, p: Path)
    ensures p in Leaves(children, []) <==> LeafPath(children, p, 0)
  {
    MembersFrom(children, [], 0, false, p);
  }

  /** The walk calls back for exactly these paths: leaf paths, but for first elements of size 0. */
  lemma VisitedAreTheCalledPaths(children: seq<Element>, p: Path)
    ensures p in Visited(children, []) <==> CalledPath(children, p, 0)
  {
    MembersFrom(children, [], 0, true, p);
  }

  // ---------- their order ----------

  predicate Less(a: Step, b: Step) {
    a.0 < b.0 || (a.0 == b.0 && a.1 < b.1)
  }

  /** From level d on, p comes before q. */
  predicate Before(p: Path, q: Path, d: nat)
    decreases |p| - d
  {
    d < |p| && d < |q| && (Less(p[d], q[d]) || (p[d] == q[d] && Before(p, q, d + 1)))
  }

  ghost predicate Increasing(paths: seq<Path>, d: nat) {
    forall i, j :: 0 <= i < j < |paths| ==> Before(paths[i], paths[j], d)
  }

  lemma IncreasingConcat(a: seq<Path>, b: seq<Path>, d: nat)
    requires Increasing(a, d) && Increasing(b, d)
    requires forall p, q :: p in a && q in b ==> Before(p, q, d)
    ensures Increasing(a + b, d)
  {
  }

  lemma {:induction false} OrderFrom(children: seq<Element>, base: Path, k: nat, lenient: bool)
    requires k <= |children|
    ensures Increasing(LeavesFrom(children, base, k, lenient), |base|)
    decreases children, |children| - k, 1, 0
  {
    if k < |children| {
      var here, rest := LeavesAt(children, base, k, 0, lenient), LeavesFrom(children, base, k + 1, lenient);
      OrderAt(children, base, k, 0, lenient);
      OrderFrom(children, base, k + 1, lenient);
      forall p, q | p in here && q in rest
        ensures Before(p, q, |base|)
      {
        MembersAt(children, base, k, 0, lenient, p);
        MembersFrom(children, base, k + 1, lenient, q);
      }
      IncreasingConcat(here, rest, |base|);
    }
  }

  lemma {:induction false} OrderAt(children: seq<Element>, base: Path, k: nat, pos: nat, lenient: bool)
    requires k < |children| && pos <= Positions(children, k, lenient)
    ensures Increasing(LeavesAt(children, base, k, pos, lenient), |base|)
    decreases children, |children| - k, 0, Positions(children, k, lenient) - pos
  {
    if pos < Positions(children, k, lenient) {
      var below := LeavesBelow(children[k], base + [(k, pos)], lenient);
      var rest := LeavesAt(children, base, k, pos + 1, lenient);
      OrderBelow(children, base, k, pos, lenient);
      OrderAt(children, base, k, pos + 1, lenient);
      forall p, q | p in below && q in rest
        ensures Before(p, q, |base|)
      {
        MembersBelow(children, base, k, pos, lenient, p);
        MembersAt(children, base, k, pos + 1, lenient, q);
      }
      IncreasingConcat(below, rest, |base|);
    }
  }

  lemma {:induction false} OrderBelow(children: seq<Element>, base: Path, k: nat, pos: nat, lenient: bool)
    requires k < |children| && pos < Positions(children, k, lenient)
    ensures Increasing(LeavesBelow(children[k], base + [(k, pos)], lenient), |base|)
    decreases children, |children| - k, 0, 0
  {
    var here := base + [(k, pos)];
    var below := LeavesBelow(children[k], here, lenient);
    if children[k].children != [] {
      OrderFrom(children[k].children, here, 0, lenient);
      forall i, j | 0 <= i < j < |below|
        ensures Before(below[i], below[j], |base|)
      {
        assert below[i] in below && below[j] in below;
        MembersBelow(children, base, k, pos, lenient, below[i]);
        MembersBelow(children, base, k, pos, lenient, below[j]);
      }
    }
  }

  lemma {:induction false} NotBeforeItself(p: Path, d: nat)
    ensures !Before(p, p, d)
    decreases |p| - d
  {
    if d < |p| {
      NotBeforeItself(p, d + 1);
    }
  }

  /** Every walk goes in strictly increasing index order, so it meets no leaf twice. */
  lemma WalkIsOrdered(children: seq<Element>, base: Path, lenient: bool)
    ensures Increasing(LeavesFrom(children, base, 0, lenient), |base|)
    ensures forall i, j :: 0 <= i < j < |LeavesFrom(children, base, 0, lenient)| ==>
      LeavesFrom(children, base, 0, lenient)[i] != LeavesFrom(children, base, 0, lenient)[j]
  {
    OrderFrom(children, base, 0, lenient);
    var leaves := LeavesFrom(children, base, 0, lenient);
    forall i, j | 0 <= i < j < |leaves|
      ensures leaves[i] != leaves[j]
    {
      assert Before(leaves[i], leaves[j], |base|);
      NotBeforeItself(leaves[i], |base|);
    }
  }

  // ---------- when the walk does what is documented ----------

  /** Nowhere that can be reached does a struct start with an array of size zero. */
  predicate FirstsPresent(children: seq<Element>)
    decreases children
  {
    && (children != [] ==> children[0].arraySize > 0)
    && forall k :: 0 <= k < |children| && children[k].arraySize > 0 ==> FirstsPresent(children[k].children)
  }

  predicate PresentFrom(children: seq<Element>, k: nat) {
    && (k == 0 && children != [] ==> children[0].arraySize > 0)
    && forall j :: k <= j < |children| && children[j].arraySize > 0 ==> FirstsPresent(children[j].children)
  }

  lemma {:induction false} CompareFrom(children: seq<Element>, base: Path, k: nat)
    requires k <= |children|
    ensures PresentFrom(children, k) ==> LeavesFrom(children, base, k, true) == LeavesFrom(children, base, k, false)
    ensures !PresentFrom(children, k) ==>
      |LeavesFrom(children, base, k, true)| > |LeavesFrom(children, base, k, false)|
    decreases children, |children| - k, 1, 0
  {
    if k < |children| {
      CompareFrom(children, base, k + 1);
      if children[k].arraySize > 0 {
        CompareAt(children, base, k, 0);
      } else if k == 0 {
        SomethingVisited(children, base);
      }
    }
  }

  lemma {:induction false} CompareAt(children: seq<Element>, base: Path, k: nat, pos: nat)
    requires k < |children| && pos <= children[k].arraySize && children[k].arraySize > 0
    ensures FirstsPresent(children[k].children) || pos == children[k].arraySize ==>
      LeavesAt(children, base, k, pos, true) == LeavesAt(children, base, k, pos, false)
    ensures !FirstsPresent(children[k].children) && pos < children[k].arraySize ==>
      |LeavesAt(children, base, k, pos, true)| > |LeavesAt(children, base, k, pos, false)|
    decreases children, |children| - k, 0, children[k].arraySize - pos
  {
    if pos < children[k].arraySize {
      CompareAt(children, base, k, pos + 1);
      CompareFrom(children[k].children, base + [(k, pos)], 0);
    }
  }

  /** A walk over a struct with elements always calls back. */
  lemma {:induction false} SomethingVisited(children: seq<Element>, base: Path)
    requires children != []
    ensures LeavesAt(children, base, 0, 0, true) != []
    ensures Visited(children, base) != []
    decreases children
  {
    if children[0].children != [] {
      SomethingVisited(children[0].children, base + [(0, 0)]);
    }
    assert LeavesBelow(children[0], base + [(0, 0)], true) != [];
  }

  /** The walk calls back for the documented leaves if and only if no struct starts with nothing. */
  lemma VisitsTheLeavesIff(children: seq<Element>, base: Path)
    ensures Visited(children, base) == Leaves(children, base) <==> FirstsPresent(children)
  {
    CompareFrom(children, base, 0);
    assert PresentFrom(children, 0) <==> FirstsPresent(children);
  }

  /**
   * A tree on which the two differ: a struct whose first element takes its array size, here 0, from
   * an element behind it. The walk calls back for an element of the array, which has none.
   */
  lemma EmptyFirstIsVisited()
    ensures var children := [Element(0, true, []), Element(1, true, [])];
            && Leaves(children, []) == [[(1, 0)]]
            && Visited(children, []) == [[(0, 0)], [(1, 0)]]
  {
    var children := [Element(0, true, []), Element(1, true, [])];
    LastOfTwo(children, false);
    LastOfTwo(children, true);
    assert LeavesAt(children, [], 0, 0, false) == [] && LeavesAt(children, [], 0, 1, true) == [];
    var root: Path := [];
    assert root + [(0, 0)] == [(0, 0)];
    assert LeavesBelow(children[0], root + [(0, 0)], true) == [[(0, 0)]];
  }

  lemma {:induction false} LastOfTwo(children: seq<Element>, lenient: bool)
    requires |children| == 2 && children[1] == Element(1, true, [])
    ensures LeavesFrom(children, [], 1, lenient) == [[(1, 0)]]
  {
    var root: Path := [];
    assert root + [(1, 0)] == [(1, 0)];
    assert LeavesBelow(children[1], root + [(1, 0)], lenient) == [[(1, 0)]];
    assert LeavesAt(children, [], 1, 1, lenient) == [];
    assert LeavesAt(children, [], 1, 0, lenient) == [[(1, 0)]];
    assert LeavesFrom(children, [], 2, lenient) == [];
  }

  // ---------- how the walk ends ----------

  /** A walk makes calls and completes, or stops with an exception at a place that does not resolve. */
  datatype Outcome = Done(calls: seq<Path>) | Stopped(calls: seq<Path>, at: Path)

  /** First a, and then b unless a stopped. */
  function Then(a: Outcome, b: Outcome): Outcome {
    match a
    case Stopped(_, _) => a
    case Done(first) =>
      match b
      case Done(second) => Done(first + second)
      case Stopped(second, at) => Stopped(first + second, at)
  }

  function WalkFrom(children: seq<Element>, base: Path, k: nat): Outcome
    requires k <= |children|
    decreases children, |children| - k, 1, 0
  {
    if k == |children| then Done([])
    else if !children[k].Resolves() then Stopped([], base + [(k, 0)])
    else Then(WalkAt(children, base, k, 0), WalkFrom(children, base, k + 1))
  }

  function WalkAt(children: seq<Element>, base: Path, k: nat, pos: nat): Outcome
    requires k < |children| && pos <= Positions(children, k, true)
    decreases children, |children| - k, 0, Positions(children, k, true) - pos
  {
    if pos == Positions(children, k, true) then Done([])
    else Then(WalkBelow(children[k], base + [(k, pos)]), WalkAt(children, base, k, pos + 1))
  }

  function WalkBelow(element: Element, here: Path): Outcome
    decreases element.children, |element.children| + 1, 0, 0
  {
    if element.children == [] then Done([here]) else WalkFrom(element.children, here, 0)
  }

  /** From level d on, b leads by the walk's steps to an element that does not resolve. */
  predicate Blocked(children: seq<Element>, b: Path, d: nat)
    decreases children
  {
    && d < |b| && b[d].0 < |children|
    && var element := children[b[d].0];
       if |b| == d + 1 then b[d].1 == 0 && element.arraySize == 0 && !element.placed
       else Entered(children, b[d]) && Blocked(element.children, b, d + 1)
  }

  /** A walk that completes has called back for all of Visited. */
  lemma {:induction false} WalkCompletes(children: seq<Element>, base: Path, k: nat)
    requires k <= |children|
    ensures WalkFrom(children, base, k).Done? ==>
      WalkFrom(children, base, k).calls == LeavesFrom(children, base, k, true)
    decreases children, |children| - k, 1, 0
  {
    if k < |children| {
      AtCompletes(children, base, k, 0);
      WalkCompletes(children, base, k + 1);
    }
  }

  lemma {:induction false} AtCompletes(children: seq<Element>, base: Path, k: nat, pos: nat)
    requires k < |children| && pos <= Positions(children, k, true)
    ensures WalkAt(children, base, k, pos).Done? ==>
      WalkAt(children, base, k, pos).calls == LeavesAt(children, base, k, pos, true)
    decreases children, |children| - k, 0, Positions(children, k, true) - pos
  {
    if pos < Positions(children, k, true) {
      if children[k].children != [] {
        WalkCompletes(children[k].children, base + [(k, pos)], 0);
      }
      AtCompletes(children, base, k, pos + 1);
    }
  }

  /** A walk that stops does so at a place that does not resolve. */
  lemma {:induction false} StopsAtBlocked(children: seq<Element>, base: Path, k: nat)
    requires k <= |children|
    ensures WalkFrom(children, base, k).Stopped? ==>
      var at := WalkFrom(children, base, k).at;
      base <= at && Blocked(children, at, |base|) && at[|base|].0 >= k
    decreases children, |children| - k, 1, 0
  {
    if k < |children| && children[k].Resolves() {
      AtStopsAtBlocked(children, base, k, 0);
      StopsAtBlocked(children, base, k + 1);
    }
  }

  lemma {:induction false} AtStopsAtBlocked(children: seq<Element>, base: Path, k: nat, pos: nat)
    requires k < |children| && pos <= Positions(children, k, true)
    ensures WalkAt(children, base, k, pos).Stopped? ==>
      var at := WalkAt(children, base, k, pos).at;
      base <= at && Blocked(children, at, |base|) && |at| > |base| + 1 && at[|base|].0 == k && at[|base|].1 >= pos
    decreases children, |children| - k, 0, Positions(children, k, true) - pos
  {
    if pos < Positions(children, k, true) {
      var here := base + [(k, pos)];
      var below := WalkBelow(children[k], here);
      if below.Stopped? {
        StopsAtBlocked(children[k].children, here, 0);
        PrefixStep(base, (k, pos), below.at);
      }
      AtStopsAtBlocked(children, base, k, pos + 1);
    }
  }

  /** It stops at the first such place: none comes before, and a walk that completes has none. */
  lemma {:induction false} StopsAtFirst(children: seq<Element>, base: Path, k: nat, b: Path)
    requires k <= |children| && base <= b && Blocked(children, b, |base|) && b[|base|].0 >= k
    ensures WalkFrom(children, base, k).Stopped? && !Before(b, WalkFrom(children, base, k).at, |base|)
    decreases children, |children| - k, 1, 0
  {
    StopsAtBlocked(children, base, k);
    if children[k].Resolves() {
      AtStopsAtBlocked(children, base, k, 0);
      if b[|base|].0 == k {
        AtStopsAtFirst(children, base, k, 0, b);
      } else {
        StopsAtFirst(children, base, k + 1, b);
      }
    }
  }

  lemma {:induction false} AtStopsAtFirst(children: seq<Element>, base: Path, k: nat, pos: nat, b: Path)
    requires k < |children| && pos <= Positions(children, k, true)
    requires base <= b && Blocked(children, b, |base|) && |b| > |base| + 1 && b[|base|].0 == k && b[|base|].1 >= pos
    ensures WalkAt(children, base, k, pos).Stopped? && !Before(b, WalkAt(children, base, k, pos).at, |base|)
    decreases children, |children| - k, 0, Positions(children, k, true) - pos
  {
    var here := base + [(k, pos)];
    var below := WalkBelow(children[k], here);
    AtStopsAtBlocked(children, base, k, pos);
    if below.Stopped? {
      StopsAtBlocked(children[k].children, here, 0);
      PrefixStep(base, (k, pos), below.at);
    }
    if b[|base|].1 == pos {
      PrefixStep(base, (k, pos), b);
      StopsAtFirst(children[k].children, here, 0, b);
    } else {
      AtStopsAtFirst(children, base, k, pos + 1, b);
    }
  }

  /** A walk that stops has called back for exactly the leaves before the place. */
  lemma {:induction false} CallsBefore(children: seq<Element>, base: Path, k: nat, p: Path)
    requires k <= |children|
    ensures WalkFrom(children, base, k).Stopped? ==>
      (p in WalkFrom(children, base, k).calls <==>
        p in LeavesFrom(children, base, k, true) && Before(p, WalkFrom(children, base, k).at, |base|))
    decreases children, |children| - k, 1, 0
  {
    MembersFrom(children, base, k, true, p);
    StopsAtBlocked(children, base, k);
    if k < |children| && children[k].Resolves() {
      AtCallsBefore(children, base, k, 0, p);
      AtCompletes(children, base, k, 0);
      AtStopsAtBlocked(children, base, k, 0);
      MembersAt(children, base, k, 0, true, p);
      MembersFrom(children, base, k + 1, true, p);
      CallsBefore(children, base, k + 1, p);
      StopsAtBlocked(children, base, k + 1);
    }
  }

  lemma {:induction false} AtCallsBefore(children: seq<Element>, base: Path, k: nat, pos: nat, p: Path)
    requires k < |children| && pos <= Positions(children, k, true)
    ensures WalkAt(children, base, k, pos).Stopped? ==>
      (p in WalkAt(children, base, k, pos).calls <==>
        p in LeavesAt(children, base, k, pos, true) && Before(p, WalkAt(children, base, k, pos).at, |base|))
    decreases children, |children| - k, 0, Positions(children, k, true) - pos
  {
    if pos < Positions(children, k, true) {
      var here := base + [(k, pos)];
      var below := WalkBelow(children[k], here);
      MembersBelow(children, base, k, pos, true, p);
      MembersAt(children, base, k, pos + 1, true, p);
      AtStopsAtBlocked(children, base, k, pos + 1);
      if children[k].children != [] {
        WalkCompletes(children[k].children, here, 0);
        CallsBefore(children[k].children, here, 0, p);
      }
      if below.Stopped? {
        StopsAtBlocked(children[k].children, here, 0);
        PrefixStep(base, (k, pos), below.at);
        PrefixStep(base, (k, pos), p);
      }
      AtCallsBefore(children, base, k, pos + 1, p);
    }
  }

  predicate Stops(children: seq<Element>, b: Path) {
    Blocked(children, b, 0)
  }

  /** The walk ends by an exception if and only if some element on its way does not resolve. */
  lemma WalkThrowsIff(children: seq<Element>)
    ensures WalkFrom(children, [], 0).Stopped? <==> exists b: Path :: Stops(children, b)
  {
    if WalkFrom(children, [], 0).Stopped? {
      StopsAtBlocked(children, [], 0);
      var b := WalkFrom(children, [], 0).at;
      assert Stops(children, b);
    }
    forall b: Path | Stops(children, b)
      ensures WalkFrom(children, [], 0).Stopped?
    {
      var root: Path := [];
      assert |root| == 0 && root <= b;
      StopsAtFirst(children, [], 0, b);
    }
  }

  /** Then it has called back for exactly the leaves before the first such element. */
  lemma WalkStops(children: seq<Element>, p: Path, b: Path)
    requires WalkFrom(children, [], 0).Stopped?
    ensures var stopped := WalkFrom(children, [], 0);
            && Blocked(children, stopped.at, 0)
            && (Blocked(children, b, 0) ==> !Before(b, stopped.at, 0))
            && (p in stopped.calls <==> CalledPath(children, p, 0) && Before(p, stopped.at, 0))
  {
    StopsAtBlocked(children, [], 0);
    if Blocked(children, b, 0) {
      StopsAtFirst(children, [], 0, b);
    }
    CallsBefore(children, [], 0, p);
    VisitedAreTheCalledPaths(children, p);
  }

  /** Siblings of size zero that resolve add nothing. */
  lemma {:induction false} SkipEmpty(children: seq<Element>, base: Path, k: nat, next: nat)
    requires 0 < k <= next <= |children|
    requires forall j :: k <= j < next ==> children[j].arraySize == 0 && children[j].placed
    ensures WalkFrom(children, base, k) == WalkFrom(children, base, next)
    decreases next - k
  {
    if k < next {
      SkipEmpty(children, base, k + 1, next);
      assert WalkAt(children, base, k, 0) == Done([]);
      assert forall s: seq<Path> :: [] + s == s;
    }
  }

  lemma Regroup<T>(x: seq<T>, y: seq<T>, z: seq<T>)
    ensures (x + y) + z == x + (y + z)
  {
  }

  lemma ThenGroups(done: seq<Path>, here: Outcome, rest: Outcome)
    ensures here.Done? ==> Then(Done(done), Then(here, rest)) == Then(Done(done + here.calls), rest)
    ensures here.Stopped? ==> Then(Done(done), Then(here, rest)) == Stopped(done + here.calls, here.at)
  {
    if here.Done? {
      Regroup(done, here.calls, rest.calls);
    }
  }

  /** The log of a walk that ended like this. */
  predicate Ended(calls: seq<Path>, log: seq<Path>, thrown: bool, outcome: Outcome) {
    log == calls + outcome.calls && thrown == outcome.Stopped?
  }

  // ---------- the iterator and the walk ----------

  /** Points at one of the children of the struct at `base`, or behind the last. */
  class ElementIterator {
    const children: seq<Element>
    const base: Path
    var index: nat
    var childCount: nat

    constructor (children: seq<Element>, base: Path, childCount: nat)
      ensures this.children == children && this.base == base
      ensures index == 0 && this.childCount == childCount
    {
      this.children := children;
      this.base := base;
      index := 0;
      this.childCount := childCount;
    }

    /**
     * begin(): resolves the first child, whatever its array size, and throws (null) if it does not
     * resolve; without children it is the end.
     */
    static method Begin(children: seq<Element>, base: Path) returns (it: ElementIterator?)
      ensures it == null <==> children != [] && !children[0].Resolves()
      ensures it != null ==> fresh(it) && it.children == children && it.base == base && it.index == 0
      ensures it != null ==> it.childCount == if children == [] then 0 else |children[0].children|
    {
      if |children| > 0 {
        if !children[0].Resolves() {
          return null;
        }
        it := new ElementIterator(children, base, |children[0].children|);
      } else {
        it := new ElementIterator(children, base, 0);
      }
    }

    /**
     * Goes to the next sibling of non-zero size, or exactly to the end. Throws at a sibling that
     * does not resolve.
     */
    method Next() returns (thrown: bool)
      requires index < |children|
      modifies this
      ensures old(index) < index <= |children|
      ensures forall j :: old(index) < j < index ==> children[j].arraySize == 0 && children[j].placed
      ensures thrown ==> index < |children| && !children[index].Resolves()
      ensures !thrown && index < |children| ==>
        children[index].arraySize > 0 && childCount == |children[index].children|
      ensures index == |children| ==> childCount == old(childCount)
    {
      var breakIncreasing, indexValid := false, false;
      while !breakIncreasing
        invariant old(index) <= index <= |children|
        invariant forall j :: old(index) < j < index ==> children[j].arraySize == 0 && children[j].placed
        invariant !breakIncreasing ==> index < |children| && !indexValid
        invariant !breakIncreasing && old(index) < index ==> children[index].arraySize == 0 && children[index].placed
        invariant breakIncreasing ==> old(index) < index && indexValid == (index < |children|)
        invariant indexValid ==> children[index].arraySize > 0
        invariant childCount == old(childCount)
        decreases |children| - index, !breakIncreasing
      {
        index := index + 1;
        if index < |children| {
          if !children[index].Resolves() {
            return true;
          }
          if children[index].arraySize != 0 {
            breakIncreasing, indexValid := true, true;
          }
        } else {
          breakIncreasing := true;
        }
      }
      if indexValid {
        childCount := |children[index].children|;
      }
      thrown := false;
    }
  }

  /** One element of the walk: its array elements one by one if it is an array, else itself. */
  method VisitElement(children: seq<Element>, base: Path, k: nat, childCount: nat, calls: seq<Path>)
    returns (log: seq<Path>, thrown: bool)
    requires k < |children| && Positions(children, k, true) > 0 && childCount == |children[k].children|
    ensures Ended(calls, log, thrown, WalkAt(children, base, k, 0))
    decreases children, 0
  {
    log, thrown := calls, false;
    var element := children[k];
    if childCount > 0 {
      if element.arraySize > 1 {
        var arrayPos := 0;
        ghost var done: seq<Path> := [];
        while arrayPos < element.arraySize
          invariant arrayPos <= element.arraySize
          invariant log == calls + done && !thrown
          invariant WalkAt(children, base, k, 0) == Then(Done(done), WalkAt(children, base, k, arrayPos))
        {
          ghost var below := WalkFrom(element.children, base + [(k, arrayPos)], 0);
          ghost var rest := WalkAt(children, base, k, arrayPos + 1);
          log, thrown := ForEachLeafElement(element.children, base + [(k, arrayPos)], log);
          ThenGroups(done, below, rest);
          Regroup(calls, done, below.calls);
          if thrown {
            return;
          }
          done := done + below.calls;
          arrayPos := arrayPos + 1;
        }
      } else {
        log, thrown := ForEachLeafElement(element.children, base + [(k, 0)], log);
        assert WalkAt(children, base, k, 1) == Done([]);
      }
    } else {
      if element.arraySize > 1 {
        var arrayPos := 0;
        ghost var done: seq<Path> := [];
        while arrayPos < element.arraySize
          invariant arrayPos <= element.arraySize
          invariant log == calls + done && !thrown
          invariant WalkAt(children, base, k, 0) == Then(Done(done), WalkAt(children, base, k, arrayPos))
        {
          ghost var here := [base + [(k, arrayPos)]];
          ThenGroups(done, Done(here), WalkAt(children, base, k, arrayPos + 1));
          Regroup(calls, done, here);
          log := log + [base + [(k, arrayPos)]];
          done := done + here;
          arrayPos := arrayPos + 1;
        }
      } else {
        log := log + [base + [(k, 0)]];
        assert WalkAt(children, base, k, 1) == Done([]);
      }
    }
  }

  /**
   * The recursive walk over the children of the struct at `base`. The calls so far and those it
   * makes are the log. It ends as WalkFrom says, with an exception or not; calls made stay made.
   */
  method ForEachLeafElement(children: seq<Element>, base: Path, calls: seq<Path>)
    returns (log: seq<Path>, thrown: bool)
    ensures Ended(calls, log, thrown, WalkFrom(children, base, 0))
    ensures !thrown ==> log == calls + Visited(children, base)
    decreases children, 1
  {
    hide LeavesFrom, WalkAt;
    log, thrown := calls, false;
    WalkCompletes(children, base, 0);
    var it := ElementIterator.Begin(children, base);
    if it == null {
      return calls, true;
    }
    ghost var done: seq<Path> := [];
    while it.index != |children|
      invariant it.children == children && it.base == base && it.index <= |children|
      invariant log == calls + done && !thrown
      invariant WalkFrom(children, base, 0) == Then(Done(done), WalkFrom(children, base, it.index))
      invariant it.index < |children| ==> Positions(children, it.index, true) > 0 && children[it.index].Resolves()
      invariant it.index < |children| ==> it.childCount == |children[it.index].children|
      decreases |children| - it.index
    {
      var k := it.index;
      ghost var here, rest := WalkAt(children, base, k, 0), WalkFrom(children, base, k + 1);
      log, thrown := VisitElement(children, base, k, it.childCount, log);
      ThenGroups(done, here, rest);
      Regroup(calls, done, here.calls);
      if thrown {
        return;
      }
      thrown := it.Next();
      SkipEmpty(children, base, k + 1, it.index);
      done := done + here.calls;
      if thrown {
        return;
      }
    }
  }
}
