/** How many positions of a sequence satisfy a predicate. */
module Counting {
  function Count<T>(s: seq<T>, of: T -> bool): nat {
    if s == [] then 0 else Count(s[..|s| - 1], of) + (if of(s[|s| - 1]) then 1 else 0)
  }

  lemma {:induction false} CountUpdate<T>(s: seq<T>, of: T -> bool, i: nat, x: T)
    requires i < |s|
    ensures Count(s[i := x], of) == Count(s, of) - (if of(s[i]) then 1 else 0) + (if of(x) then 1 else 0)
  {
    var last := |s| - 1;
    if i == last {
      assert s[i := x][..last] == s[..last];
    } else {
      assert s[i := x][..last] == s[..last][i := x];
      CountUpdate(s[..last], of, i, x);
    }
  }

  lemma {:induction false} CountSame<T>(a: seq<T>, b: seq<T>, of: T -> bool)
    requires |a| == |b| && forall i :: 0 <= i < |a| ==> of(a[i]) == of(b[i])
    ensures Count(a, of) == Count(b, of)
  {
    if a != [] {
      CountSame(a[..|a| - 1], b[..|b| - 1], of);
    }
  }

  lemma {:induction false} CountPositive<T>(s: seq<T>, of: T -> bool)
    ensures Count(s, of) > 0 <==> exists i :: 0 <= i < |s| && of(s[i])
    ensures Count(s, of) <= |s|
  {
    if s != [] {
      CountPositive(s[..|s| - 1], of);
      assert of(s[|s| - 1]) || forall i :: 0 <= i < |s| && of(s[i]) ==> of(s[..|s| - 1][i]);
    }
  }

  lemma {:induction false} CountPair<T>(s: seq<T>, of: T -> bool, i: nat, j: nat)
    requires i < j < |s| && of(s[i]) && of(s[j])
    ensures Count(s, of) >= 2
  {
    var last := |s| - 1;
    if j == last {
      CountPositive(s[..last], of);
      assert of(s[..last][i]);
    } else {
      CountPair(s[..last], of, i, j);
    }
  }

  lemma {:induction false} CountOther<T>(s: seq<T>, of: T -> bool, i: nat)
    requires i < |s| && !of(s[i])
    ensures Count(s, of) <= |s| - 1
  {
    var last := |s| - 1;
    CountPositive(s[..last], of);
    if i < last {
      CountOther(s[..last], of, i);
    }
  }

  lemma {:induction false} CountOthers<T>(s: seq<T>, of: T -> bool, i: nat, j: nat)
    requires i < j < |s| && !of(s[i]) && !of(s[j])
    ensures Count(s, of) <= |s| - 2
  {
    var last := |s| - 1;
    if j == last {
      CountOther(s[..last], of, i);
    } else {
      CountPositive(s[last..], of);
      CountOthers(s[..last], of, i, j);
    }
  }

  /** When exactly one position satisfies the predicate, two that do are the same. */
  lemma CountOne<T>(s: seq<T>, of: T -> bool, i: nat, j: nat)
    requires i < |s| && j < |s| && of(s[i]) && of(s[j]) && Count(s, of) <= 1
    ensures i == j
  {
    if i < j {
      CountPair(s, of, i, j);
    } else if j < i {
      CountPair(s, of, j, i);
    }
  }
}
