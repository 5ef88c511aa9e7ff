/** Which elements the two sifts of lib/ds/heap.c move, and where to. */
module SiftPaths {
  import opened Order
  import opened HeapOrder

  /** r is s with the element at path[0] moved to the path's last index, and each element on the
      path behind it moved one index up the path. */
  ghost predicate Shifted<T>(s: seq<T>, r: seq<T>, path: seq<nat>)
  {
    && |r| == |s| && path != []
    && (forall t | 0 <= t < |path| :: path[t] < |s|)
    && (forall t, u | 0 <= t < u < |path| :: path[t] != path[u])
    && r[path[|path| - 1]] == s[path[0]]
    && (forall t | 0 <= t < |path| - 1 :: r[path[t]] == s[path[t + 1]])
    && (forall k: nat | k < |s| && k !in path :: r[k] == s[k])
  }

  lemma ShiftOnce<T>(s: seq<T>, i: nat)
    requires i < |s|
    ensures Shifted(s, s, [i])
  {
  }

  lemma ShiftMore<T>(s: seq<T>, i: nat, u: seq<T>, r: seq<T>, rest: seq<nat>, path: seq<nat>)
    requires i < |s| && rest != [] && rest[0] < |s| && i !in rest && path == [i] + rest
    requires u == Swap(s, i, rest[0]) && Shifted(u, r, rest)
    ensures Shifted(s, r, path)
  {
    forall t | 0 <= t < |path| - 1 ensures r[path[t]] == s[path[t + 1]] {
      if t == 0 {
        assert r[i] == u[i];
      } else {
        assert r[rest[t - 1]] == u[rest[t]];
      }
    }
    forall k: nat | k < |s| && k !in path ensures r[k] == s[k] {
      assert k !in rest && k != i && rest[0] in rest;
      assert r[k] == u[k];
    }
  }

  /** The test of both sifts: a type 0 heap has its greatest element on top. */
  predicate GoesAbove<T>(cmp: Comparison<T>, heapType: int, child: T, parent: T)
  {
    if heapType == 0 then cmp(parent, child) > 0 else cmp(parent, child) <= 0
  }

  // ---- Up ----

  /** x climbs from path[0] to the parent index as long as it goes above the element there. */
  predicate Climbs<T>(cmp: Comparison<T>, heapType: int, s: seq<T>, x: T, path: seq<nat>)
    requires path != [] && path[0] < |s|
    decreases |path|
  {
    var i := path[0];
    var climbs := i > 0 && GoesAbove(cmp, heapType, x, s[(i - 1) / 2]);
    if |path| == 1 then !climbs
    else climbs && path[1] == (i - 1) / 2 && Climbs(cmp, heapType, s, x, path[1..])
  }

  lemma {:induction false} ClimbFrame<T>(cmp: Comparison<T>, heapType: int, s: seq<T>, u: seq<T>, x: T, path: seq<nat>)
    requires path != [] && path[0] < |s| == |u| && forall k: nat | k < path[0] :: s[k] == u[k]
    ensures Climbs(cmp, heapType, s, x, path) <==> Climbs(cmp, heapType, u, x, path)
    decreases |path|
  {
    if |path| > 1 && path[0] > 0 && path[1] == (path[0] - 1) / 2 {
      ClimbFrame(cmp, heapType, s, u, x, path[1..]);
    }
  }

  lemma ClimbFirst<T>(
    cmp: Comparison<T>, heapType: int, s: seq<T>, i: nat, u: seq<T>, rest: seq<nat>, path: seq<nat>)
    requires 0 < i < |s| && rest != [] && rest[0] == Parent(i) && path == [i] + rest
    requires Misplaced(cmp, heapType, s[rest[0]], s[i]) && u == Swap(s, i, rest[0])
    requires Climbs(cmp, heapType, u, s[i], rest)
    ensures Climbs(cmp, heapType, s, s[i], path)
  {
    ClimbFrame(cmp, heapType, s, u, s[i], rest);
    assert path[1..] == rest;
  }

  lemma ClimbMore<T>(cmp: Comparison<T>, heapType: int, s: seq<T>, i: nat, u: seq<T>, r: seq<T>, rest: seq<nat>)
    returns (path: seq<nat>)
    requires 0 < i < |s| && rest != [] && rest[0] == Parent(i) && forall t | 0 <= t < |rest| :: rest[t] <= Parent(i)
    requires Misplaced(cmp, heapType, s[rest[0]], s[i]) && u == Swap(s, i, rest[0])
    requires Shifted(u, r, rest) && Climbs(cmp, heapType, u, s[i], rest)
    ensures path != [] && path[0] == i && forall t | 0 <= t < |path| :: path[t] <= i
    ensures Shifted(s, r, path) && Climbs(cmp, heapType, s, s[i], path)
  {
    path := [i] + rest;
    ClimbFirst(cmp, heapType, s, i, u, rest, path);
    ShiftMore(s, i, u, r, rest, path);
  }

  /** Heap_sift_up moves the element along the path that it climbs, and nothing else. */
  lemma {:induction false} SiftUpPath<T>(cmp: Comparison<T>, heapType: int, s: seq<T>, i: nat, r: seq<T>)
    returns (path: seq<nat>)
    requires i < |s| && r == SiftedUp(cmp, heapType, s, i)
    ensures path != [] && path[0] == i && (forall t | 0 <= t < |path| :: path[t] <= i)
    ensures Shifted(s, r, path)
    ensures Climbs(cmp, heapType, s, s[i], path)
    decreases i
  {
    var p := Parent(i);
    if i > 0 && Misplaced(cmp, heapType, s[p], s[i]) {
      var u := Swap(s, i, p);
      var rest := SiftUpPath(cmp, heapType, u, p, r);
      path := ClimbMore(cmp, heapType, s, i, u, r, rest);
    } else {
      path := [i];
      ShiftOnce(s, i);
    }
  }

  // ---- Down ----

  /** The child that the code compares: the left one, unless there is a right one behind it in
      the order of a type 0 heap. */
  function Compared<T>(cmp: Comparison<T>, s: seq<T>, i: nat): (p: nat)
    requires 2 * i + 1 < |s|
    ensures p < |s|
  {
    var left, right := 2 * i + 1, 2 * i + 2;
    if right < |s| && cmp(s[left], s[right]) > 0 then right else left
  }

  /** x sinks from path[0] to the compared child as long as that goes above it. */
  predicate Sinks<T>(cmp: Comparison<T>, heapType: int, s: seq<T>, x: T, path: seq<nat>)
    requires path != [] && path[0] < |s|
    decreases |path|
  {
    var i := path[0];
    var sinks := 2 * i + 1 < |s| && GoesAbove(cmp, heapType, s[Compared(cmp, s, i)], x);
    if |path| == 1 then !sinks
    else sinks && path[1] == Compared(cmp, s, i) && Sinks(cmp, heapType, s, x, path[1..])
  }

  lemma {:induction false} SinkFrame<T>(cmp: Comparison<T>, heapType: int, s: seq<T>, u: seq<T>, x: T, path: seq<nat>)
    requires path != [] && path[0] < |s| == |u| && forall k: nat | path[0] < k < |s| :: s[k] == u[k]
    ensures Sinks(cmp, heapType, s, x, path) <==> Sinks(cmp, heapType, u, x, path)
    decreases |path|
  {
    if |path| > 1 && 2 * path[0] + 1 < |s| && path[1] == Compared(cmp, s, path[0]) {
      SinkFrame(cmp, heapType, s, u, x, path[1..]);
    }
  }

  lemma SinkFirst<T>(
    cmp: Comparison<T>, heapType: int, s: seq<T>, i: nat, u: seq<T>, rest: seq<nat>, path: seq<nat>)
    requires 2 * i + 1 < |s| && rest != [] && rest[0] == ChosenChild(cmp, s, i) && path == [i] + rest
    requires Misplaced(cmp, heapType, s[i], s[rest[0]]) && u == Swap(s, i, rest[0])
    requires Sinks(cmp, heapType, u, s[i], rest)
    ensures Sinks(cmp, heapType, s, s[i], path)
  {
    SinkFrame(cmp, heapType, s, u, s[i], rest);
    assert path[1..] == rest;
  }

  lemma SinkMore<T>(cmp: Comparison<T>, heapType: int, s: seq<T>, i: nat, u: seq<T>, r: seq<T>, rest: seq<nat>)
    returns (path: seq<nat>)
    requires 2 * i + 1 < |s| && rest != [] && rest[0] == ChosenChild(cmp, s, i)
    requires forall t | 0 <= t < |rest| :: i < rest[t]
    requires Misplaced(cmp, heapType, s[i], s[rest[0]]) && u == Swap(s, i, rest[0])
    requires Shifted(u, r, rest) && Sinks(cmp, heapType, u, s[i], rest)
    ensures path != [] && path[0] == i && forall t | 0 <= t < |path| :: i <= path[t]
    ensures Shifted(s, r, path) && Sinks(cmp, heapType, s, s[i], path)
  {
    path := [i] + rest;
    SinkFirst(cmp, heapType, s, i, u, rest, path);
    ShiftMore(s, i, u, r, rest, path);
  }

  /** The first swap of a sift, if there is one: with p, giving u. */
  lemma FirstSwap<T>(cmp: Comparison<T>, heapType: int, s: seq<T>, i: nat, r: seq<T>)
    returns (swaps: bool, p: nat, u: seq<T>)
    requires i < |s| && r == SiftedDown(cmp, heapType, s, i)
    ensures swaps ==> 2 * i + 1 < |s| && p == ChosenChild(cmp, s, i) && Misplaced(cmp, heapType, s[i], s[p])
    ensures swaps ==> i < p && u == Swap(s, i, p) && r == SiftedDown(cmp, heapType, u, p)
    ensures !swaps ==> r == s && Sinks(cmp, heapType, s, s[i], [i])
  {
    swaps, p, u := false, 0, s;
    if 2 * i + 1 < |s| {
      p := ChosenChild(cmp, s, i);
      swaps, u := Misplaced(cmp, heapType, s[i], s[p]), Swap(s, i, p);
    }
  }

  /** Heap_sift_down moves the element along the path on which it sinks, and nothing else. */
  lemma {:induction false} SiftDownPath<T>(cmp: Comparison<T>, heapType: int, s: seq<T>, i: nat, r: seq<T>)
    returns (path: seq<nat>)
    requires i < |s| && r == SiftedDown(cmp, heapType, s, i)
    ensures path != [] && path[0] == i && (forall t | 0 <= t < |path| :: i <= path[t])
    ensures Shifted(s, r, path)
    ensures Sinks(cmp, heapType, s, s[i], path)
    decreases |s| - i
  {
    var swaps, p, u := FirstSwap(cmp, heapType, s, i, r);
    if swaps {
      var rest := SiftDownPath(cmp, heapType, u, p, r);
      path := SinkMore(cmp, heapType, s, i, u, r, rest);
    } else {
      path := [i];
      ShiftOnce(s, i);
    }
  }
}
