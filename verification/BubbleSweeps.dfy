/** The sweeps of List_bubble_sort in lib/algo/list_algo.c, on the sequence of values. */
module BubbleSweeps {
  import opened Order

  /** One comparison: neighbours change places unless the first comes before the second, so
      equivalent neighbours do too. */
  function Bubbled<T>(cmp: Comparison<T>, s: seq<T>, j: nat): (r: seq<T>)
    requires 1 <= j < |s|
    ensures |r| == |s|
  {
    if Before(cmp, s[j - 1], s[j]) then s else s[j - 1 := s[j]][j := s[j - 1]]
  }

  /** The comparisons 1 to j of one sweep. */
  function Swept<T>(cmp: Comparison<T>, s: seq<T>, j: nat): (r: seq<T>)
    requires j < |s|
    ensures |r| == |s|
  {
    if j == 0 then s else Bubbled(cmp, Swept(cmp, s, j - 1), j)
  }

  lemma {:induction false} SweptPermutes<T>(cmp: Comparison<T>, s: seq<T>, j: nat, r: seq<T>)
    requires j < |s| && r == Swept(cmp, s, j)
    ensures multiset(r) == multiset(s)
  {
    if j > 0 {
      var t := Swept(cmp, s, j - 1);
      SweptPermutes(cmp, s, j - 1, t);
      BubbledPermutes(cmp, t, j, r);
    }
  }

  lemma BubbledPermutes<T>(cmp: Comparison<T>, s: seq<T>, j: nat, r: seq<T>)
    requires 1 <= j < |s| && r == Bubbled(cmp, s, j)
    ensures multiset(r) == multiset(s)
  {
  }

  /** The last k elements are where a sorted sequence has them. */
  ghost predicate Placed<T>(cmp: Comparison<T>, s: seq<T>, k: int)
  {
    forall a, b | 0 <= a < b < |s| && b >= |s| - k :: !Before(cmp, s[b], s[a])
  }

  /** No element before index j comes after the one at j. */
  ghost predicate GreatestAt<T>(cmp: Comparison<T>, s: seq<T>, j: nat)
    requires j < |s|
  {
    forall a | 0 <= a < j :: !Before(cmp, s[j], s[a])
  }

  lemma BubbleKeepsPlaced<T(!new)>(cmp: Comparison<T>, s: seq<T>, j: nat, k: nat)
    requires StrictWeakOrder(cmp) && 1 <= j < |s| && Placed(cmp, s, k) && j != |s| - k
    ensures Placed(cmp, Bubbled(cmp, s, j), k)
  {
    var r := Bubbled(cmp, s, j);
    forall a, b | 0 <= a < b < |r| && b >= |r| - k ensures !Before(cmp, r[b], r[a]) {
      var x := if a == j - 1 then j else if a == j then j - 1 else a;
      var y := if b == j - 1 then j else if b == j then j - 1 else b;
      assert x < y ==> !Before(cmp, s[y], s[x]);
      assert y < x ==> x == j && y == j - 1;
    }
  }

  lemma BubbleCarriesGreatest<T(!new)>(cmp: Comparison<T>, s: seq<T>, j: nat)
    requires StrictWeakOrder(cmp) && 1 <= j < |s| && GreatestAt(cmp, s, j - 1)
    ensures GreatestAt(cmp, Bubbled(cmp, s, j), j)
  {
    var r := Bubbled(cmp, s, j);
    forall a | 0 <= a < j ensures !Before(cmp, r[j], r[a]) {
      if Before(cmp, s[j - 1], s[j]) {
        assert !Before(cmp, s[j], s[j - 1]);
        assert a < j - 1 ==> !Before(cmp, s[j - 1], s[a]);
      }
    }
  }

  /** A swap at the border of the placed suffix exchanges equivalent elements. */
  lemma BubbleAtBorder<T(!new)>(cmp: Comparison<T>, s: seq<T>, k: nat)
    requires StrictWeakOrder(cmp) && 1 <= |s| - k < |s| && Placed(cmp, s, k)
    ensures Placed(cmp, Bubbled(cmp, s, |s| - k), k)
  {
    var j := |s| - k;
    var r := Bubbled(cmp, s, j);
    assert !Before(cmp, s[j], s[j - 1]);
    forall a, b | 0 <= a < b < |r| && b >= j ensures !Before(cmp, r[b], r[a]) {
      var x := if a == j - 1 then j else if a == j then j - 1 else a;
      assert b > j ==> !Before(cmp, s[b], s[x]);
      assert b == j && a < j - 1 ==> !Before(cmp, s[j], s[a]);
    }
  }

  /** A sweep keeps what is placed and carries the greatest element along. */
  lemma {:induction false} SweepCarries<T(!new)>(cmp: Comparison<T>, s: seq<T>, k: nat, j: nat)
    requires StrictWeakOrder(cmp) && k < |s| && j < |s| && Placed(cmp, s, k)
    ensures var r := Swept(cmp, s, j); Placed(cmp, r, k) && GreatestAt(cmp, r, j)
  {
    if j > 0 {
      SweepCarries(cmp, s, k, j - 1);
      var t := Swept(cmp, s, j - 1);
      BubbleCarriesGreatest(cmp, t, j);
      if j == |s| - k { BubbleAtBorder(cmp, t, k); } else { BubbleKeepsPlaced(cmp, t, j, k); }
    }
  }

  /** One sweep, with the suffix of k placed elements rescanned, places one more. */
  lemma {:induction false} SweepPlaces<T(!new)>(cmp: Comparison<T>, s: seq<T>, k: nat, j: nat, r: seq<T>)
    requires StrictWeakOrder(cmp) && k < |s| && |s| - 1 - k <= j < |s| && Placed(cmp, s, k) && r == Swept(cmp, s, j)
    ensures Placed(cmp, r, k + 1)
  {
    if j == |s| - 1 - k {
      SweepCarries(cmp, s, k, j);
      GreatestIsPlaced(cmp, r, k);
    } else {
      var t := Swept(cmp, s, j - 1);
      SweepPlaces(cmp, s, k, j - 1, t);
      BubbleKeepsPlaced(cmp, t, j, k + 1);
    }
  }

  lemma GreatestIsPlaced<T(!new)>(cmp: Comparison<T>, s: seq<T>, k: nat)
    requires k < |s| && Placed(cmp, s, k) && GreatestAt(cmp, s, |s| - 1 - k)
    ensures Placed(cmp, s, k + 1)
  {
  }

  /** The comparisons before the one at index j swap nothing. */
  ghost predicate NoSwaps<T>(cmp: Comparison<T>, s: seq<T>, j: nat)
    requires j <= |s|
  {
    forall k | 1 <= k < j :: Before(cmp, s[k - 1], s[k])
  }

  lemma NoSwapsStep<T>(cmp: Comparison<T>, s: seq<T>, j: nat)
    requires 1 <= j < |s|
    ensures NoSwaps(cmp, s, j + 1) <==> NoSwaps(cmp, s, j) && Before(cmp, s[j - 1], s[j])
  {
  }

  lemma NoSwapMeansSorted<T(!new)>(cmp: Comparison<T>, s: seq<T>, i: nat, j: nat)
    requires StrictWeakOrder(cmp) && i < j < |s| && NoSwaps(cmp, s, |s|)
    ensures !Before(cmp, s[j], s[i])
  {
    if j > i + 1 {
      NoSwapMeansSorted(cmp, s, i, j - 1);
    }
    assert Before(cmp, s[j - 1], s[j]);
  }

  // ---- All sweeps ----

  /** What k sweeps make of s. */
  function Sweeps<T>(cmp: Comparison<T>, s: seq<T>, k: nat): (r: seq<T>)
    ensures |r| == |s|
  {
    if k == 0 || s == [] then s
    else var t := Sweeps(cmp, s, k - 1); Swept(cmp, t, |t| - 1)
  }

  lemma {:induction false} NoSwapsKeeps<T>(cmp: Comparison<T>, s: seq<T>, j: nat)
    requires j < |s| && NoSwaps(cmp, s, |s|)
    ensures Swept(cmp, s, j) == s
  {
    if j > 0 {
      NoSwapsKeeps(cmp, s, j - 1);
      assert Before(cmp, s[j - 1], s[j]);
    }
  }

  lemma LastSweepPermutes<T>(cmp: Comparison<T>, s: seq<T>, k: nat, r: seq<T>) returns (t: seq<T>)
    requires s != [] && k > 0 && r == Sweeps(cmp, s, k)
    ensures t == Sweeps(cmp, s, k - 1) && multiset(r) == multiset(t)
  {
    t := Sweeps(cmp, s, k - 1);
    SweptPermutes(cmp, t, |t| - 1, r);
  }

  lemma {:induction false} SweepsPermute<T>(cmp: Comparison<T>, s: seq<T>, k: nat, r: seq<T>, m: multiset<T>)
    requires s != [] && r == Sweeps(cmp, s, k) && m == multiset(r)
    ensures m == multiset(s)
  {
    if k > 0 {
      var t := LastSweepPermutes(cmp, s, k, r);
      SweepsPermute(cmp, s, k - 1, t, m);
    }
  }

  /** k sweeps place the last k elements. */
  lemma {:induction false} SweepsPlace<T(!new)>(cmp: Comparison<T>, s: seq<T>, k: nat, r: seq<T>)
    requires StrictWeakOrder(cmp) && k < |s| && r == Sweeps(cmp, s, k)
    ensures Placed(cmp, r, k)
  {
    if k > 0 {
      var t := Sweeps(cmp, s, k - 1);
      SweepsPlace(cmp, s, k - 1, t);
      SweepPlaces(cmp, t, k - 1, |t| - 1, r);
    }
  }

  /** As many sweeps as there are comparisons in one sort any sequence. */
  lemma SweepsSort<T(!new)>(cmp: Comparison<T>, s: seq<T>, n: nat, r: seq<T>)
    requires |s| == n + 1 && r == Sweeps(cmp, s, n)
    ensures multiset(r) == multiset(s)
    ensures StrictWeakOrder(cmp) ==> Sorted(cmp, r)
  {
    SweepsPermute(cmp, s, n, r, multiset(r));
    if StrictWeakOrder(cmp) {
      SweepsPlace(cmp, s, n, r);
    }
  }

  /** Once a sweep swaps nothing, no later one does; so the early exit of List_bubble_sort does
      not change its result. */
  lemma {:induction false} EarlyExit<T>(cmp: Comparison<T>, s: seq<T>, k: nat, t: seq<T>, m: nat)
    requires k <= m && s != [] && t == Sweeps(cmp, s, k) && NoSwaps(cmp, t, |t|)
    ensures t == Sweeps(cmp, s, m)
  {
    if k < m {
      EarlyExit(cmp, s, k, t, m - 1);
      NoSwapsKeeps(cmp, t, |t| - 1);
    }
  }

  /** What a sweep and its test leave: the result of all n sweeps, if it swapped nothing. */
  lemma AfterSweep<T>(cmp: Comparison<T>, s: seq<T>, k: nat, t: seq<T>, r: seq<T>, n: nat, sorted: bool)
    requires s != [] && k < n && t == Sweeps(cmp, s, k) && r == Swept(cmp, t, |t| - 1)
    requires sorted ==> r == t && NoSwaps(cmp, t, |t|)
    ensures var done := Sweeps(cmp, s, if sorted then n else k + 1); r == done
  {
    if sorted {
      EarlyExit(cmp, s, k, t, n);
    }
  }

  ghost predicate AllEquivalent<T>(cmp: Comparison<T>, s: seq<T>)
  {
    forall i, j | 0 <= i < |s| && 0 <= j < |s| :: !Before(cmp, s[i], s[j])
  }

  lemma SwapNeighbours<T>(a: seq<T>, x: T, y: T, b: seq<T>, s: seq<T>, j: nat)
    requires s == a + [x, y] + b && j == |a| + 1
    ensures s[j - 1] == x && s[j] == y
    ensures s[j - 1 := s[j]][j := s[j - 1]] == a + [y, x] + b
  {
  }

  lemma {:induction false} SweepOfEquivalents<T>(cmp: Comparison<T>, s: seq<T>, j: nat)
    requires j < |s| && AllEquivalent(cmp, s)
    ensures Swept(cmp, s, j) == s[1..j + 1] + [s[0]] + s[j + 1..]
  {
    if j > 0 {
      SweepOfEquivalents(cmp, s, j - 1);
      var t := s[1..j] + [s[0]] + s[j..];
      assert t == s[1..j] + [s[0], s[j]] + s[j + 1..];
      SwapNeighbours(s[1..j], s[0], s[j], s[j + 1..], t, j);
      assert s[1..j] + [s[j], s[0]] + s[j + 1..] == s[1..j + 1] + [s[0]] + s[j + 1..];
    }
  }

  /** Equivalent neighbours change places, so each sweep carries the first of a list of
      equivalent elements to its end. */
  lemma {:induction false} SweepsOfEquivalents<T>(cmp: Comparison<T>, s: seq<T>, k: nat, r: seq<T>)
    requires k < |s| && AllEquivalent(cmp, s) && r == Sweeps(cmp, s, k)
    ensures r == s[k..] + s[..k]
  {
    if k > 0 {
      var t := Sweeps(cmp, s, k - 1);
      SweepsOfEquivalents(cmp, s, k - 1, t);
      RotationIsEquivalent(cmp, s, t, k - 1);
      SweepOfEquivalents(cmp, t, |t| - 1);
      assert t[1..] + [t[0]] == s[k..] + s[..k];
    }
  }

  lemma RotationIsEquivalent<T>(cmp: Comparison<T>, s: seq<T>, t: seq<T>, k: nat)
    requires k < |s| && AllEquivalent(cmp, s) && t == s[k..] + s[..k]
    ensures AllEquivalent(cmp, t)
  {
    forall i, j | 0 <= i < |t| && 0 <= j < |t| ensures !Before(cmp, t[i], t[j]) {
      var x := if i < |s| - k then i + k else i + k - |s|;
      var y := if j < |s| - k then j + k else j + k - |s|;
      assert t[i] == s[x] && t[j] == s[y];
    }
  }

  /** So the sort is not stable: it moves the last of equivalent elements to the front, and keeps
      the others as they are. */
  lemma LastToFront<T>(cmp: Comparison<T>, s: seq<T>, n: nat)
    requires |s| == n + 1 && AllEquivalent(cmp, s)
    ensures Sweeps(cmp, s, n) == [s[n]] + s[..n]
  {
    SweepsOfEquivalents(cmp, s, n, Sweeps(cmp, s, n));
  }
}
