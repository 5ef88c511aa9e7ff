/** The two sifts of lib/ds/heap.c on the sequence of a heap's elements, and heap order. */
module HeapOrder {
  import opened Order

  function Parent(i: int): int { (i - 1) / 2 }

  function Swap<T>(s: seq<T>, i: nat, j: nat): (r: seq<T>)
    requires i < |s| && j < |s|
    ensures |r| == |s| && multiset(r) == multiset(s)
  {
    s[i := s[j]][j := s[i]]
  }

  /** The test, the same in both sifts, on which a parent and its child change places. */
  predicate Misplaced<T>(cmp: Comparison<T>, heapType: int, parent: T, child: T)
  {
    if heapType == 0 then Before(cmp, parent, child) else !Before(cmp, parent, child)
  }

  /** Heap_sift_up, from index i. */
  function SiftedUp<T>(cmp: Comparison<T>, heapType: int, s: seq<T>, i: nat): (r: seq<T>)
    requires i < |s|
    ensures |r| == |s|
    decreases i
  {
    if i > 0 && Misplaced(cmp, heapType, s[Parent(i)], s[i])
    then SiftedUp(cmp, heapType, Swap(s, i, Parent(i)), Parent(i))
    else s
  }

  /** The child that Heap_sift_down compares with its parent, chosen alike for both types. */
  function ChosenChild<T>(cmp: Comparison<T>, s: seq<T>, i: nat): (p: nat)
    requires 2 * i + 1 < |s|
    ensures p < |s| && Parent(p) == i && (p == 2 * i + 1 || p == 2 * i + 2)
  {
    if 2 * i + 2 < |s| && Before(cmp, s[2 * i + 1], s[2 * i + 2]) then 2 * i + 2 else 2 * i + 1
  }

  /** Heap_sift_down, from index i. */
  function SiftedDown<T>(cmp: Comparison<T>, heapType: int, s: seq<T>, i: nat): (r: seq<T>)
    ensures |r| == |s|
    decreases |s| - i
  {
    if 2 * i + 1 >= |s| then s
    else
      var p := ChosenChild(cmp, s, i);
      if Misplaced(cmp, heapType, s[i], s[p]) then SiftedDown(cmp, heapType, Swap(s, i, p), p) else s
  }

  // ---- Heap order ----

  /** In a type 0 heap no parent comes before its child; in any other type no child comes
      before its parent. */
  predicate InOrder<T>(cmp: Comparison<T>, heapType: int, parent: T, child: T)
  {
    if heapType == 0 then !Before(cmp, parent, child) else !Before(cmp, child, parent)
  }

  /** Index k is in order with index p above it. */
  predicate Edge<T>(cmp: Comparison<T>, heapType: int, s: seq<T>, p: int, k: int)
    requires 0 <= p < |s| && 0 <= k < |s|
  {
    InOrder(cmp, heapType, s[p], s[k])
  }

  ghost predicate HeapOrdered<T>(cmp: Comparison<T>, heapType: int, s: seq<T>)
  {
    forall k | 0 < k < |s| :: Edge(cmp, heapType, s, Parent(k), k)
  }

  /** Heap order except between index i and its parent. */
  ghost predicate OrderedButAbove<T>(cmp: Comparison<T>, heapType: int, s: seq<T>, i: nat)
    requires i < |s|
  {
    && (forall k | 0 < k < |s| && k != i :: Edge(cmp, heapType, s, Parent(k), k))
    && (forall k | 0 < k < |s| && i > 0 && Parent(k) == i :: Edge(cmp, heapType, s, Parent(i), k))
  }

  /** Heap order except between index i and its children. */
  ghost predicate OrderedButBelow<T>(cmp: Comparison<T>, heapType: int, s: seq<T>, i: nat)
  {
    && (forall k | 0 < k < |s| && Parent(k) != i :: Edge(cmp, heapType, s, Parent(k), k))
    && (forall k | 0 < k < |s| && i > 0 && Parent(k) == i :: Edge(cmp, heapType, s, Parent(i), k))
  }

  lemma SwapUp<T(!new)>(cmp: Comparison<T>, heapType: int, s: seq<T>, i: nat)
    requires StrictWeakOrder(cmp) && 0 < i < |s| && OrderedButAbove(cmp, heapType, s, i)
    requires Misplaced(cmp, heapType, s[Parent(i)], s[i])
    ensures OrderedButAbove(cmp, heapType, Swap(s, i, Parent(i)), Parent(i))
  {
    var p := Parent(i);
    var r := Swap(s, i, p);
    forall k | 0 < k < |r| && k != p ensures Edge(cmp, heapType, r, Parent(k), k) {
      if k != i {
        assert Edge(cmp, heapType, s, Parent(k), k);
        assert Parent(k) == i ==> Edge(cmp, heapType, s, p, k);
      }
    }
    forall k | 0 < k < |r| && p > 0 && Parent(k) == p ensures Edge(cmp, heapType, r, Parent(p), k) {
      assert Edge(cmp, heapType, s, Parent(p), p);
      assert k != i ==> Edge(cmp, heapType, s, p, k);
    }
  }

  /** Sifting up restores heap order, for either type, and only moves elements. */
  lemma {:induction false} SiftUpOrders<T(!new)>(cmp: Comparison<T>, heapType: int, s: seq<T>, i: nat)
    requires StrictWeakOrder(cmp) && i < |s| && OrderedButAbove(cmp, heapType, s, i)
    ensures HeapOrdered(cmp, heapType, SiftedUp(cmp, heapType, s, i))
    ensures multiset(SiftedUp(cmp, heapType, s, i)) == multiset(s)
    decreases i
  {
    if i > 0 && Misplaced(cmp, heapType, s[Parent(i)], s[i]) {
      SwapUp(cmp, heapType, s, i);
      SiftUpOrders(cmp, heapType, Swap(s, i, Parent(i)), Parent(i));
    }
  }

  lemma {:induction false} SiftDownPermutes<T>(cmp: Comparison<T>, heapType: int, s: seq<T>, i: nat)
    ensures multiset(SiftedDown(cmp, heapType, s, i)) == multiset(s)
    ensures forall k | 0 <= k < |s| && k != i && k < 2 * i + 1 :: SiftedDown(cmp, heapType, s, i)[k] == s[k]
    decreases |s| - i
  {
    if 2 * i + 1 < |s| {
      var p := ChosenChild(cmp, s, i);
      if Misplaced(cmp, heapType, s[i], s[p]) {
        SiftDownPermutes(cmp, heapType, Swap(s, i, p), p);
      }
    }
  }

  /** When sifting down is right: always for type 0.  For any other type the code promotes the
      greater child, so wherever it descends the children must be equivalent, and where it
      stops the other child must not come before the sifted element. */
  predicate SiftDownSafe<T>(cmp: Comparison<T>, heapType: int, s: seq<T>, i: nat)
    decreases |s| - i
  {
    if heapType == 0 || 2 * i + 2 >= |s| then true
    else
      var p := ChosenChild(cmp, s, i);
      var other := s[4 * i + 3 - p];
      if Misplaced(cmp, heapType, s[i], s[p])
      then Equivalent(cmp, s[p], other) && SiftDownSafe(cmp, heapType, Swap(s, i, p), p)
      else !Before(cmp, other, s[i])
  }

  lemma SwapDown<T(!new)>(cmp: Comparison<T>, heapType: int, s: seq<T>, i: nat)
    requires StrictWeakOrder(cmp) && OrderedButBelow(cmp, heapType, s, i) && 2 * i + 1 < |s|
    requires Misplaced(cmp, heapType, s[i], s[ChosenChild(cmp, s, i)])
    requires var p := ChosenChild(cmp, s, i);
      heapType == 0 || 2 * i + 2 >= |s| || Equivalent(cmp, s[p], s[4 * i + 3 - p])
    ensures var p := ChosenChild(cmp, s, i); OrderedButBelow(cmp, heapType, Swap(s, i, p), p)
  {
    var p := ChosenChild(cmp, s, i);
    var r := Swap(s, i, p);
    forall k | 0 < k < |r| && Parent(k) != p ensures Edge(cmp, heapType, r, Parent(k), k) {
      if Parent(k) == i {
        assert k == p || k == 4 * i + 3 - p;
      } else {
        assert Edge(cmp, heapType, s, Parent(k), k);
        assert k == i ==> Edge(cmp, heapType, s, Parent(i), p);
      }
    }
    forall k | 0 < k < |r| && Parent(k) == p ensures Edge(cmp, heapType, r, Parent(p), k) {
      assert Edge(cmp, heapType, s, Parent(k), k);
    }
  }

  /** A swap that promotes the child that its sibling comes before is never undone. */
  lemma UnsafeSwapStays<T(!new)>(cmp: Comparison<T>, heapType: int, s: seq<T>, i: nat)
    requires heapType != 0 && 2 * i + 2 < |s|
    requires var p := ChosenChild(cmp, s, i);
      Misplaced(cmp, heapType, s[i], s[p]) && Before(cmp, s[4 * i + 3 - p], s[p])
    ensures !HeapOrdered(cmp, heapType, SiftedDown(cmp, heapType, s, i))
  {
    var p := ChosenChild(cmp, s, i);
    var q := 4 * i + 3 - p;
    var r := SiftedDown(cmp, heapType, Swap(s, i, p), p);
    SiftDownPermutes(cmp, heapType, Swap(s, i, p), p);
    assert r[q] == s[q] && r[i] == s[p] && Parent(q) == i;
    assert !Edge(cmp, heapType, r, Parent(q), q);
  }

  /** Sifting down restores heap order exactly if it is safe; so always for type 0. */
  lemma {:induction false} SiftDownOrdersIffSafe<T(!new)>(cmp: Comparison<T>, heapType: int, s: seq<T>, i: nat)
    requires StrictWeakOrder(cmp) && OrderedButBelow(cmp, heapType, s, i)
    ensures HeapOrdered(cmp, heapType, SiftedDown(cmp, heapType, s, i)) <==> SiftDownSafe(cmp, heapType, s, i)
    decreases |s| - i
  {
    if 2 * i + 1 >= |s| {
      assert forall k | 0 < k < |s| :: Parent(k) != i;
    } else {
      var p := ChosenChild(cmp, s, i);
      var q := 4 * i + 3 - p;
      if !Misplaced(cmp, heapType, s[i], s[p]) {
        if q < |s| {
          assert Parent(q) == i;
          assert Edge(cmp, heapType, s, Parent(q), q) <==> SiftDownSafe(cmp, heapType, s, i);
        }
        forall k | 0 < k < |s| && Parent(k) == i ensures k == p || k == q {}
      } else if heapType == 0 || 2 * i + 2 >= |s| || Equivalent(cmp, s[p], s[q]) {
        SwapDown(cmp, heapType, s, i);
        SiftDownOrdersIffSafe(cmp, heapType, Swap(s, i, p), p);
      } else {
        UnsafeSwapStays(cmp, heapType, s, i);
      }
    }
  }

  /** The root of an ordered heap is extreme: in type 0 it comes before no element, in any
      other type no element comes before it. */
  lemma {:induction false} RootIsExtreme<T(!new)>(cmp: Comparison<T>, heapType: int, s: seq<T>, k: nat)
    requires StrictWeakOrder(cmp) && HeapOrdered(cmp, heapType, s) && k < |s|
    ensures InOrder(cmp, heapType, s[0], s[k])
    decreases k
  {
    if k > 0 {
      RootIsExtreme(cmp, heapType, s, Parent(k));
      assert Edge(cmp, heapType, s, Parent(k), k);
    } else {
      assert !Before(cmp, s[0], s[0]);
    }
  }

  /** The elements of a heap after Heap_pop has moved the last one to the root. */
  function LastToRoot<T>(s: seq<T>): (r: seq<T>)
    requires s != []
    ensures |r| == |s| - 1
  {
    if |s| == 1 then [] else s[..|s| - 1][0 := s[|s| - 1]]
  }

  lemma LastToRootPermutes<T>(s: seq<T>)
    requires s != []
    ensures multiset(s) == multiset(LastToRoot(s)) + multiset{s[0]}
  {
    var n := |s| - 1;
    if n > 0 {
      assert s == [s[0]] + s[1..n] + [s[n]];
      assert s[..n][0 := s[n]] == [s[n]] + s[1..n];
    } else {
      assert s == [s[0]];
    }
  }

  lemma LastToRootIsOrderedBelow<T(!new)>(cmp: Comparison<T>, heapType: int, s: seq<T>)
    requires HeapOrdered(cmp, heapType, s) && s != []
    ensures OrderedButBelow(cmp, heapType, LastToRoot(s), 0)
  {
    var r := LastToRoot(s);
    forall k | 0 < k < |r| && Parent(k) != 0 ensures Edge(cmp, heapType, r, Parent(k), k) {
      assert Edge(cmp, heapType, s, Parent(k), k);
    }
  }

  lemma RootOutranksAll<T(!new)>(cmp: Comparison<T>, heapType: int, s: seq<T>)
    requires StrictWeakOrder(cmp) && HeapOrdered(cmp, heapType, s) && s != []
    ensures forall x | x in s :: InOrder(cmp, heapType, s[0], x)
  {
    forall k | 0 <= k < |s| ensures InOrder(cmp, heapType, s[0], s[k]) {
      RootIsExtreme(cmp, heapType, s, k);
    }
  }

  /** What Heap_pop takes and leaves, for either type. */
  lemma PopEffect<T(!new)>(cmp: Comparison<T>, heapType: int, s: seq<T>, r: seq<T>)
    requires StrictWeakOrder(cmp) && HeapOrdered(cmp, heapType, s) && s != []
    requires r == SiftedDown(cmp, heapType, LastToRoot(s), 0)
    ensures multiset(s) == multiset(r) + multiset{s[0]}
    ensures HeapOrdered(cmp, heapType, r) <==> SiftDownSafe(cmp, heapType, LastToRoot(s), 0)
  {
    LastToRootPermutes(s);
    LastToRootIsOrderedBelow(cmp, heapType, s);
    SiftDownPermutes(cmp, heapType, LastToRoot(s), 0);
    SiftDownOrdersIffSafe(cmp, heapType, LastToRoot(s), 0);
  }

  function Less(a: int, b: int): int { if a < b then 1 else 0 }

  lemma SiftsThreeUp(s: seq<int>)
    requires s == [4, 2, 3]
    ensures SiftedDown(Less, 1, s, 0) == [3, 2, 4]
  {
    assert ChosenChild(Less, s, 0) == 2 && Swap(s, 0, 2) == [3, 2, 4];
    assert SiftedDown(Less, 1, [3, 2, 4], 2) == [3, 2, 4];
  }

  lemma LastOfFour<T>(a: T, b: T, c: T, d: T)
    ensures LastToRoot([a, b, c, d]) == [d, b, c]
  {
    assert [a, b, c, d][..3] == [a, b, c];
  }

  lemma OrderedBeforeOnly(s: seq<int>, r: seq<int>)
    requires s == [1, 2, 3, 4] && r == [3, 2, 4]
    ensures StrictWeakOrder(Less) && HeapOrdered(Less, 1, s) && !HeapOrdered(Less, 1, r)
  {
    assert !Edge(Less, 1, r, Parent(1), 1);
  }

  /** The pop of a min-heap of four elements, which leaves 3 above 2. */
  lemma MinHeapPopBreaksOrder(s: seq<int>, r: seq<int>)
    requires s == [1, 2, 3, 4] && r == SiftedDown(Less, 1, LastToRoot(s), 0)
    ensures StrictWeakOrder(Less) && HeapOrdered(Less, 1, s)
    ensures r == [3, 2, 4] && !HeapOrdered(Less, 1, r)
  {
    LastOfFour(1, 2, 3, 4);
    SiftsThreeUp(LastToRoot(s));
    OrderedBeforeOnly(s, r);
  }
}
