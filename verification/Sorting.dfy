/** The sorts of lib/algo: merge sort of a growable array, and merge and bubble sort of a list. */
module Sorting {
  import opened Order
  import opened DynamicArray
  import opened LinkedLists
  import opened StableSort
  import opened BubbleSweeps

  /** What is left to merge of two runs from i and from j on. */
  function MergedFrom<T>(cmp: Comparison<T>, ls: seq<T>, rs: seq<T>, i: nat, j: nat): seq<T>
    requires i <= |ls| && j <= |rs|
    decreases |ls| - i + |rs| - j
  {
    if i == |ls| then rs[j..]
    else if j == |rs| then ls[i..]
    else if Before(cmp, ls[i], rs[j]) then [ls[i]] + MergedFrom(cmp, ls, rs, i + 1, j)
    else [rs[j]] + MergedFrom(cmp, ls, rs, i, j + 1)
  }

  lemma {:induction false} MergedFromIsMerged<T>(cmp: Comparison<T>, ls: seq<T>, rs: seq<T>, i: nat, j: nat)
    requires i <= |ls| && j <= |rs|
    ensures MergedFrom(cmp, ls, rs, i, j) == Merged(cmp, ls[i..], rs[j..])
    decreases |ls| - i + |rs| - j
  {
    if i < |ls| && j < |rs| {
      assert ls[i..][1..] == ls[i + 1..] && rs[j..][1..] == rs[j + 1..];
      if Before(cmp, ls[i], rs[j]) {
        MergedFromIsMerged(cmp, ls, rs, i + 1, j);
      } else {
        MergedFromIsMerged(cmp, ls, rs, i, j + 1);
      }
    }
  }

  lemma MergedFromStart<T>(cmp: Comparison<T>, ls: seq<T>, rs: seq<T>)
    ensures MergedFrom(cmp, ls, rs, 0, 0) == Merged(cmp, ls, rs)
  {
    MergedFromIsMerged(cmp, ls, rs, 0, 0);
    assert ls[0..] == ls && rs[0..] == rs;
  }

  /** Storing the next element of the result. */
  method Put<T(0,==)>(a: Darray<T>, k: nat, x: T, ghost rest: seq<T>)
    requires a.Valid() && k < a.end
    modifies a`end, a.contents
    ensures a.Valid() && a.end == old(a.end)
    ensures a.Elements()[..k + 1] + rest == old(a.Elements())[..k] + ([x] + rest)
  {
    a.Set(k, x);
  }

  /** The loop that copies the rest of one run, which Darray_merge has once for each run; ds is
      what the run holds, and tail what is to follow. */
  method CopyRest<T(0,==)>(run: Darray<T>, i0: nat, a: Darray<T>, k0: nat, ghost ds: seq<T>, ghost tail: seq<T>,
                           ghost whole: seq<T>)
    returns (k: nat)
    requires run.Valid() && a.Valid() && run != a && run.contents != a.contents
    requires i0 <= run.end && k0 + run.end - i0 <= a.end && ds == run.Elements()
    requires a.Elements()[..k0] + (ds[i0..] + tail) == whole
    modifies a`end, a.contents
    ensures a.Valid() && a.end == old(a.end) && k == k0 + run.end - i0
    ensures a.Elements()[..k] + tail == whole
  {
    var i := i0;
    k := k0;
    while i < run.end
      invariant a.Valid() && a.end == old(a.end) && i <= run.end && k == k0 + i - i0
      invariant a.Elements()[..k] + (ds[i..] + tail) == whole
    {
      var val := run.Get(i);
      assert ds[i..] + tail == [val] + (ds[i + 1..] + tail);
      Put(a, k, val, ds[i + 1..] + tail);
      i := i + 1;
      k := k + 1;
    }
    assert ds[i..] + tail == tail;
  }

  /** What is left to merge loses its head. */
  lemma MergedFromStep<T>(cmp: Comparison<T>, ls: seq<T>, rs: seq<T>, i: nat, j: nat)
    requires i < |ls| && j < |rs|
    ensures MergedFrom(cmp, ls, rs, i, j) ==
      if Before(cmp, ls[i], rs[j]) then [ls[i]] + MergedFrom(cmp, ls, rs, i + 1, j)
      else [rs[j]] + MergedFrom(cmp, ls, rs, i, j + 1)
  {
  }

  /** One pass of the first loop of Darray_merge; todo is what is left to merge before it. */
  method MergeHead<T(0,==)>(left: Darray<T>, right: Darray<T>, a: Darray<T>, i0: nat, j0: nat, k: nat,
                            cmp: Comparison<T>, ghost ls: seq<T>, ghost rs: seq<T>, ghost todo: seq<T>,
                            ghost whole: seq<T>)
    returns (i: nat, j: nat, ghost rest: seq<T>)
    requires left.Valid() && right.Valid() && a.Valid() && i0 < left.end && j0 < right.end && k < a.end
    requires left != a && right != a && left.contents != a.contents && right.contents != a.contents
    requires ls == left.Elements() && rs == right.Elements() && todo == MergedFrom(cmp, ls, rs, i0, j0)
    requires a.Elements()[..k] + todo == whole
    modifies a`end, a.contents
    ensures a.Valid() && a.end == old(a.end)
    ensures i0 <= i <= left.end && j0 <= j <= right.end && i + j == i0 + j0 + 1
    ensures rest == MergedFrom(cmp, ls, rs, i, j)
    ensures a.Elements()[..k + 1] + rest == whole
  {
    MergedFromStep(cmp, ls, rs, i0, j0);
    var leftVal := left.Get(i0);
    var rightVal := right.Get(j0);
    if cmp(leftVal, rightVal) > 0 {
      i, j := i0 + 1, j0;
      rest := MergedFrom(cmp, ls, rs, i, j);
      Put(a, k, leftVal, rest);
    } else {
      i, j := i0, j0 + 1;
      rest := MergedFrom(cmp, ls, rs, i, j);
      Put(a, k, rightVal, rest);
    }
  }

  /** The loop of Darray_merge that runs while neither run is used up; rest is what is left to
      merge behind it. */
  method MergeHeads<T(0,==)>(left: Darray<T>, right: Darray<T>, a: Darray<T>, leftCount: nat, rightCount: nat,
                             cmp: Comparison<T>, ghost ls: seq<T>, ghost rs: seq<T>, ghost whole: seq<T>)
    returns (i: nat, j: nat, k: nat, ghost rest: seq<T>)
    requires left.Valid() && right.Valid() && a.Valid()
    requires left.end == leftCount && right.end == rightCount && a.end == leftCount + rightCount
    requires left != a && right != a && left.contents != a.contents && right.contents != a.contents
    requires ls == left.Elements() && rs == right.Elements() && whole == Merged(cmp, ls, rs)
    modifies a`end, a.contents
    ensures a.Valid() && a.end == leftCount + rightCount
    ensures i <= leftCount && j <= rightCount && k == i + j && (i == leftCount || j == rightCount)
    ensures rest == MergedFrom(cmp, ls, rs, i, j)
    ensures a.Elements()[..k] + rest == whole
  {
    i, j, k := 0, 0, 0;
    rest := whole;
    MergedFromStart(cmp, ls, rs);
    while i < leftCount && j < rightCount
      invariant a.Valid() && a.end == leftCount + rightCount
      invariant i <= leftCount && j <= rightCount && k == i + j
      invariant rest == MergedFrom(cmp, ls, rs, i, j) && a.Elements()[..k] + rest == whole
    {
      i, j, rest := MergeHead(left, right, a, i, j, k, cmp, ls, rs, rest, whole);
      k := k + 1;
    }
  }

  lemma OneRunLeft<T>(cmp: Comparison<T>, ls: seq<T>, rs: seq<T>, i: nat, j: nat, rest: seq<T>)
    requires i <= |ls| && j <= |rs| && (i == |ls| || j == |rs|) && rest == MergedFrom(cmp, ls, rs, i, j)
    ensures rest == ls[i..] + rs[j..]
  {
  }

  /** Darray_merge, of runs that hold ls and rs */
  method Merge<T(0,==)>(left: Darray<T>, right: Darray<T>, a: Darray<T>, leftCount: nat, rightCount: nat,
                        cmp: Comparison<T>, ghost ls: seq<T>, ghost rs: seq<T>)
    requires left.Valid() && right.Valid() && a.Valid() && ls == left.Elements() && rs == right.Elements()
    requires left.end == leftCount && right.end == rightCount && a.end == leftCount + rightCount
    requires left != a && right != a && left.contents != a.contents && right.contents != a.contents
    modifies a`end, a.contents
    ensures a.Valid() && a.Elements() == Merged(cmp, ls, rs)
  {
    ghost var whole := Merged(cmp, ls, rs);
    var i, j, k;
    ghost var rest;
    i, j, k, rest := MergeHeads(left, right, a, leftCount, rightCount, cmp, ls, rs, whole);
    OneRunLeft(cmp, ls, rs, i, j, rest);
    k := CopyRest(left, i, a, k, ls, rs[j..], whole);
    k := CopyRest(right, j, a, k, rs, [], whole);
    assert a.Elements()[..k] + [] == a.Elements();
  }

  /** The loop of Darray_merge_top_down that deals the elements s to two new arrays. */
  method Halve<T(0,==)>(a: Darray<T>, count: nat, ghost s: seq<T>) returns (left: Darray<T>, right: Darray<T>)
    requires a.Valid() && a.end == count >= 2 && s == a.Elements() && a.nil !in s
    ensures fresh(left) && fresh(right) && fresh(left.contents) && fresh(right.contents)
    ensures left != right && left.contents != right.contents
    ensures left.Valid() && right.Valid() && left.nil == right.nil == a.nil
    ensures left.Elements() == s[..count / 2] && right.Elements() == s[count / 2..]
  {
    var middle := count / 2;
    left := new Darray(a.nil, middle);
    right := new Darray(a.nil, count - middle);
    for i := 0 to count
      invariant left.Valid() && right.Valid() && fresh(left.contents) && fresh(right.contents)
      invariant left.contents != right.contents
      invariant left.Elements() == Front(s, middle, i) && right.Elements() == Back(s, middle, i)
    {
      Deal(a, left, right, middle, i, s);
    }
  }

  /** One pass of that loop. */
  method Deal<T(0,==)>(a: Darray<T>, left: Darray<T>, right: Darray<T>, middle: nat, i: nat, ghost s: seq<T>)
    requires a.Valid() && i < a.end && middle <= |s| && s == a.Elements() && a.nil !in s
    requires a != left && a != right && left != right && left.contents != right.contents
    requires left.Valid() && right.Valid() && left.nil == right.nil == a.nil
    requires left.Elements() == Front(s, middle, i) && right.Elements() == Back(s, middle, i)
    modifies left, left.contents, right, right.contents
    ensures left.Valid() && (left.contents == old(left.contents) || fresh(left.contents))
    ensures right.Valid() && (right.contents == old(right.contents) || fresh(right.contents))
    ensures left.contents != right.contents
    ensures left.Elements() == Front(s, middle, i + 1) && right.Elements() == Back(s, middle, i + 1)
  {
    var value := a.Get(i);
    assert value == s[i] && value in s;
    DealOne(s, middle, i);
    if i < middle {
      left.Push(value);
    } else {
      right.Push(value);
    }
  }

  /** What the first i elements give to either side of the middle. */
  ghost function Front<T>(s: seq<T>, middle: nat, i: nat): seq<T>
    requires middle <= |s| && i <= |s|
  {
    if i < middle then s[..i] else s[..middle]
  }

  ghost function Back<T>(s: seq<T>, middle: nat, i: nat): seq<T>
    requires middle <= |s| && i <= |s|
  {
    if i < middle then [] else s[middle..i]
  }

  lemma DealOne<T>(s: seq<T>, middle: nat, i: nat)
    requires middle <= |s| && i < |s|
    ensures Front(s, middle, i + 1) == if i < middle then Front(s, middle, i) + [s[i]] else Front(s, middle, i)
    ensures Back(s, middle, i + 1) == if i < middle then Back(s, middle, i) else Back(s, middle, i) + [s[i]]
  {
  }

  /** Darray_merge_top_down, which is always called with the element count. */
  method MergeTopDown<T(0,==)>(a: Darray<T>, count: nat, cmp: Comparison<T>)
    requires a.Valid() && a.end == count && a.nil !in a.Elements()
    modifies a`end, a.contents
    ensures a.Valid() && a.Elements() == MergeSorted(cmp, old(a.Elements()))
    decreases count
  {
    if count < 2 {
      return;
    }
    var left, right := Halve(a, count, a.Elements());
    MergeTopDown(left, count / 2, cmp);
    MergeTopDown(right, count - count / 2, cmp);
    Merge(left, right, a, count / 2, count - count / 2, cmp, left.Elements(), right.Elements());
  }

  /** Darray_mergesort: the one stable sort of the reversed input. */
  method Mergesort<T(0,==,!new)>(a: Darray<T>, cmp: Comparison<T>)
    requires a.Valid() && a.nil !in a.Elements()
    modifies a`end, a.contents
    ensures a.Valid() && a.Elements() == MergeSorted(cmp, old(a.Elements()))
    ensures StrictWeakOrder(cmp) ==> IsStableSortOf(cmp, a.Elements(), Reversed(old(a.Elements())))
  {
    if StrictWeakOrder(cmp) {
      MergeSortIsStableOnReverse(cmp, a.Elements());
    }
    MergeTopDown(a, a.end, cmp);
  }

  /** One comparison of the sweep, and its swap. */
  method CompareAndSwap<T(0,==)>(a: Darray<T>, j: nat, cmp: Comparison<T>) returns (swapped: bool)
    requires a.Valid() && 1 <= j < a.end
    modifies a.contents
    ensures a.Elements() == Bubbled(cmp, old(a.Elements()), j)
    ensures swapped <==> !Before(cmp, old(a.Elements())[j - 1], old(a.Elements())[j])
  {
    swapped := cmp(a.contents[j - 1], a.contents[j]) <= 0;
    if swapped {
      var tmp := a.contents[j - 1];
      a.contents[j - 1] := a.contents[j];
      a.contents[j] := tmp;
    }
  }

  /** One sweep of List_bubble_sort over the array; `sorted` says that nothing was swapped. */
  method Sweep<T(0,==)>(a: Darray<T>, cmp: Comparison<T>) returns (sorted: bool)
    requires a.Valid() && a.end >= 1
    modifies a.contents
    ensures a.Elements() == Swept(cmp, old(a.Elements()), a.end - 1)
    ensures sorted ==> a.Elements() == old(a.Elements())
    ensures sorted <==> NoSwaps(cmp, old(a.Elements()), a.end)
  {
    ghost var s := a.Elements();
    ghost var t := s;
    sorted := true;
    for j := 1 to a.end
      invariant a.Elements() == t && t == Swept(cmp, s, j - 1)
      invariant sorted ==> t == s
      invariant sorted <==> NoSwaps(cmp, s, j)
    {
      NoSwapsStep(cmp, s, j);
      var swapped := CompareAndSwap(a, j, cmp);
      t := Bubbled(cmp, t, j);
      if swapped {
        sorted := false;
      }
    }
  }

  /** The sweep behind k others; r is what it leaves, of n in all. */
  method NextSweep<T(0,==)>(a: Darray<T>, cmp: Comparison<T>, ghost s: seq<T>, ghost k: nat, ghost n: nat,
                            ghost t: seq<T>)
    returns (sorted: bool, ghost r: seq<T>)
    requires a.Valid() && k < n < a.end && s != [] && a.Elements() == t && t == Sweeps(cmp, s, k)
    modifies a.contents
    ensures a.Elements() == r && r == Sweeps(cmp, s, if sorted then n else k + 1)
  {
    sorted := Sweep(a, cmp);
    r := a.Elements();
    AfterSweep(cmp, s, k, t, r, n, sorted);
  }

  /** The two nested loops of List_bubble_sort, on elements s: count - 1 sweeps are enough, and
      nothing is lost by leaving after one that swaps nothing. */
  method BubbleArray<T(0,==,!new)>(a: Darray<T>, cmp: Comparison<T>, ghost s: seq<T>)
    requires a.Valid() && a.end >= 1 && s == a.Elements()
    modifies a.contents
    ensures a.Elements() == Sweeps(cmp, s, a.end - 1)
    ensures multiset(a.Elements()) == multiset(s)
    ensures StrictWeakOrder(cmp) ==> Sorted(cmp, a.Elements())
  {
    ghost var n := a.end - 1;
    ghost var t, k: nat := s, 0;
    var i, sorted := 1, false;
    while i < a.end && !sorted
      invariant 1 <= i <= a.end == n + 1 && a.Elements() == t && t == Sweeps(cmp, s, k)
      invariant k == if sorted then n else i - 1
    {
      sorted, t := NextSweep(a, cmp, s, k, n, t);
      k := if sorted then n else k + 1;
      i := i + 1;
    }
    SweepsSort(cmp, s, n, t);
  }

  /** The loop with which both list sorts store the values back into the nodes. */
  method WriteBack<T(0,==)>(list: List<T>, a: Darray<T>)
    requires list.Valid() && a.Valid() && a.end == list.count
    modifies list`values, list.nodes
    ensures list.Valid() && list.nodes == old(list.nodes) && list.values == a.Elements()
  {
    var node := list.first;
    for i := 0 to list.count
      invariant list.nodes == old(list.nodes) && Chain(list.nodes)
      invariant node == if i < list.count then list.nodes[i] else null
      invariant forall k {:trigger list.nodes[k].value} | 0 <= k < i :: list.nodes[k].value == a.contents[k]
    {
      node.value := a.contents[i];
      node := node.next;
    }
    list.values := a.Elements();
  }

  lemma FewAreSorted<T(!new)>(cmp: Comparison<T>, s: seq<T>)
    requires |s| <= 1
    ensures Sorted(cmp, s) && (s != [] ==> s == Sweeps(cmp, s, |s| - 1))
  {
  }

  /** List_bubble_sort */
  method ListBubbleSort<T(0,==,!new)>(list: List<T>, cmp: Comparison<T>) returns (rc: int)
    requires list.Valid() && list.nil !in list.values
    modifies list`values, list.nodes
    ensures rc == 0 && list.Valid() && list.nodes == old(list.nodes)
    ensures list.values != [] ==> list.values == Sweeps(cmp, old(list.values), |list.values| - 1)
    ensures multiset(list.values) == multiset(old(list.values))
    ensures StrictWeakOrder(cmp) ==> Sorted(cmp, list.values)
  {
    rc := 0;
    if list.count <= 1 {
      FewAreSorted(cmp, list.values);
      return;
    }
    var a := list.ToDarray();
    BubbleArray(a, cmp, a.Elements());
    WriteBack(list, a);
  }

  /** List_mergesort */
  method ListMergesort<T(0,==,!new)>(list: List<T>, cmp: Comparison<T>) returns (rc: int)
    requires list.Valid() && list.nil !in list.values
    modifies list`values, list.nodes
    ensures rc == 0 && list.Valid() && list.nodes == old(list.nodes)
    ensures list.values == MergeSorted(cmp, old(list.values))
    ensures StrictWeakOrder(cmp) ==> IsStableSortOf(cmp, list.values, Reversed(old(list.values)))
  {
    var a := list.ToDarray();
    Mergesort(a, cmp);
    WriteBack(list, a);
    return 0;
  }
}
