/** Merging as lib/algo/darray_algo.c does it, and the stable sort that it amounts to. */
module StableSort {
  import opened Order

  /** Darray_merge: on a tie the right element goes first. */
  function Merged<T>(cmp: Comparison<T>, l: seq<T>, r: seq<T>): (m: seq<T>)
    ensures |m| == |l| + |r|
  {
    if l == [] then r
    else if r == [] then l
    else if Before(cmp, l[0], r[0]) then [l[0]] + Merged(cmp, l[1..], r)
    else [r[0]] + Merged(cmp, l, r[1..])
  }

  /** Darray_merge_top_down */
  function MergeSorted<T>(cmp: Comparison<T>, s: seq<T>): (m: seq<T>)
    ensures |m| == |s|
    decreases |s|
  {
    if |s| < 2 then s
    else Merged(cmp, MergeSorted(cmp, s[..|s| / 2]), MergeSorted(cmp, s[|s| / 2..]))
  }

  function Reversed<T>(s: seq<T>): (r: seq<T>)
    ensures |r| == |s|
    ensures forall i | 0 <= i < |s| :: r[i] == s[|s| - 1 - i]
  {
    if s == [] then [] else Reversed(s[1..]) + [s[0]]
  }

  /** The elements of s that are equivalent to x, in order. */
  function ClassOf<T>(cmp: Comparison<T>, x: T, s: seq<T>): seq<T>
  {
    if s == [] then []
    else
      var rest := ClassOf(cmp, x, s[..|s| - 1]);
      if Equivalent(cmp, x, s[|s| - 1]) then rest + [s[|s| - 1]] else rest
  }

  /** Equivalent elements stand in the same order in both. */
  ghost predicate SameClasses<T(!new)>(cmp: Comparison<T>, a: seq<T>, b: seq<T>)
  {
    forall x :: ClassOf(cmp, x, a) == ClassOf(cmp, x, b)
  }

  /** out is src sorted, with equivalent elements in the order in which src has them. */
  ghost predicate IsStableSortOf<T(!new)>(cmp: Comparison<T>, out: seq<T>, src: seq<T>)
  {
    && Sorted(cmp, out)
    && multiset(out) == multiset(src)
    && SameClasses(cmp, out, src)
  }

  // ---- Classes of concatenations ----

  lemma {:induction false} ClassConcat<T>(cmp: Comparison<T>, x: T, a: seq<T>, b: seq<T>)
    ensures ClassOf(cmp, x, a + b) == ClassOf(cmp, x, a) + ClassOf(cmp, x, b)
  {
    if b == [] {
      assert a + b == a;
    } else {
      assert (a + b)[..|a + b| - 1] == a + b[..|b| - 1];
      ClassConcat(cmp, x, a, b[..|b| - 1]);
    }
  }

  lemma ClassCons<T>(cmp: Comparison<T>, x: T, s: seq<T>)
    requires s != []
    ensures ClassOf(cmp, x, s) == (if Equivalent(cmp, x, s[0]) then [s[0]] else []) + ClassOf(cmp, x, s[1..])
  {
    assert s == [s[0]] + s[1..];
    ClassConcat(cmp, x, [s[0]], s[1..]);
    assert ClassOf(cmp, x, [s[0]][..0]) == [];
  }

  lemma {:induction false} ClassEmpty<T>(cmp: Comparison<T>, x: T, s: seq<T>)
    requires forall i | 0 <= i < |s| :: !Equivalent(cmp, x, s[i])
    ensures ClassOf(cmp, x, s) == []
  {
    if s != [] {
      ClassEmpty(cmp, x, s[..|s| - 1]);
    }
  }

  lemma ReversedConcat<T>(a: seq<T>, b: seq<T>)
    ensures Reversed(a + b) == Reversed(b) + Reversed(a)
  {
  }

  // ---- One merge ----

  lemma {:induction false} MergedPermutes<T>(cmp: Comparison<T>, l: seq<T>, r: seq<T>)
    ensures multiset(Merged(cmp, l, r)) == multiset(l) + multiset(r)
  {
    if l != [] && r != [] {
      assert l == [l[0]] + l[1..] && r == [r[0]] + r[1..];
      if Before(cmp, l[0], r[0]) {
        MergedPermutes(cmp, l[1..], r);
      } else {
        MergedPermutes(cmp, l, r[1..]);
      }
    }
  }

  lemma HeadFirst<T(!new)>(cmp: Comparison<T>, x: T, s: seq<T>)
    requires Sorted(cmp, s) && forall y | y in s :: !Before(cmp, y, x)
    ensures Sorted(cmp, [x] + s)
  {
    var r := [x] + s;
    forall i, j | 0 <= i < j < |r| ensures !Before(cmp, r[j], r[i]) {
      assert r[j] == s[j - 1];
      assert i > 0 ==> r[i] == s[i - 1];
    }
  }

  /** The head of the result comes after neither run. */
  lemma MergedBound<T(!new)>(cmp: Comparison<T>, x: T, l: seq<T>, r: seq<T>)
    requires forall y | y in l || y in r :: !Before(cmp, y, x)
    ensures forall y | y in Merged(cmp, l, r) :: !Before(cmp, y, x)
  {
    MergedPermutes(cmp, l, r);
    forall y | y in Merged(cmp, l, r) ensures y in l || y in r {
      assert y in multiset(Merged(cmp, l, r));
      assert y in multiset(l) || y in multiset(r);
    }
  }

  lemma NoneBeforeHead<T(!new)>(cmp: Comparison<T>, x: T, s: seq<T>)
    requires StrictWeakOrder(cmp) && Sorted(cmp, s) && s != [] && !Before(cmp, s[0], x)
    ensures forall y | y in s :: !Before(cmp, y, x)
  {
    forall y | y in s ensures !Before(cmp, y, x) {
      var i :| 0 <= i < |s| && s[i] == y;
      assert i > 0 ==> !Before(cmp, s[i], s[0]);
    }
  }

  lemma {:induction false} MergedSorts<T(!new)>(cmp: Comparison<T>, l: seq<T>, r: seq<T>)
    requires StrictWeakOrder(cmp) && Sorted(cmp, l) && Sorted(cmp, r)
    ensures Sorted(cmp, Merged(cmp, l, r))
  {
    if l != [] && r != [] {
      var x := if Before(cmp, l[0], r[0]) then l[0] else r[0];
      var l', r' := if Before(cmp, l[0], r[0]) then l[1..] else l, if Before(cmp, l[0], r[0]) then r else r[1..];
      MergedSorts(cmp, l', r');
      assert !Before(cmp, x, x);
      NoneBeforeHead(cmp, x, l);
      NoneBeforeHead(cmp, x, r);
      MergedBound(cmp, x, l', r');
      HeadFirst(cmp, x, Merged(cmp, l', r'));
    }
  }

  lemma Associate<T>(a: seq<T>, b: seq<T>, c: seq<T>)
    ensures a + (b + c) == (a + b) + c
    ensures [] + c == c && [] + (b + c) == b + c
  {
  }

  /** h is the head of m and of a, with no b left behind it, or belongs to neither. */
  lemma HeadOfClass<T>(h: seq<T>, a: seq<T>, b: seq<T>, m: seq<T>, c: seq<T>)
    requires m == h + (b + a) && c == h + a && (h == [] || b == [])
    ensures m == b + c
  {
    if h == [] {
      assert m == b + a && c == a;
    } else {
      assert b + a == a && b + c == c;
    }
  }

  lemma MergedLeftClass<T(!new)>(cmp: Comparison<T>, x: T, l: seq<T>, r: seq<T>)
    requires StrictWeakOrder(cmp) && Sorted(cmp, r) && l != [] && r != [] && Before(cmp, l[0], r[0])
    requires ClassOf(cmp, x, Merged(cmp, l[1..], r)) == ClassOf(cmp, x, r) + ClassOf(cmp, x, l[1..])
    ensures ClassOf(cmp, x, Merged(cmp, l, r)) == ClassOf(cmp, x, r) + ClassOf(cmp, x, l)
  {
    var m := Merged(cmp, l, r);
    assert m[0] == l[0] && m[1..] == Merged(cmp, l[1..], r);
    ClassCons(cmp, x, m);
    ClassCons(cmp, x, l);
    var h := if Equivalent(cmp, x, l[0]) then [l[0]] else [];
    if Equivalent(cmp, x, l[0]) {
      EquivalentRunStops(cmp, x, l[0], r);
    }
    HeadOfClass(h, ClassOf(cmp, x, l[1..]), ClassOf(cmp, x, r), ClassOf(cmp, x, m), ClassOf(cmp, x, l));
  }

  lemma MergedRightClass<T(!new)>(cmp: Comparison<T>, x: T, l: seq<T>, r: seq<T>)
    requires l != [] && r != [] && !Before(cmp, l[0], r[0])
    requires ClassOf(cmp, x, Merged(cmp, l, r[1..])) == ClassOf(cmp, x, r[1..]) + ClassOf(cmp, x, l)
    ensures ClassOf(cmp, x, Merged(cmp, l, r)) == ClassOf(cmp, x, r) + ClassOf(cmp, x, l)
  {
    var m := Merged(cmp, l, r);
    assert m[0] == r[0] && m[1..] == Merged(cmp, l, r[1..]);
    ClassCons(cmp, x, m);
    ClassCons(cmp, x, r);
    Associate(if Equivalent(cmp, x, r[0]) then [r[0]] else [], ClassOf(cmp, x, r[1..]), ClassOf(cmp, x, l));
  }

  /** Within a class of equivalent elements, all of the right run precede all of the left. */
  lemma {:induction false} MergedClass<T(!new)>(cmp: Comparison<T>, x: T, l: seq<T>, r: seq<T>)
    requires StrictWeakOrder(cmp) && Sorted(cmp, l) && Sorted(cmp, r)
    ensures ClassOf(cmp, x, Merged(cmp, l, r)) == ClassOf(cmp, x, r) + ClassOf(cmp, x, l)
  {
    if l == [] || r == [] {
      assert ClassOf(cmp, x, r) + [] == ClassOf(cmp, x, r);
    } else if Before(cmp, l[0], r[0]) {
      MergedClass(cmp, x, l[1..], r);
      MergedLeftClass(cmp, x, l, r);
    } else {
      MergedClass(cmp, x, l, r[1..]);
      MergedRightClass(cmp, x, l, r);
    }
  }

  lemma EquivalentRunStops<T(!new)>(cmp: Comparison<T>, x: T, y: T, r: seq<T>)
    requires StrictWeakOrder(cmp) && Sorted(cmp, r) && r != []
    requires Equivalent(cmp, x, y) && Before(cmp, y, r[0])
    ensures ClassOf(cmp, x, r) == []
  {
    forall i | 0 <= i < |r| ensures !Equivalent(cmp, x, r[i]) {
      assert !Before(cmp, y, x) && !Before(cmp, r[0], r[0]);
      assert !Before(cmp, r[i], r[0]);
    }
    ClassEmpty(cmp, x, r);
  }

  // ---- The whole sort ----

  lemma {:induction false} MergeSortSorts<T(!new)>(cmp: Comparison<T>, s: seq<T>)
    requires StrictWeakOrder(cmp)
    ensures Sorted(cmp, MergeSorted(cmp, s)) && multiset(MergeSorted(cmp, s)) == multiset(s)
    decreases |s|
  {
    if |s| >= 2 {
      var a, b := s[..|s| / 2], s[|s| / 2..];
      assert s == a + b;
      MergeSortSorts(cmp, a);
      MergeSortSorts(cmp, b);
      MergedSorts(cmp, MergeSorted(cmp, a), MergeSorted(cmp, b));
      MergedPermutes(cmp, MergeSorted(cmp, a), MergeSorted(cmp, b));
    }
  }

  lemma MergeSortOrders<T(!new)>(cmp: Comparison<T>, s: seq<T>)
    requires StrictWeakOrder(cmp)
    ensures Sorted(cmp, MergeSorted(cmp, s))
  {
    MergeSortSorts(cmp, s);
  }

  /** The two halves of the input and what becomes of them. */
  lemma Halves<T(!new)>(cmp: Comparison<T>, s: seq<T>, m: seq<T>) returns (a: seq<T>, b: seq<T>, l: seq<T>, r: seq<T>)
    requires StrictWeakOrder(cmp) && |s| >= 2 && m == MergeSorted(cmp, s)
    ensures s == a + b && |a| < |s| && |b| < |s|
    ensures l == MergeSorted(cmp, a) && r == MergeSorted(cmp, b) && m == Merged(cmp, l, r)
    ensures Sorted(cmp, l) && Sorted(cmp, r)
  {
    a, b := s[..|s| / 2], s[|s| / 2..];
    l, r := MergeSorted(cmp, a), MergeSorted(cmp, b);
    MergeSortOrders(cmp, a);
    MergeSortOrders(cmp, b);
  }

  lemma {:induction false} MergeSortClass<T(!new)>(cmp: Comparison<T>, x: T, s: seq<T>, m: seq<T>)
    requires StrictWeakOrder(cmp) && m == MergeSorted(cmp, s)
    ensures ClassOf(cmp, x, m) == ClassOf(cmp, x, Reversed(s))
    decreases |s|
  {
    if |s| < 2 {
      assert Reversed(s) == s;
    } else {
      var a, b, l, r := Halves(cmp, s, m);
      MergeSortClass(cmp, x, a, l);
      MergeSortClass(cmp, x, b, r);
      MergedClass(cmp, x, l, r);
      ReversedClass(cmp, x, a, b);
    }
  }

  lemma ReversedClass<T>(cmp: Comparison<T>, x: T, a: seq<T>, b: seq<T>)
    ensures ClassOf(cmp, x, Reversed(a + b)) == ClassOf(cmp, x, Reversed(b)) + ClassOf(cmp, x, Reversed(a))
  {
    ReversedConcat(a, b);
    ClassConcat(cmp, x, Reversed(b), Reversed(a));
  }

  lemma {:induction false} ReversedPermutes<T>(s: seq<T>)
    ensures multiset(Reversed(s)) == multiset(s)
  {
    if s != [] {
      ReversedPermutes(s[1..]);
      assert s == [s[0]] + s[1..];
    }
  }

  /** The result is the stable sort of the input read backwards. */
  lemma MergeSortIsStableOnReverse<T(!new)>(cmp: Comparison<T>, s: seq<T>)
    requires StrictWeakOrder(cmp)
    ensures IsStableSortOf(cmp, MergeSorted(cmp, s), Reversed(s))
  {
    MergeSortSorts(cmp, s);
    ReversedPermutes(s);
    forall x ensures ClassOf(cmp, x, MergeSorted(cmp, s)) == ClassOf(cmp, x, Reversed(s)) {
      MergeSortClass(cmp, x, s, MergeSorted(cmp, s));
    }
  }

  lemma LastsAgree<T(!new)>(cmp: Comparison<T>, a: seq<T>, b: seq<T>)
    requires StrictWeakOrder(cmp) && Sorted(cmp, a) && Sorted(cmp, b)
    requires multiset(a) == multiset(b) && a != [] && b != []
    ensures Equivalent(cmp, a[|a| - 1], b[|b| - 1])
    ensures Equivalent(cmp, a[|a| - 1], a[|a| - 1])
  {
    var x, y := a[|a| - 1], b[|b| - 1];
    assert x in multiset(a) && y in multiset(b);
    var i :| 0 <= i < |b| && b[i] == x;
    var j :| 0 <= j < |a| && a[j] == y;
  }

  /** A class ends with the last element of the sequence, if that belongs to it. */
  lemma LastOfClass<T>(cmp: Comparison<T>, x: T, s: seq<T>)
    requires s != []
    ensures var c, n := ClassOf(cmp, x, s), |s| - 1;
      if Equivalent(cmp, x, s[n]) then c != [] && c[|c| - 1] == s[n] && c[..|c| - 1] == ClassOf(cmp, x, s[..n])
      else c == ClassOf(cmp, x, s[..n])
  {
  }

  lemma SameClassesDropLast<T(!new)>(cmp: Comparison<T>, a: seq<T>, b: seq<T>)
    requires SameClasses(cmp, a, b) && |a| == |b| > 0 && a[|a| - 1] == b[|b| - 1]
    ensures SameClasses(cmp, a[..|a| - 1], b[..|b| - 1])
  {
    var a', b' := a[..|a| - 1], b[..|b| - 1];
    forall x ensures ClassOf(cmp, x, a') == ClassOf(cmp, x, b') {
      assert ClassOf(cmp, x, a) == ClassOf(cmp, x, b);
      LastOfClass(cmp, x, a);
      LastOfClass(cmp, x, b);
    }
  }

  lemma DropLast<T>(a: seq<T>, b: seq<T>)
    requires |a| == |b| > 0 && a[|a| - 1] == b[|b| - 1] && multiset(a) == multiset(b)
    ensures multiset(a[..|a| - 1]) == multiset(b[..|b| - 1])
    ensures a[..|a| - 1] == b[..|b| - 1] ==> a == b
  {
    assert a == a[..|a| - 1] + [a[|a| - 1]];
    assert b == b[..|b| - 1] + [b[|b| - 1]];
    assert multiset(a[..|a| - 1]) == multiset(a) - multiset{a[|a| - 1]};
  }

  /** A sequence has only one stable sort, so the previous lemma says which. */
  lemma {:induction false} StableSortIsUnique<T(!new)>(cmp: Comparison<T>, a: seq<T>, b: seq<T>)
    requires StrictWeakOrder(cmp) && Sorted(cmp, a) && Sorted(cmp, b) && multiset(a) == multiset(b)
    requires SameClasses(cmp, a, b)
    ensures a == b
    decreases |a|
  {
    assert |multiset(a)| == |a| && |multiset(b)| == |b|;
    if a != [] {
      var m := |a| - 1;
      var x := a[m];
      LastsAgree(cmp, a, b);
      LastOfClass(cmp, x, a);
      LastOfClass(cmp, x, b);
      assert ClassOf(cmp, x, a) == ClassOf(cmp, x, b);
      SameClassesDropLast(cmp, a, b);
      DropLast(a, b);
      StableSortIsUnique(cmp, a[..m], b[..m]);
    }
  }

  /** Any stable sort of the reversed input is what the code returns. */
  lemma MergeSortIsThatSort<T(!new)>(cmp: Comparison<T>, s: seq<T>, out: seq<T>)
    requires StrictWeakOrder(cmp)
    ensures IsStableSortOf(cmp, out, Reversed(s)) <==> out == MergeSorted(cmp, s)
  {
    MergeSortIsStableOnReverse(cmp, s);
    if IsStableSortOf(cmp, out, Reversed(s)) {
      StableSortIsUnique(cmp, out, MergeSorted(cmp, s));
    }
  }
}
