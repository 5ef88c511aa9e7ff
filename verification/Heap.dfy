/** The binary heap of lib/ds/heap.c, on a growable array. */
module Heaps {
  import opened Order
  import opened HeapOrder
  import opened DynamicArray
  import opened LinkedLists

  const HEAP_INITIAL_ARRAY_SIZE: nat := 300

  class Heap<T(0,==,!new)> {
    const heapType: int
    const cmp: Comparison<T>
    const contents: Darray<T>

    ghost function Items(): seq<T>
      requires contents.InBounds()
      reads contents, contents.contents
    {
      contents.Elements()
    }

    ghost predicate Valid()
      reads contents, contents.contents
    {
      contents.Valid() && StrictWeakOrder(cmp) && HeapOrdered(cmp, heapType, Items())
    }

    /** Heap_create */
    constructor (nil: T, heapType: int, cmp: Comparison<T>)
      requires StrictWeakOrder(cmp)
      ensures Valid() && fresh(contents) && fresh(contents.contents) && Items() == []
      ensures this.heapType == heapType && this.cmp == cmp && contents.nil == nil
    {
      this.heapType := heapType;
      this.cmp := cmp;
      var c := new Darray(nil, HEAP_INITIAL_ARRAY_SIZE);
      contents := c;
    }

    method SwapItems(i: nat, j: nat)
      requires contents.Valid() && i < contents.end && j < contents.end
      modifies contents`end, contents.contents
      ensures contents.Valid() && Items() == Swap(old(Items()), i, j)
    {
      var x := contents.Get(i);
      var y := contents.Get(j);
      contents.Set(i, y);
      contents.Set(j, x);
    }

    /** Heap_sift_up */
    method SiftUp()
      requires contents.Valid() && Items() != []
      modifies contents`end, contents.contents
      ensures contents.Valid()
      ensures Items() == SiftedUp(cmp, heapType, old(Items()), |old(Items())| - 1)
    {
      if contents.end <= 1 {
        return;
      }
      var i := contents.end - 1;
      while i > 0
        invariant contents.Valid() && 0 <= i < contents.end
        invariant SiftedUp(cmp, heapType, Items(), i) == SiftedUp(cmp, heapType, old(Items()), |old(Items())| - 1)
      {
        var p := (i - 1) / 2;
        var child := contents.Get(i);
        var parent := contents.Get(p);
        var c := cmp(parent, child);
        if c > 0 && heapType == 0 {
          SwapItems(i, p);
        } else if c <= 0 && heapType != 0 {
          SwapItems(i, p);
        } else {
          return;
        }
        i := (i - 1) / 2;
      }
    }

    /** The choice of a child in Heap_sift_down. */
    method GreaterChild(i: nat) returns (p: nat, greaterChild: T)
      requires contents.Valid() && 2 * i + 1 < contents.end
      ensures p == ChosenChild(cmp, Items(), i) && greaterChild == Items()[p]
    {
      p := i * 2 + 1;
      greaterChild := contents.Get(p);
      if p + 1 < contents.end {
        var child2 := contents.Get(p + 1);
        if cmp(greaterChild, child2) > 0 {
          greaterChild := child2;
          p := p + 1;
        }
      }
    }

    /** Heap_sift_down */
    method SiftDown()
      requires contents.Valid()
      modifies contents`end, contents.contents
      ensures contents.Valid() && Items() == SiftedDown(cmp, heapType, old(Items()), 0)
    {
      if contents.end <= 1 {
        return;
      }
      var end := contents.end;
      var i: nat := 0;
      while i < end
        invariant contents.Valid() && contents.end == end && i <= end
        invariant SiftedDown(cmp, heapType, Items(), i) == SiftedDown(cmp, heapType, old(Items()), 0)
        decreases end - i
      {
        var parent := contents.Get(i);
        if i * 2 + 1 >= end {
          return;
        }
        var p, greaterChild := GreaterChild(i);
        var c := cmp(parent, greaterChild);
        if c > 0 && heapType == 0 {
          SwapItems(i, p);
        } else if c <= 0 && heapType != 0 {
          SwapItems(i, p);
        } else {
          return;
        }
        i := p;
      }
    }

    method Push(value: T)
      requires Valid() && value != contents.nil
      modifies contents, contents.contents
      ensures Valid() && (contents.contents == old(contents.contents) || fresh(contents.contents))
      ensures multiset(Items()) == multiset(old(Items())) + multiset{value}
    {
      ghost var s := Items();
      contents.Push(value);
      PushedIsHeap(cmp, heapType, s, value);
      ghost var r := SiftedUp(cmp, heapType, s + [value], |s|);
      assert Items() == s + [value] && |Items()| - 1 == |s|;
      SiftUp();
      assert Items() == r;
    }

    /** Heap_pop: the root, which no element outranks.  What is left is ordered exactly if the
        sift was safe, which for type 0 it always is. */
    method Pop() returns (root: T)
      requires Valid() && Items() != []
      modifies contents, contents.contents
      ensures contents.Valid() && (contents.contents == old(contents.contents) || fresh(contents.contents))
      ensures Items() == SiftedDown(cmp, heapType, LastToRoot(old(Items())), 0)
      ensures multiset(old(Items())) == multiset(Items()) + multiset{root}
      ensures forall x | x in old(Items()) :: InOrder(cmp, heapType, root, x)
      ensures Valid() <==> SiftDownSafe(cmp, heapType, LastToRoot(old(Items())), 0)
    {
      ghost var s := Items();
      RootOutranksAll(cmp, heapType, s);
      root := contents.Get(0);
      MoveLastToRoot();
      SiftDown();
      PopEffect(cmp, heapType, s, Items());
    }

    method MoveLastToRoot()
      requires contents.Valid() && Items() != []
      modifies contents, contents.contents
      ensures contents.Valid() && (contents.contents == old(contents.contents) || fresh(contents.contents))
      ensures Items() == LastToRoot(old(Items()))
    {
      var last := contents.Pop();
      contents.Set(0, last);
    }

    /** Heap_pop_replace: a pop and a push with one sift. */
    method PopReplace(value: T) returns (root: T)
      requires Valid() && Items() != []
      modifies contents, contents.contents
      ensures contents.Valid() && contents.contents == old(contents.contents)
      ensures Items() == SiftedDown(cmp, heapType, old(Items())[0 := value], 0)
      ensures multiset(old(Items())) + multiset{value} == multiset(Items()) + multiset{root}
      ensures forall x | x in old(Items()) :: InOrder(cmp, heapType, root, x)
      ensures Valid() <==> SiftDownSafe(cmp, heapType, old(Items())[0 := value], 0)
    {
      ghost var s := Items();
      RootOutranksAll(cmp, heapType, s);
      root := contents.Get(0);
      contents.Set(0, value);
      assert Items() == s[0 := value];
      SiftDownPermutes(cmp, heapType, Items(), 0);
      SiftDownOrdersIffSafe(cmp, heapType, Items(), 0);
      SiftDown();
    }
  }

  // ---- Building a heap ----

  ghost predicate FreshHeap<T(0,!new)>(h: Heap<T>, nil: T, heapType: int, cmp: Comparison<T>)
    reads h.contents, h.contents.contents
  {
    h.Valid() && h.contents.nil == nil && h.heapType == heapType && h.cmp == cmp
  }

  lemma OneMore<T>(s: seq<T>, i: nat)
    requires i < |s|
    ensures multiset(s[..i + 1]) == multiset(s[..i]) + multiset{s[i]}
  {
    assert s[..i + 1] == s[..i] + [s[i]];
  }

  /** Heap_from_array, and the loop that the other builders share. */
  method FromArray<T(0,==,!new)>(nil: T, items: seq<T>, heapType: int, cmp: Comparison<T>) returns (h: Heap<T>)
    requires StrictWeakOrder(cmp) && nil !in items
    ensures fresh(h) && fresh(h.contents) && fresh(h.contents.contents)
    ensures FreshHeap(h, nil, heapType, cmp) && multiset(h.Items()) == multiset(items)
  {
    h := new Heap(nil, heapType, cmp);
    for i := 0 to |items|
      invariant fresh(h) && fresh(h.contents) && fresh(h.contents.contents)
      invariant FreshHeap(h, nil, heapType, cmp) && multiset(h.Items()) == multiset(items[..i])
    {
      OneMore(items, i);
      h.Push(items[i]);
    }
    assert items[..|items|] == items;
  }

  /** The loop over an array of Heap_from_darray and, twice, of Heap_merge. */
  method PushAll<T(0,==,!new)>(h: Heap<T>, a: Darray<T>)
    requires h.Valid() && a.Valid() && a.nil == h.contents.nil && a.nil !in a.Elements()
    requires a != h.contents && a.contents != h.contents.contents
    modifies h.contents, h.contents.contents
    ensures h.Valid() && (h.contents.contents == old(h.contents.contents) || fresh(h.contents.contents))
    ensures multiset(h.Items()) == multiset(old(h.Items())) + multiset(a.Elements())
  {
    ghost var items := a.Elements();
    for i := 0 to a.end
      invariant h.Valid() && (h.contents.contents == old(h.contents.contents) || fresh(h.contents.contents))
      invariant multiset(h.Items()) == multiset(old(h.Items())) + multiset(items[..i])
    {
      OneMore(items, i);
      assert items[i] in items;
      var x := a.Get(i);
      h.Push(x);
    }
    assert items[..|items|] == items;
  }

  /** Heap_from_darray */
  method FromDarray<T(0,==,!new)>(a: Darray<T>, heapType: int, cmp: Comparison<T>) returns (h: Heap<T>)
    requires StrictWeakOrder(cmp) && a.Valid() && a.nil !in a.Elements()
    ensures fresh(h) && fresh(h.contents) && fresh(h.contents.contents)
    ensures FreshHeap(h, a.nil, heapType, cmp) && multiset(h.Items()) == multiset(a.Elements())
  {
    h := new Heap(a.nil, heapType, cmp);
    PushAll(h, a);
  }

  /** Heap_from_list */
  method FromList<T(0,==,!new)>(list: List<T>, heapType: int, cmp: Comparison<T>) returns (h: Heap<T>)
    requires StrictWeakOrder(cmp) && list.Valid() && list.nil !in list.values
    ensures fresh(h) && fresh(h.contents) && fresh(h.contents.contents)
    ensures FreshHeap(h, list.nil, heapType, cmp) && multiset(h.Items()) == multiset(list.values)
  {
    h := new Heap(list.nil, heapType, cmp);
    var node := list.first;
    ghost var vs := list.values;
    ghost var i := 0;
    while node != null
      invariant i <= |vs| && node == (if i < |vs| then list.nodes[i] else null)
      invariant fresh(h) && fresh(h.contents) && fresh(h.contents.contents)
      invariant FreshHeap(h, list.nil, heapType, cmp) && multiset(h.Items()) == multiset(vs[..i])
      decreases |vs| - i
    {
      assert node.value == vs[i] && vs[i] in vs;
      OneMore(vs, i);
      h.Push(node.value);
      node := node.next;
      i := i + 1;
    }
    assert vs[..|vs|] == vs;
  }

  /** Heap_merge: a third heap with the elements of both and the left one's order.  Neither
      source is in the frame, so both are left as they were. */
  method Merge<T(0,==,!new)>(left: Heap<T>, right: Heap<T>) returns (h: Heap<T>)
    requires left.Valid() && right.contents.Valid()
    requires left.contents.nil == right.contents.nil
    requires left.contents.nil !in left.Items() && right.contents.nil !in right.Items()
    ensures fresh(h) && fresh(h.contents) && fresh(h.contents.contents)
    ensures FreshHeap(h, left.contents.nil, left.heapType, left.cmp)
    ensures multiset(h.Items()) == multiset(left.Items()) + multiset(right.Items())
  {
    h := new Heap(left.contents.nil, left.heapType, left.cmp);
    PushAll(h, left.contents);
    PushAll(h, right.contents);
  }

  /** out is in order, and nothing that is left comes before any of it. */
  ghost predicate Drained<T>(cmp: Comparison<T>, out: seq<T>, left: seq<T>)
  {
    && (forall i, j | 0 <= i < j < |out| :: !Before(cmp, out[i], out[j]))
    && (forall i, j | 0 <= i < |out| && 0 <= j < |left| :: !Before(cmp, out[i], left[j]))
  }

  lemma DrainStep<T(!new)>(cmp: Comparison<T>, out: seq<T>, before: seq<T>, left: seq<T>, root: T)
    requires Drained(cmp, out, before) && multiset(before) == multiset(left) + multiset{root}
    requires forall x | x in before :: InOrder(cmp, 0, root, x)
    ensures Drained(cmp, out + [root], left)
  {
    MultisetMembers(before, left, root);
    forall i, j | 0 <= i < |out + [root]| && 0 <= j < |left| ensures !Before(cmp, (out + [root])[i], left[j]) {
      assert left[j] in left && left[j] in before;
    }
  }

  /** Popping a type 0 heap until it is empty gives all its elements, the last in the order of
      cmp first. */
  method Drain<T(0,==,!new)>(h: Heap<T>) returns (out: seq<T>)
    requires h.Valid() && h.heapType == 0
    modifies h.contents, h.contents.contents
    ensures h.Valid() && h.Items() == []
    ensures multiset(out) == multiset(old(h.Items()))
    ensures forall i, j | 0 <= i < j < |out| :: !Before(h.cmp, out[i], out[j])
  {
    out := [];
    ghost var items := h.Items();
    while h.contents.end > 0
      invariant h.Valid() && (h.contents.contents == old(h.contents.contents) || fresh(h.contents.contents))
      invariant multiset(items) == multiset(out) + multiset(h.Items())
      invariant Drained(h.cmp, out, h.Items())
      decreases h.contents.end
    {
      ghost var before := h.Items();
      var root := h.Pop();
      MultisetMembers(before, h.Items(), root);
      DrainStep(h.cmp, out, before, h.Items(), root);
      out := out + [root];
    }
  }

  /** So a type 0 heap sorts. */
  method BuildAndDrain<T(0,==,!new)>(nil: T, items: seq<T>, cmp: Comparison<T>) returns (out: seq<T>)
    requires StrictWeakOrder(cmp) && nil !in items
    ensures multiset(out) == multiset(items)
    ensures forall i, j | 0 <= i < j < |out| :: !Before(cmp, out[i], out[j])
  {
    var h := FromArray(nil, items, 0, cmp);
    out := Drain(h);
  }

  lemma MultisetMembers<T>(s: seq<T>, r: seq<T>, x: T)
    requires multiset(s) == multiset(r) + multiset{x}
    ensures |s| == |r| + 1 && x in s && forall y | y in r :: y in s
  {
    assert |multiset(s)| == |s| && |multiset(r)| == |r|;
    assert x in multiset(s);
    forall y | y in r ensures y in s {
      assert y in multiset(r);
      assert y in multiset(s);
    }
  }

  /** Appending an element and sifting it up keeps heap order, for either type. */
  lemma PushedIsHeap<T(!new)>(cmp: Comparison<T>, heapType: int, s: seq<T>, value: T)
    requires StrictWeakOrder(cmp) && HeapOrdered(cmp, heapType, s)
    ensures var r := SiftedUp(cmp, heapType, s + [value], |s|);
      HeapOrdered(cmp, heapType, r) && multiset(r) == multiset(s) + multiset{value}
  {
    var r := s + [value];
    forall k | 0 < k < |r| && k != |s| ensures Edge(cmp, heapType, r, Parent(k), k) {
      assert Edge(cmp, heapType, s, Parent(k), k);
    }
    SiftUpOrders(cmp, heapType, r, |s|);
  }
}
