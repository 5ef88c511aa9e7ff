/** The growable array of lib/ds/darray.c, on which the heap, the hashmap and the sorts are built. */
module DynamicArray {
  import opened Common

  const DEFAULT_EXPAND_RATE: nat := 300
  const DARRAY_DEFAULT_SIZE: nat := 100

  function Min(a: int, b: int): int { if a < b then a else b }

  /** `nil` is the null pointer: what a fresh or vacated slot holds, and what a pop of an empty
      array returns.  Slots beyond `end` that realloc() added hold arbitrary values. */
  class Darray<T(0,==)> {
    const nil: T
    var end: nat
    var max: nat
    var contents: array<T>

    /** Every access below `max` is in bounds. */
    ghost predicate InBounds()
      reads this
    {
      end <= max == contents.Length
    }

    /** There is always room for one more element. */
    ghost predicate Valid()
      reads this
    {
      InBounds() && end < max
    }

    ghost function Elements(): (s: seq<T>)
      requires InBounds()
      reads this, contents
      ensures |s| == end
    {
      contents[..end]
    }

    /** Darray_create */
    constructor (nil: T, initialMax: nat)
      requires initialMax > 0
      ensures Valid() && fresh(contents)
      ensures this.nil == nil && max == initialMax && Elements() == []
      ensures forall i | 0 <= i < max :: contents[i] == nil
    {
      this.nil := nil;
      end := 0;
      max := initialMax;
      contents := new T[initialMax](_ => nil);
    }

    /** Darray_resize: what realloc() keeps is the common prefix. */
    method Resize(newSize: nat)
      requires InBounds() && newSize > 0
      modifies this
      ensures fresh(contents) && contents.Length == max == newSize && end == old(end)
      ensures contents[..Min(old(max), newSize)] == old(contents[..Min(max, newSize)])
    {
      var moved := new T[newSize];
      var n := Min(max, newSize);
      forall i | 0 <= i < n {
        moved[i] := contents[i];
      }
      assert moved[..n] == contents[..n];
      max := newSize;
      contents := moved;
    }

    /** Darray_expand: the new chunk is nulled out. */
    method Expand()
      requires InBounds()
      modifies this
      ensures Valid() && fresh(contents) && max == old(max) + DEFAULT_EXPAND_RATE
      ensures Elements() == old(Elements())
      ensures forall i | old(max) <= i < max :: contents[i] == nil
    {
      var oldMax := max;
      Resize(max + DEFAULT_EXPAND_RATE);
      assert contents[..oldMax][..end] == contents[..end];
      forall i | oldMax <= i < max {
        contents[i] := nil;
      }
      assert contents[..end] == old(contents[..max])[..end];
    }

    /** Darray_contract */
    method Contract()
      requires InBounds()
      modifies this
      ensures fresh(contents)
      ensures max == (if end < DEFAULT_EXPAND_RATE then DEFAULT_EXPAND_RATE else end) + 1
      ensures Valid() && Elements() == old(Elements())
    {
      var newSize := if end < DEFAULT_EXPAND_RATE then DEFAULT_EXPAND_RATE else end;
      Resize(newSize + 1);
      var n := Min(old(max), newSize + 1);
      assert contents[..n][..end] == contents[..end];
      assert old(contents[..n])[..end] == old(contents[..end]);
    }

    method Push(element: T)
      requires Valid() && element != nil
      modifies this, contents
      ensures Valid() && (contents == old(contents) || fresh(contents))
      ensures Elements() == old(Elements()) + [element]
      ensures max == if old(end) + 1 >= old(max) then old(max) + DEFAULT_EXPAND_RATE else old(max)
    {
      contents[end] := element;
      end := end + 1;
      if end >= max {
        Expand();
      }
    }

    /** Darray_pop: contracts the array when more than one chunk is left, and not a whole number
        of chunks; it never grows the array, and keeps every other element when it shrinks it. */
    method Pop() returns (element: T)
      requires Valid()
      modifies this, contents
      ensures Valid() && (contents == old(contents) || fresh(contents)) && max <= old(max)
      ensures old(end) == 0 ==> element == nil && Elements() == []
      ensures old(end) > 0 ==> old(Elements()) == Elements() + [element]
      ensures max == if old(end) > 0 && end > DEFAULT_EXPAND_RATE && end % DEFAULT_EXPAND_RATE != 0
                     then end + 1 else old(max)
      ensures old(end) > 0 && max == old(max) && contents == old(contents) ==> contents[end] == nil
    {
      if end == 0 {
        return nil;
      }
      element := Remove(end - 1);
      end := end - 1;
      if end > DEFAULT_EXPAND_RATE && end % DEFAULT_EXPAND_RATE != 0 {
        Contract();
      }
    }

    /** Darray_set: beyond `end` it moves `end` up to i, which leaves the new element out. */
    method Set(i: nat, el: T)
      requires InBounds() && i < max
      modifies this`end, contents
      ensures InBounds() && contents[..] == old(contents[..])[i := el]
      ensures end == if i > old(end) then i else old(end)
      ensures Elements() == ElementsAfterSet(old(contents[..]), old(end), i, el)
      ensures i < old(end) ==> Elements() == old(Elements())[i := el]
    {
      if i > end {
        end := i;
      }
      contents[i] := el;
    }

    method Get(i: nat) returns (el: T)
      requires InBounds() && i < max
      ensures el == contents[i]
    {
      el := contents[i];
    }

    /** Darray_remove: vacates a slot without closing the gap. */
    method Remove(i: nat) returns (el: T)
      requires InBounds() && i <= end && i < max
      modifies contents
      ensures el == old(contents[i]) && contents[..] == old(contents[..])[i := nil]
    {
      el := contents[i];
      contents[i] := nil;
    }

    method Copy() returns (r: Darray<T>)
      requires Valid()
      ensures fresh(r) && fresh(r.contents) && r.Valid()
      ensures r.nil == nil && r.max == max && r.Elements() == Elements()
    {
      r := new Darray(nil, max);
      r.end := end;
      for i := 0 to end
        invariant r.end == end && r.max == max == r.contents.Length && fresh(r.contents)
        invariant r.contents[..i] == contents[..i]
      {
        r.contents[i] := contents[i];
      }
    }

    /** Darray_filter: f says where the elements of the result come from. */
    method Filter(cb: T -> bool) returns (r: Darray<T>, ghost f: seq<nat>)
      requires Valid()
      ensures fresh(r) && fresh(r.contents) && r.Valid() && r.nil == nil
      ensures IsSelection(x => x != nil && cb(x), Elements(), f, r.Elements())
    {
      r := new Darray(nil, DARRAY_DEFAULT_SIZE);
      var keep := x => x != nil && cb(x);
      for i := 0 to end
        invariant r.Valid() && fresh(r) && fresh(r.contents) && r.nil == nil
        invariant r.Elements() == Filtered(keep, Elements()[..i])
      {
        var value := contents[i];
        assert Elements()[..i + 1][..i] == Elements()[..i];
        if value != nil && cb(value) {
          r.Push(value);
        }
      }
      assert Elements()[..end] == Elements();
      f := FilteredIsSelection(keep, Elements());
    }
  }

  // ---- Whole histories ----

  datatype Op<T> = Push(x: T) | Pop | Set(i: nat, x: T)

  /** What a history of operations does to a plain sequence, and what its pops return. */
  function Replayed<T>(nil: T, s: seq<T>, ops: seq<Op<T>>): (seq<T>, seq<T>)
  {
    if ops == [] then (s, [])
    else
      var (r, out) := Replayed(nil, s, ops[..|ops| - 1]);
      match ops[|ops| - 1]
      case Push(x) => (r + [x], out)
      case Pop => if r == [] then (r, out + [nil]) else (r[..|r| - 1], out + [r[|r| - 1]])
      case Set(i, x) => (if i < |r| then r[i := x] else r, out)
  }

  /** Any history of pushes, pops and in-range sets behaves as on a plain sequence, with one
      free slot throughout. */
  method Replay<T(0,==)>(a: Darray<T>, ops: seq<Op<T>>) returns (out: seq<T>)
    requires a.Valid() && forall k | 0 <= k < |ops| :: ops[k].Push? ==> ops[k].x != a.nil
    modifies a, a.contents
    ensures a.Valid() && (a.contents == old(a.contents) || fresh(a.contents))
    ensures (a.Elements(), out) == Replayed(a.nil, old(a.Elements()), ops)
  {
    out := [];
    for k := 0 to |ops|
      invariant a.Valid() && (a.contents == old(a.contents) || fresh(a.contents))
      invariant (a.Elements(), out) == Replayed(a.nil, old(a.Elements()), ops[..k])
    {
      assert ops[..k + 1][..k] == ops[..k];
      ghost var before := a.Elements();
      match ops[k]
      case Push(x) => a.Push(x);
      case Pop =>
        var x := a.Pop();
        assert before != [] ==> before[..|before| - 1] == a.Elements() && before[|before| - 1] == x;
        out := out + [x];
      case Set(i, x) => if i < a.end { a.Set(i, x); }
    }
    assert ops[..|ops|] == ops;
  }

  // ---- The reach of Darray_set ----

  /** The live elements after a set at i, in terms of all slots before it. */
  function ElementsAfterSet<T>(slots: seq<T>, end: nat, i: nat, el: T): seq<T>
    requires end <= |slots| && i < |slots|
  {
    slots[i := el][..if i > end then i else end]
  }

  /** Storing at index i makes el an element at i exactly if i was in range: at `end` the
      element is not counted, and beyond `end` everything up to it is, but not it. */
  lemma SetStoresIffInRange<T>(slots: seq<T>, end: nat, i: nat, el: T)
    requires end <= |slots| && i < |slots|
    ensures var s := ElementsAfterSet(slots, end, i, el); (i < |s| && s[i] == el) <==> i < end
    ensures i < end ==> ElementsAfterSet(slots, end, i, el) == slots[..end][i := el]
    ensures end <= i ==> ElementsAfterSet(slots, end, i, el) == slots[..i]
  {
  }
}
