/** The doubly linked list of lib/ds/list.c. */
module LinkedLists {
  import opened DynamicArray

  const LIST_DARRAY_INITIAL_MAX: nat := 300

  class ListNode<T> {
    var next: ListNode?<T>
    var prev: ListNode?<T>
    var value: T

    constructor (value: T)
      ensures this.next == null && this.prev == null && this.value == value
    {
      this.next, this.prev, this.value := null, null, value;
    }
  }

  /** The nodes of ns, in this order, form a doubly linked chain with null at both ends. */
  ghost predicate Chain<T>(ns: seq<ListNode<T>>)
    reads ns
  {
    && (forall i, j | 0 <= i < j < |ns| :: ns[i] != ns[j])
    && (forall i {:trigger ns[i].next} | 0 <= i < |ns| :: ns[i].next == if i + 1 < |ns| then ns[i + 1] else null)
    && (forall i {:trigger ns[i].prev} | 0 <= i < |ns| :: ns[i].prev == if i > 0 then ns[i - 1] else null)
  }

  lemma CutFirst<T>(s: seq<T>)
    requires s != []
    ensures s[..0] + s[1..] == s[1..] && s == [s[0]] + s[1..]
  {
  }

  lemma CutLast<T>(s: seq<T>)
    requires s != []
    ensures var n := |s| - 1; s[..n] + s[n + 1..] == s[..n] && s == s[..n] + [s[n]]
  {
  }

  /** `nil` is the null pointer that a pop of an empty list returns. */
  class List<T(0,==)> {
    const nil: T
    var count: nat
    var first: ListNode?<T>
    var last: ListNode?<T>
    ghost var nodes: seq<ListNode<T>>
    ghost var values: seq<T>

    ghost predicate Valid()
      reads this, nodes
    {
      && Chain(nodes)
      && count == |nodes| == |values|
      && (forall i {:trigger nodes[i].value} | 0 <= i < |nodes| :: nodes[i].value == values[i])
      && first == (if nodes == [] then null else nodes[0])
      && last == (if nodes == [] then null else nodes[|nodes| - 1])
    }

    constructor (nil: T)
      ensures Valid() && nodes == [] && values == [] && this.nil == nil
    {
      this.nil := nil;
      count, first, last, nodes, values := 0, null, null, [], [];
    }

    /** Node k is bypassed, and nothing else about the chain has changed. */
    ghost predicate Bypassed(k: nat)
      reads this, nodes
    {
      && k < |nodes| == |values| && count == |nodes| - 1
      && (forall i, j | 0 <= i < j < |nodes| :: nodes[i] != nodes[j])
      && (forall i {:trigger nodes[i].next} | 0 <= i < |nodes| && i != k ::
            var j := if i + 1 == k then k + 1 else i + 1;
            nodes[i].next == if j < |nodes| then nodes[j] else null)
      && (forall i {:trigger nodes[i].prev} | 0 <= i < |nodes| && i != k ::
            var j := if i == k + 1 then k - 1 else i - 1;
            nodes[i].prev == if j >= 0 then nodes[j] else null)
      && (forall i {:trigger nodes[i].value} | 0 <= i < |nodes| :: nodes[i].value == values[i])
      && (first == if k > 0 then nodes[0] else if k + 1 < |nodes| then nodes[k + 1] else null)
      && (last == if k + 1 < |nodes| then nodes[|nodes| - 1] else if k > 0 then nodes[k - 1] else null)
    }

    /** The four cases of List_remove. */
    method Unlink(node: ListNode<T>, ghost k: nat)
      requires Valid() && k < |nodes| && nodes[k] == node
      modifies this, nodes
      ensures nodes == old(nodes) && values == old(values) && Bypassed(k)
    {
      if node == first && node == last {
        first, last := null, null;
      } else if node == first {
        first := node.next;
        first.prev := null;
      } else if node == last {
        last := node.prev;
        last.next := null;
      } else {
        var next, prev := node.next, node.prev;
        next.prev := prev;
        prev.next := next;
      }
      count := count - 1;
    }

    /** Without the node that is bypassed, the others form a chain. */
    lemma ChainWithout(k: nat, ms: seq<ListNode<T>>)
      requires Bypassed(k) && ms == nodes[..k] + nodes[k + 1..]
      ensures Chain(ms)
    {
      assert forall i | 0 <= i < |ms| :: ms[i] == nodes[if i < k then i else i + 1];
    }

    lemma EndsWithout(k: nat, ms: seq<ListNode<T>>, vs: seq<T>)
      requires Bypassed(k) && ms == nodes[..k] + nodes[k + 1..] && vs == values[..k] + values[k + 1..]
      ensures count == |ms| == |vs| && forall i {:trigger ms[i].value} | 0 <= i < |ms| :: ms[i].value == vs[i]
      ensures first == (if ms == [] then null else ms[0]) && last == (if ms == [] then null else ms[|ms| - 1])
    {
      forall i {:trigger ms[i].value} | 0 <= i < |ms| ensures ms[i].value == vs[i] {
        var j := if i < k then i else i + 1;
        assert ms[i] == nodes[j] && vs[i] == values[j] && nodes[j].value == values[j];
      }
    }

    /** List_remove, for any node of the list; k is its position. */
    method RemoveNode(node: ListNode<T>, ghost k: nat) returns (result: T)
      requires Valid() && k < |nodes| && nodes[k] == node
      modifies this, nodes
      ensures Valid() && nodes == old(nodes)[..k] + old(nodes)[k + 1..]
      ensures result == old(values)[k] && values == old(values)[..k] + old(values)[k + 1..]
    {
      Unlink(node, k);
      result := node.value;
      ghost var ms, vs := nodes[..k] + nodes[k + 1..], values[..k] + values[k + 1..];
      ChainWithout(k, ms);
      EndsWithout(k, ms, vs);
      nodes, values := ms, vs;
    }

    method Push(value: T)
      requires Valid()
      modifies this, nodes
      ensures Valid() && values == old(values) + [value]
      ensures |nodes| == |old(nodes)| + 1 && nodes[..|nodes| - 1] == old(nodes) && fresh(nodes[|nodes| - 1])
    {
      var node := new ListNode(value);
      if last == null {
        first, last := node, node;
      } else {
        last.next := node;
        node.prev := last;
        last := node;
      }
      count := count + 1;
      nodes, values := nodes + [node], values + [value];
    }

    method Pop() returns (value: T)
      requires Valid()
      modifies this, nodes
      ensures Valid()
      ensures old(nodes) == [] ==> value == nil && nodes == []
      ensures old(nodes) != [] ==>
        nodes == old(nodes)[..|old(nodes)| - 1] && old(values) == values + [value]
    {
      if last != null {
        CutLast(nodes);
        CutLast(values);
        value := RemoveNode(last, |nodes| - 1);
      } else {
        value := nil;
      }
    }

    method PopLeft() returns (value: T)
      requires Valid()
      modifies this, nodes
      ensures Valid()
      ensures old(nodes) == [] ==> value == nil && nodes == []
      ensures old(nodes) != [] ==> nodes == old(nodes)[1..] && old(values) == [value] + values
    {
      if first != null {
        CutFirst(nodes);
        CutFirst(values);
        value := RemoveNode(first, 0);
      } else {
        value := nil;
      }
    }

    /** The chain is cut before node `index`; the fields of r already describe the second part. */
    ghost predicate CutAt(r: List<T>, index: nat)
      reads this, r, nodes
    {
      && 0 < index < |nodes| == |values|
      && (forall i, j | 0 <= i < j < |nodes| :: nodes[i] != nodes[j])
      && (forall i {:trigger nodes[i].next} | 0 <= i < |nodes| ::
            nodes[i].next == if i + 1 < |nodes| && i + 1 != index then nodes[i + 1] else null)
      && (forall i {:trigger nodes[i].prev} | 0 <= i < |nodes| ::
            nodes[i].prev == if i > 0 && i != index then nodes[i - 1] else null)
      && (forall i {:trigger nodes[i].value} | 0 <= i < |nodes| :: nodes[i].value == values[i])
      && first == nodes[0] && last == nodes[index - 1] && count == index
      && r.first == nodes[index] && r.last == nodes[|nodes| - 1] && r.count == |nodes| - index
    }

    /** The branch of List_split for index 1. */
    method CutAfterFirst(r: List<T>)
      requires Valid() && r.Valid() && r.nodes == [] && r != this && 1 < |nodes|
      modifies this, r, nodes
      ensures nodes == old(nodes) && values == old(values) && CutAt(r, 1)
    {
      r.first := first.next;
      r.first.prev := null;
      r.last := last;
      r.count := count - 1;
      first.next := null;
      last := first;
      count := 1;
    }

    /** The branch of List_split for the last node. */
    method CutBeforeLast(r: List<T>)
      requires Valid() && r.Valid() && r.nodes == [] && r != this && 2 < |nodes|
      modifies this, r, nodes
      ensures nodes == old(nodes) && values == old(values) && CutAt(r, old(count) - 1)
    {
      r.first := last;
      r.last := last;
      var index := count - 1;
      last := last.prev;
      r.last.next := null;
      r.last.prev := null;
      r.count := 1;
      last.next := null;
      count := index;
    }

    /** The branch of List_split that looks for the splitting point. */
    method CutInside(r: List<T>, index: nat)
      requires Valid() && r.Valid() && r.nodes == [] && r != this && 1 < index < |nodes|
      modifies this, r, nodes
      ensures nodes == old(nodes) && values == old(values) && CutAt(r, index)
    {
      var node := first.next;
      for i := 1 to index
        invariant node == nodes[i]
      {
        node := node.next;
      }
      r.count := count - index;
      r.first := node;
      r.last := last;
      count := index;
      last := r.first.prev;
      last.next := null;
      r.first.prev := null;
    }

    /** The node sequences after a cut. */
    ghost method HandOver(r: List<T>, index: nat)
      requires CutAt(r, index) && r != this
      modifies this`nodes, this`values, r`nodes, r`values
      ensures Valid() && r.Valid()
      ensures nodes == old(nodes)[..index] && r.nodes == old(nodes)[index..]
      ensures values == old(values)[..index] && r.values == old(values)[index..]
    {
      r.nodes, nodes := nodes[index..], nodes[..index];
      r.values, values := values[index..], values[..index];
    }

    /** List_split: null exactly if one side would be empty; otherwise the same nodes, relinked
        into two disjoint lists. */
    method Split(index: nat) returns (r: List?<T>)
      requires Valid()
      modifies this, nodes
      ensures Valid()
      ensures r == null <==> !(0 < index < |old(nodes)|)
      ensures r == null ==> nodes == old(nodes) && values == old(values)
      ensures r != null ==>
        && fresh(r) && r.Valid() && r.nil == nil
        && nodes == old(nodes)[..index] && r.nodes == old(nodes)[index..]
        && values == old(values)[..index] && r.values == old(values)[index..]
    {
      if index == 0 || index >= count {
        return null;
      }
      r := new List(nil);
      if index == 1 {
        CutAfterFirst(r);
      } else if index == count - 1 {
        CutBeforeLast(r);
      } else {
        CutInside(r, index);
      }
      HandOver(r, index);
    }

    /** List_join: a list joined with itself stays as it is; the nodes of two non-empty lists
        are relinked, and `right` is given up. */
    method Join(right: List<T>)
      requires Valid() && right.Valid()
      requires this != right ==> nodes != [] && right.nodes != []
      requires this != right ==>
        forall i, j | 0 <= i < |nodes| && 0 <= j < |right.nodes| :: nodes[i] != right.nodes[j]
      modifies this, nodes, right.nodes
      ensures Valid()
      ensures this == right ==> nodes == old(nodes) && values == old(values)
      ensures this != right ==> nodes == old(nodes) + old(right.nodes) && values == old(values) + old(right.values)
    {
      if this == right {
        return;
      }
      right.first.prev := last;
      last.next := right.first;
      last := right.last;
      count := count + right.count;
      nodes, values := nodes + right.nodes, values + right.values;
    }

    method ToDarray() returns (a: Darray<T>)
      requires Valid() && nil !in values
      ensures fresh(a) && fresh(a.contents) && a.Valid() && a.nil == nil
      ensures a.Elements() == values
    {
      a := new Darray(nil, LIST_DARRAY_INITIAL_MAX);
      var node := first;
      ghost var i := 0;
      while node != null
        invariant i <= |nodes| && node == (if i < |nodes| then nodes[i] else null)
        invariant a.Valid() && fresh(a) && fresh(a.contents) && a.nil == nil
        invariant a.Elements() == values[..i]
        decreases |nodes| - i
      {
        assert values[i] in values;
        a.Push(node.value);
        node := node.next;
        i := i + 1;
      }
    }
  }

  /** Splitting a list anywhere inside and joining the halves restores it, node for node. */
  method SplitThenJoin<T(0,==)>(list: List<T>, index: nat)
    requires list.Valid() && 0 < index < |list.nodes|
    modifies list, list.nodes
    ensures list.Valid() && list.nodes == old(list.nodes) && list.values == old(list.values)
  {
    ghost var ns, vs := list.nodes, list.values;
    var right := list.Split(index);
    assert forall i, j | 0 <= i < index && index <= j < |ns| :: ns[i] != ns[j];
    list.Join(right);
    assert ns[..index] + ns[index..] == ns;
    assert vs[..index] + vs[index..] == vs;
  }

  // ---- The shape of a chain ----

  /** Following `next` k times. */
  ghost function Hop<T>(ns: seq<ListNode<T>>, n: ListNode?<T>, k: nat): ListNode?<T>
    reads ns
  {
    if k == 0 || n == null || n !in ns then n else Hop(ns, n.next, k - 1)
  }

  /** A chain is acyclic and complete: from the first node, k hops reach node k, and |ns| hops
      run off the end. */
  lemma {:induction false} ChainReaches<T>(ns: seq<ListNode<T>>, i: nat, k: nat)
    requires Chain(ns) && i + k <= |ns| && i < |ns|
    ensures Hop(ns, ns[i], k) == if i + k < |ns| then ns[i + k] else null
    decreases k
  {
    if k > 0 && i + 1 < |ns| {
      ChainReaches(ns, i + 1, k - 1);
    }
  }

  /** Two chains over the same first node and the same nodes are the same sequence. */
  lemma {:induction false} ChainIsUnique<T>(ms: seq<ListNode<T>>, ns: seq<ListNode<T>>, k: nat)
    requires Chain(ms) && Chain(ns) && ms != [] && ns != [] && ms[0] == ns[0]
    requires k <= |ms|
    ensures ms[..k] <= ns
  {
    if k > 0 {
      ChainIsUnique(ms, ns, k - 1);
      if k > 1 {
        assert ms[..k - 1][k - 2] == ns[k - 2];
        assert ms[k - 2].next == ms[k - 1];
      }
    }
  }
}
