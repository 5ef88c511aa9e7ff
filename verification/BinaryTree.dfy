/** The binary search tree with parent pointers of 30-2.c. */
module BinaryTrees {
  import opened Common
  import opened TreeShape
  import opened TreeLinks

  /** The pointer fields of the nodes of s hold what ls says. */
  ghost predicate Mirrors<V>(ls: Links<V>, s: Shape<V>)
    reads InOrder(s)
  {
    forall i | 0 <= i < |InOrder(s)| ::
      var m := InOrder(s)[i]; m in ls && ls[m] == Ptrs(m.left, m.right, m.parent)
  }

  lemma MirrorsFewer<V>(ls: Links<V>, s: Shape<V>, t: Shape<V>)
    requires Mirrors(ls, s) && forall m | m in InOrder(t) :: m in InOrder(s)
    ensures Mirrors(ls, t)
  {
    forall i | 0 <= i < |InOrder(t)|
      ensures var m := InOrder(t)[i]; m in ls && ls[m] == Ptrs(m.left, m.right, m.parent)
    {
      assert InOrder(t)[i] in InOrder(t);
      var j :| 0 <= j < |InOrder(s)| && InOrder(s)[j] == InOrder(t)[i];
    }
  }

  class Tree<V> {
    var root: Node?<V>
    ghost var shape: Shape<V>
    ghost var links: Links<V>

    /** `links` is what the pointer fields of the nodes hold, and spells out `shape`. */
    ghost predicate Valid()
      reads this, InOrder(shape)
    {
      && Mirrors(links, shape)
      && Linked(links, root, shape, null)
      && Distinct(shape)
      && Ordered(shape)
    }

    /** initialize_tree */
    constructor ()
      ensures Valid() && shape == Leaf
    {
      root, shape, links := null, Leaf, map[];
    }

    /** lookup: None stands for FALSE. */
    method LookupKey(key: string) returns (r: Option<V>)
      requires Valid()
      ensures r == match Lookup(shape, key) case None => None case Some(n) => Some(n.value)
      ensures r.Some? <==> exists n :: n in InOrder(shape) && n.key == key
    {
      LookupIffOccurs(shape, key);
      var node := root;
      ghost var sub := shape;
      ghost var above: Node?<V> := null;
      while node != null
        invariant Linked(links, node, sub, above) && Lookup(sub, key) == Lookup(shape, key)
        invariant forall m | m in InOrder(sub) :: m in InOrder(shape)
        decreases sub
      {
        assert node in InOrder(sub);
        var cmp := Strcmp(key, node.key);
        above := node;
        if cmp < 0 {
          node, sub := node.left, sub.left;
        } else if cmp > 0 {
          node, sub := node.right, sub.right;
        } else {
          return Some(node.value);
        }
      }
      return None;
    }

    /** find_last, on a tree that is not empty */
    method FindLast(key: string) returns (prev: Node<V>)
      requires Valid() && shape != Leaf
      ensures prev == Last(shape, key)
    {
      var node := root;
      prev := root;
      ghost var sub := shape;
      ghost var above: Node?<V> := null;
      while node != null
        invariant Linked(links, node, sub, above)
        invariant if sub.Leaf? then prev == Last(shape, key) else Last(sub, key) == Last(shape, key)
        invariant forall m | m in InOrder(sub) :: m in InOrder(shape)
        decreases sub
      {
        assert node in InOrder(sub);
        prev := node;
        above := node;
        var cmp := Strcmp(key, node.key);
        if cmp < 0 {
          node, sub := node.left, sub.left;
        } else {
          node, sub := node.right, sub.right;
        }
      }
    }

    /** The pointer writes of add_child below the last node of the search. */
    method LinkBelow(last: Node<V>, x: Node<V>)
      requires Valid() && shape != Leaf && last == Last(shape, x.key) && last.key != x.key
      requires x !in InOrder(shape) && x.left == null && x.right == null
      modifies this`shape, this`links, last, x
      ensures Valid() && shape == Inserted(old(shape), x)
    {
      ghost var s := shape;
      LinkInserted(links, root, s, null, x);
      InsertKeepsOrdered(s, x);
      InsertKeepsDistinct(s, x);
      if Strcmp(x.key, last.key) < 0 {
        last.left := x;
      } else if Strcmp(x.key, last.key) > 0 {
        last.right := x;
      }
      x.parent := last;
      links := WithChild(links, last, x);
      shape := Inserted(s, x);
      forall i | 0 <= i < |InOrder(shape)|
        ensures var m := InOrder(shape)[i]; m in links && links[m] == Ptrs(m.left, m.right, m.parent)
      {
        InsertedMember(s, x, InOrder(shape)[i]);
      }
    }

    /** add_child: null exactly if the key is refused, and then nothing has changed. */
    method AddChild(key: string, value: V) returns (r: Node?<V>)
      requires Valid()
      modifies this, InOrder(shape)
      ensures Valid()
      ensures r == null <==> Refused(old(shape), key)
      ensures r == null ==> shape == old(shape)
      ensures r != null ==> fresh(r) && r.key == key && r.value == value && shape == Inserted(old(shape), r)
    {
      var x := new Node(key, value);
      if root == null {
        root := x;
        shape := Branch(Leaf, x, Leaf);
        links := map[x := Ptrs(null, null, null)];
        return x;
      }
      var last := FindLast(key);
      if Strcmp(key, last.key) == 0 {
        return null;
      }
      LinkBelow(last, x);
      return x;
    }

    /** The pointer writes of splice. */
    method Bypass(node: Node<V>, orphan: Node?<V>)
      requires Mirrors(links, shape)
      requires node in InOrder(shape) && node in links
      requires node != root ==> node.parent != null && node.parent in InOrder(shape) && node.parent in links
      requires orphan != null ==> orphan in InOrder(shape) && orphan in links
      modifies this`root, InOrder(shape)
      ensures root == if node == old(root) then orphan else old(root)
      ensures Mirrors(Replaced(links, node == old(root), node, orphan), shape)
    {
      if node == root {
        root := orphan;
      } else if node.parent.left == node {
        node.parent.left := orphan;
      } else {
        node.parent.right := orphan;
      }
      if orphan != null {
        orphan.parent := node.parent;
      }
    }

    /** The tree and its pointers after a deletion. */
    ghost method Settle(ms: Links<V>, t: Shape<V>)
      requires Mirrors(ms, shape) && Linked(ms, root, t, null) && Distinct(t) && Ordered(t)
      requires forall y | y in InOrder(t) :: y in InOrder(shape)
      modifies this`shape, this`links
      ensures Valid() && shape == t
    {
      MirrorsFewer(ms, shape, t);
      links, shape := ms, t;
    }

    /** splice, for the node that delete_node has found; sub is its subtree. */
    method Splice(node: Node<V>, ghost key: string, ghost sub: Shape<V>)
      requires Valid() && sub == Found(shape, key) && AtMostOneChild(sub) && node == sub.node
      requires Linked(links, node, sub, node.parent)
      modifies this, InOrder(shape)
      ensures Valid() && shape == Removed(old(shape), key)
    {
      DeleteLinks(links, root, shape, key);
      assert forall i | 0 <= i < |InOrder(shape)| :: InOrder(shape)[i] in InOrder(shape);
      LinkedRoot(links, links[node].left, sub.left, node);
      LinkedRoot(links, links[node].right, sub.right, node);
      var orphan := if node.left != null then node.left else node.right;
      ghost var ms := Replaced(links, node == root, node, orphan);
      Bypass(node, orphan);
      Settle(ms, Removed(shape, key));
    }

    /** The search of delete_node for the smallest entry of a subtree. */
    method FindSmallest(top: Node<V>, ghost sub: Shape<V>, ghost above: Node?<V>) returns (smallest: Node<V>)
      requires Valid() && Linked(links, top, sub, above) && forall m | m in InOrder(sub) :: m in InOrder(shape)
      ensures sub.Branch? && smallest == Smallest(sub).node == InOrder(sub)[0]
    {
      LinkedRoot(links, top, sub, above);
      SmallestIsFirst(sub);
      smallest := top;
      ghost var s, p := sub, above;
      while smallest.left != null
        invariant Linked(links, smallest, s, p) && s.Branch? && Smallest(s) == Smallest(sub)
        invariant forall m | m in InOrder(s) :: m in InOrder(shape)
        decreases s
      {
        assert smallest in InOrder(s);
        p := smallest;
        smallest, s := smallest.left, s.left;
      }
      assert smallest in InOrder(s);
    }

    /** The pointer writes of delete_node for a node with two children. */
    method Promote(node: Node<V>, smallest: Node<V>)
      requires Mirrors(links, shape) && node != root
      requires node in InOrder(shape) && node in links
      requires node.parent != null && node.parent in InOrder(shape) && node.parent in links
      requires smallest in InOrder(shape) && smallest in links
      modifies InOrder(shape)
      ensures Mirrors(Replaced(links, false, node, smallest), shape)
    {
      if node.parent.left == node {
        node.parent.left := smallest;
      } else {
        node.parent.right := smallest;
      }
      smallest.parent := node.parent;
    }

    /** That branch of delete_node. */
    method DropInner(node: Node<V>, ghost key: string, ghost sub: Shape<V>)
      requires Valid() && sub == Found(shape, key) && sub.Branch? && !AtMostOneChild(sub) && node == sub.node
      requires Linked(links, node, sub, node.parent) && node != root
      modifies this`shape, this`links, InOrder(shape)
      ensures Valid() && shape == Removed(old(shape), key)
    {
      DeleteLinks(links, root, shape, key);
      FoundIsPart(shape, key);
      Members(sub, node);
      assert forall i | 0 <= i < |InOrder(shape)| :: InOrder(shape)[i] in InOrder(shape);
      var smallest := FindSmallest(node.right, sub.right, node);
      ghost var ms := Replaced(links, false, node, smallest);
      Promote(node, smallest);
      Settle(ms, Removed(shape, key));
    }

    /** delete_node: -1 if there is no entry with the key.  Otherwise the entry that a lookup
        finds is gone, and nothing else is gone exactly if it had at most one child. */
    method DeleteNode(key: string) returns (rc: int)
      requires Valid()
      requires shape.Branch? && shape.node.key == key ==> AtMostOneChild(shape)
      modifies this, InOrder(shape)
      ensures Valid() && shape == Removed(old(shape), key)
      ensures rc == (if Lookup(old(shape), key) == None then -1 else 0)
      ensures rc == -1 ==> shape == old(shape)
      ensures rc == 0 ==>
        && Found(old(shape), key).Branch?
        && (InOrder(shape) == Without(InOrder(old(shape)), FoundAt(old(shape), key))
            <==> AtMostOneChild(Found(old(shape), key)))
      ensures rc == 0 && !AtMostOneChild(Found(old(shape), key)) ==>
        var (before, behind) := Around(old(shape), key);
        InOrder(shape) == before + InOrder(Smallest(Found(old(shape), key).right)) + behind
    {
      FoundIsLookup(shape, key);
      if root == null {
        return -1;
      }
      var node := root;
      ghost var sub := shape;
      ghost var above: Node?<V> := null;
      while node != null
        invariant Linked(links, node, sub, above) && Found(sub, key) == Found(shape, key)
        invariant forall m | m in InOrder(sub) :: m in InOrder(shape)
        decreases sub
      {
        assert node in InOrder(sub);
        var cmp := Strcmp(key, node.key);
        if cmp < 0 {
          above, node, sub := node, node.left, sub.left;
        } else if cmp > 0 {
          above, node, sub := node, node.right, sub.right;
        } else {
          break;
        }
      }
      if node == null {
        RemovedAbsent(shape, key);
        return -1;
      }
      DeleteRemovesOneIff(shape, key);
      RemovedInside(shape, key, Around(shape, key).0, Around(shape, key).1);
      LinkedRoot(links, links[node].left, sub.left, node);
      LinkedRoot(links, links[node].right, sub.right, node);
      if node.left == null || node.right == null {
        Splice(node, key, sub);
      } else {
        DropInner(node, key, sub);
      }
      return 0;
    }
  }

  lemma {:induction false} FoundIsLookup<V>(s: Shape<V>, key: string)
    ensures Lookup(s, key) == if Found(s, key).Leaf? then None else Some(Found(s, key).node)
  {
    match s
    case Leaf =>
    case Branch(l, _, r) =>
      FoundIsLookup(l, key);
      FoundIsLookup(r, key);
  }

  lemma {:induction false} RemovedAbsent<V>(s: Shape<V>, key: string)
    requires Found(s, key).Leaf?
    ensures Removed(s, key) == s
  {
    match s
    case Leaf =>
    case Branch(l, n, r) => if Strcmp(key, n.key) < 0 { RemovedAbsent(l, key); } else { RemovedAbsent(r, key); }
  }
}
