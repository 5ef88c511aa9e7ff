/** The pointers of a tree as a value: what the three pointer fields of each node hold. */
module TreeLinks {
  import opened TreeShape

  datatype Ptrs<V> = Ptrs(left: Node?<V>, right: Node?<V>, parent: Node?<V>)

  type Links<V> = map<Node<V>, Ptrs<V>>

  /** The pointers of the nodes of s, whose root is n, spell out s below parent p. */
  ghost predicate Linked<V>(ls: Links<V>, n: Node?<V>, s: Shape<V>, p: Node?<V>)
  {
    match s
    case Leaf => n == null
    case Branch(l, m, r) =>
      && n == m && m in ls && ls[m].parent == p
      && Linked(ls, ls[m].left, l, m) && Linked(ls, ls[m].right, r, m)
  }

  /** No node occurs twice. */
  ghost predicate Distinct<V>(s: Shape<V>)
  {
    match s
    case Leaf => true
    case Branch(l, m, r) =>
      && Distinct(l) && Distinct(r) && m !in InOrder(l) && m !in InOrder(r)
      && forall i | 0 <= i < |InOrder(l)| :: InOrder(l)[i] !in InOrder(r)
  }

  function RootOf<V>(s: Shape<V>): Node?<V> { if s.Leaf? then null else s.node }

  lemma LinkedRoot<V>(ls: Links<V>, n: Node?<V>, s: Shape<V>, p: Node?<V>)
    requires Linked(ls, n, s, p)
    ensures n == RootOf(s)
    ensures n != null ==> n in InOrder(s) && n in ls && ls[n].parent == p
  {
  }

  lemma Members<V>(s: Shape<V>, x: Node<V>)
    requires s.Branch?
    ensures x in InOrder(s) <==> x in InOrder(s.left) || x == s.node || x in InOrder(s.right)
    ensures Distinct(s) && x in InOrder(s.left) ==> x !in InOrder(s.right) && x != s.node
    ensures Distinct(s) && x in InOrder(s.right) ==> x !in InOrder(s.left) && x != s.node
  {
    if x in InOrder(s.left) {
      var i :| 0 <= i < |InOrder(s.left)| && InOrder(s.left)[i] == x;
    }
  }

  /** Pointers of other nodes do not matter. */
  lemma {:induction false} Unaffected<V>(ls: Links<V>, ms: Links<V>, n: Node?<V>, s: Shape<V>, p: Node?<V>)
    requires Linked(ls, n, s, p)
    requires forall m | m in InOrder(s) :: m in ls && m in ms && ms[m] == ls[m]
    ensures Linked(ms, n, s, p)
  {
    match s
    case Leaf =>
    case Branch(l, m, r) =>
      assert m in InOrder(s);
      forall x | x in InOrder(l) || x in InOrder(r) ensures x in InOrder(s) {}
      Unaffected(ls, ms, ls[m].left, l, m);
      Unaffected(ls, ms, ls[m].right, r, m);
  }

  // ---- Insertion ----

  /** The three writes of add_child. */
  function WithChild<V>(ls: Links<V>, last: Node<V>, x: Node<V>): Links<V>
    requires last in ls
  {
    ls[last := if Strcmp(x.key, last.key) < 0 then ls[last].(left := x) else ls[last].(right := x)]
      [x := Ptrs(null, null, last)]
  }

  lemma {:induction false} LinkInserted<V>(ls: Links<V>, n: Node?<V>, s: Shape<V>, p: Node?<V>, x: Node<V>)
    requires s.Branch? && Linked(ls, n, s, p) && Distinct(s) && x !in InOrder(s)
    requires forall m | m in InOrder(s) :: m in ls
    ensures Linked(WithChild(ls, Last(s, x.key), x), n, Inserted(s, x), p)
  {
    var Branch(l, m, r) := s;
    var last := Last(s, x.key);
    var ms := WithChild(ls, last, x);
    assert m in InOrder(s);
    Members(s, last);
    Members(s, x);
    forall y | y in InOrder(l) || y in InOrder(r) ensures y in InOrder(s) {}
    if Strcmp(x.key, m.key) < 0 {
      Unaffected(ls, ms, ls[m].right, r, m);
      if l.Branch? {
        LinkInserted(ls, ls[m].left, l, m, x);
      }
    } else {
      Unaffected(ls, ms, ls[m].left, l, m);
      if r.Branch? {
        LinkInserted(ls, ls[m].right, r, m, x);
      }
    }
  }

  lemma {:induction false} InsertedMember<V>(s: Shape<V>, x: Node<V>, y: Node<V>)
    ensures y in InOrder(Inserted(s, x)) <==> y in InOrder(s) || y == x
  {
    match s
    case Leaf =>
    case Branch(l, m, r) =>
      Members(s, y);
      Members(Inserted(s, x), y);
      if Strcmp(x.key, m.key) < 0 { InsertedMember(l, x, y); } else { InsertedMember(r, x, y); }
  }

  lemma {:induction false} InsertKeepsDistinct<V>(s: Shape<V>, x: Node<V>)
    requires Distinct(s) && x !in InOrder(s)
    ensures Distinct(Inserted(s, x))
  {
    match s
    case Leaf =>
    case Branch(l, m, r) =>
      Members(s, x);
      if Strcmp(x.key, m.key) < 0 {
        InsertKeepsDistinct(l, x);
        InsertedMember(l, x, m);
        var a := InOrder(Inserted(l, x));
        forall i | 0 <= i < |a| ensures a[i] !in InOrder(r) {
          InsertedMember(l, x, a[i]);
          Members(s, a[i]);
        }
      } else {
        InsertKeepsDistinct(r, x);
        InsertedMember(r, x, m);
        var a := InOrder(l);
        forall i | 0 <= i < |a| ensures a[i] !in InOrder(Inserted(r, x)) {
          InsertedMember(r, x, a[i]);
          Members(s, a[i]);
        }
      }
  }

  // ---- Removal ----

  /** What the pointers around a node say of each other. */
  lemma {:induction false} LinkFacts<V>(ls: Links<V>, n: Node?<V>, s: Shape<V>, p: Node?<V>, m: Node<V>)
    requires Linked(ls, n, s, p) && Distinct(s) && m in InOrder(s)
    ensures m in ls
    ensures var q := ls[m];
      q.left != null ==> q.left in InOrder(s) && q.left in ls && ls[q.left].parent == m && q.left != q.right
    ensures var q := ls[m]; q.right != null ==> q.right in InOrder(s) && q.right in ls && ls[q.right].parent == m
    ensures m == n || (ls[m].parent != null && ls[m].parent in InOrder(s) && ls[m].parent in ls
                       && (ls[ls[m].parent].left == m || ls[ls[m].parent].right == m))
    ensures m == n ==> ls[m].parent == p
  {
    var Branch(l, k, r) := s;
    Members(s, m);
    LinkedRoot(ls, ls[k].left, l, k);
    LinkedRoot(ls, ls[k].right, r, k);
    forall y | y in InOrder(l) || y in InOrder(r) ensures y in InOrder(s) {}
    if m in InOrder(l) {
      LinkFacts(ls, ls[k].left, l, k, m);
    } else if m in InOrder(r) {
      LinkFacts(ls, ls[k].right, r, k, m);
    } else if ls[k].left != null {
      Members(s, ls[k].left);
    }
  }

  /** The writes of splice(), and of the branch of delete_node for two children, to the nodes
      that stay: c takes the place of x below the parent of x. */
  function Replaced<V>(ls: Links<V>, isRoot: bool, x: Node<V>, c: Node?<V>): (ms: Links<V>)
    requires x in ls && (!isRoot ==> ls[x].parent != null && ls[x].parent in ls)
    requires c != null ==> c in ls
  {
    var p := ls[x].parent;
    var above := if isRoot then ls
                 else if ls[p].left == x then ls[p := ls[p].(left := c)]
                 else ls[p := ls[p].(right := c)];
    if c == null then above else above[c := above[c].(parent := p)]
  }

  /** After c has taken the place of x, node m has lost x as a child or as its parent. */
  ghost predicate Bypassed<V>(ls: Links<V>, ms: Links<V>, x: Node<V>, c: Node?<V>, m: Node<V>)
    requires x in ls
  {
    && m in ls && m in ms
    && ms[m].left == (if ls[m].left == x then c else ls[m].left)
    && ms[m].right == (if ls[m].right == x then c else ls[m].right)
    && ms[m].parent == (if m == c then ls[x].parent else ls[m].parent)
  }

  /** Everything below the node that is found is in the tree, once. */
  lemma {:induction false} FoundIsPart<V>(s: Shape<V>, key: string)
    requires Found(s, key).Branch?
    ensures forall y | y in InOrder(Found(s, key)) :: y in InOrder(s)
    ensures Found(s, key).node in InOrder(s)
    ensures Distinct(s) ==> Distinct(Found(s, key))
  {
    if Strcmp(key, s.node.key) < 0 { FoundIsPart(s.left, key); }
    else if Strcmp(key, s.node.key) > 0 { FoundIsPart(s.right, key); }
    assert Found(s, key).node in InOrder(Found(s, key));
  }

  lemma {:induction false} SmallestIsPart<V>(s: Shape<V>)
    requires s.Branch?
    ensures forall y | y in InOrder(Smallest(s)) :: y in InOrder(s)
    ensures Distinct(s) ==> Distinct(Smallest(s))
  {
    if s.left.Branch? { SmallestIsPart(s.left); }
  }

  /** The heir is a part of the subtree without its root. */
  lemma HeirIsPart<V>(s: Shape<V>)
    requires s.Branch? && Distinct(s)
    ensures forall y | y in InOrder(Heir(s)) :: y in InOrder(s) && y != s.node
    ensures Distinct(Heir(s))
  {
    if !AtMostOneChild(s) { SmallestIsPart(s.right); }
    forall y | y in InOrder(Heir(s)) ensures y in InOrder(s) && y != s.node {
      Members(s, y);
    }
  }

  lemma {:induction false} SmallestLinked<V>(ls: Links<V>, n: Node?<V>, s: Shape<V>, p: Node?<V>) returns (q: Node?<V>)
    requires Linked(ls, n, s, p) && s.Branch?
    ensures Linked(ls, RootOf(Smallest(s)), Smallest(s), q)
  {
    if s.left.Leaf? {
      q := p;
    } else {
      q := SmallestLinked(ls, ls[s.node].left, s.left, s.node);
    }
  }

  /** The heir hangs below some node of the subtree. */
  lemma HeirLinked<V>(ls: Links<V>, n: Node?<V>, s: Shape<V>, p: Node?<V>) returns (q: Node?<V>)
    requires Linked(ls, n, s, p) && s.Branch?
    ensures Linked(ls, RootOf(Heir(s)), Heir(s), q)
  {
    LinkedRoot(ls, ls[s.node].left, s.left, s.node);
    LinkedRoot(ls, ls[s.node].right, s.right, s.node);
    if AtMostOneChild(s) {
      q := s.node;
    } else {
      q := SmallestLinked(ls, ls[s.node].right, s.right, s.node);
    }
  }

  /** A subtree with neither x nor c keeps all its pointers. */
  lemma FarSubtree<V>(ls: Links<V>, ms: Links<V>, n: Node?<V>, s: Shape<V>, p: Node?<V>, x: Node<V>, c: Node?<V>)
    requires Linked(ls, n, s, p) && Distinct(s) && x in ls && x !in InOrder(s)
    requires c != null ==> c !in InOrder(s)
    requires forall m | m in InOrder(s) :: Bypassed(ls, ms, x, c, m)
    ensures Linked(ms, n, s, p)
  {
    forall m | m in InOrder(s) ensures ms[m] == ls[m] {
      LinkFacts(ls, n, s, p, m);
    }
    Unaffected(ls, ms, n, s, p);
  }

  /** The subtree of c hangs below the parent of x. */
  lemma HeirMoves<V>(ls: Links<V>, ms: Links<V>, s: Shape<V>, q: Node?<V>, x: Node<V>, c: Node?<V>)
    requires Linked(ls, c, s, q) && Distinct(s) && x in ls && x !in InOrder(s)
    requires forall m | m in InOrder(s) :: Bypassed(ls, ms, x, c, m)
    ensures Linked(ms, c, s, ls[x].parent)
  {
    if s.Branch? {
      forall y | y in InOrder(s.left) || y in InOrder(s.right) ensures y in InOrder(s) {}
      assert s.node in InOrder(s);
      LinkFacts(ls, c, s, q, s.node);
      FarSubtree(ls, ms, ls[s.node].left, s.left, s.node, x, c);
      FarSubtree(ls, ms, ls[s.node].right, s.right, s.node, x, c);
    }
  }

  /** What takes the place of the node that is found, or null. */
  function HeirRoot<V>(s: Shape<V>, key: string): Node?<V>
    requires Found(s, key).Branch?
  {
    RootOf(Heir(Found(s, key)))
  }

  lemma HeirPlace<V>(ls: Links<V>, n: Node?<V>, s: Shape<V>, p: Node?<V>, key: string)
    requires Linked(ls, n, s, p) && Distinct(s) && Found(s, key).Branch?
    ensures Found(s, key).node in InOrder(s) && Found(s, key).node in ls
    ensures var c := HeirRoot(s, key); c != null ==> c in InOrder(s) && c != Found(s, key).node && c in ls
  {
    FoundIsPart(s, key);
    LinkFacts(ls, n, s, p, Found(s, key).node);
    HeirIsPart(Found(s, key));
    var c := HeirRoot(s, key);
    if c != null {
      assert c in InOrder(Heir(Found(s, key)));
      LinkFacts(ls, n, s, p, c);
    }
  }

  lemma HeirInPlace<V>(
    ls: Links<V>, ms: Links<V>, n: Node?<V>, s: Shape<V>, p: Node?<V>, x: Node<V>, c: Node?<V>)
    requires Linked(ls, n, s, p) && Distinct(s) && s.Branch? && x == s.node && c == RootOf(Heir(s))
    requires forall m | m in InOrder(s) && m != x :: Bypassed(ls, ms, x, c, m)
    ensures Linked(ms, c, Heir(s), p)
  {
    HeirIsPart(s);
    var q := HeirLinked(ls, n, s, p);
    HeirMoves(ls, ms, Heir(s), q, x, c);
  }

  /** The two sides of a node, only one of which holds x and c. */
  lemma Sides<V>(s: Shape<V>, x: Node<V>, c: Node?<V>)
    requires s.Branch? && Distinct(s)
    ensures forall y | y in InOrder(s.left) || y in InOrder(s.right) || y == s.node :: y in InOrder(s)
    ensures x in InOrder(s.left) ==> x !in InOrder(s.right) && x != s.node
    ensures x in InOrder(s.right) ==> x !in InOrder(s.left) && x != s.node
    ensures c != null && c in InOrder(s.left) ==> c !in InOrder(s.right) && c != s.node
    ensures c != null && c in InOrder(s.right) ==> c !in InOrder(s.left) && c != s.node
  {
    Members(s, x);
    if c != null { Members(s, c); }
  }

  lemma {:induction false} LinkRemoved<V>(
    ls: Links<V>, ms: Links<V>, n: Node?<V>, s: Shape<V>, p: Node?<V>, key: string, x: Node<V>, c: Node?<V>)
    requires Linked(ls, n, s, p) && Distinct(s) && Found(s, key).Branch?
    requires x == Found(s, key).node && c == HeirRoot(s, key) && x in ls
    requires forall m | m in InOrder(s) && m != x :: Bypassed(ls, ms, x, c, m)
    ensures Linked(ms, if n == x then c else n, Removed(s, key), p)
  {
    var Branch(l, m, r) := s;
    Sides(s, x, c);
    LinkedRoot(ls, ls[m].left, l, m);
    LinkedRoot(ls, ls[m].right, r, m);
    if Strcmp(key, m.key) < 0 {
      HeirPlace(ls, ls[m].left, l, m, key);
      LinkRemoved(ls, ms, ls[m].left, l, m, key, x, c);
      FarSubtree(ls, ms, ls[m].right, r, m, x, c);
    } else if Strcmp(key, m.key) > 0 {
      HeirPlace(ls, ls[m].right, r, m, key);
      LinkRemoved(ls, ms, ls[m].right, r, m, key, x, c);
      FarSubtree(ls, ms, ls[m].left, l, m, x, c);
    } else {
      HeirInPlace(ls, ms, n, s, p, x, c);
    }
  }

  /** The writes have that effect on every node that stays. */
  lemma ReplacedBypasses<V>(ls: Links<V>, n: Node<V>, s: Shape<V>, x: Node<V>, c: Node?<V>, m: Node<V>)
    requires Linked(ls, n, s, null) && Distinct(s) && x in InOrder(s) && m in InOrder(s) && m != x
    requires x in ls && (n != x ==> ls[x].parent != null && ls[x].parent in ls)
    requires c != null ==> c in ls && c != x
    ensures Bypassed(ls, Replaced(ls, n == x, x, c), x, c, m)
  {
    LinkFacts(ls, n, s, null, x);
    LinkFacts(ls, n, s, null, m);
  }

  lemma {:induction false} RemoveKeepsDistinct<V>(s: Shape<V>, key: string)
    requires Distinct(s) && Found(s, key).Branch?
    ensures Distinct(Removed(s, key))
    ensures forall y | y in InOrder(Removed(s, key)) :: y in InOrder(s) && y != Found(s, key).node
  {
    var Branch(l, m, r) := s;
    FoundIsPart(s, key);
    Members(s, Found(s, key).node);
    if Strcmp(key, m.key) < 0 {
      FoundIsPart(l, key);
      RemoveKeepsDistinct(l, key);
      var a := InOrder(Removed(l, key));
      forall i | 0 <= i < |a| ensures a[i] !in InOrder(r) {
        assert a[i] in a;
        Members(s, a[i]);
      }
    } else if Strcmp(key, m.key) > 0 {
      FoundIsPart(r, key);
      RemoveKeepsDistinct(r, key);
    } else {
      HeirIsPart(s);
    }
  }

  /** What delete_node leaves, for any number of children: a tree with consistent pointers. */
  lemma DeleteLinks<V>(ls: Links<V>, n: Node<V>, s: Shape<V>, key: string)
    requires Linked(ls, n, s, null) && Distinct(s) && Ordered(s) && Found(s, key).Branch?
    ensures var (x, c) := (Found(s, key).node, HeirRoot(s, key));
      && x in InOrder(s) && x in ls
      && (n != x ==> ls[x].parent != null && ls[x].parent in InOrder(s) && ls[x].parent in ls)
      && (c != null ==> c in InOrder(s) && c in ls && c != x)
      && Linked(Replaced(ls, n == x, x, c), if n == x then c else n, Removed(s, key), null)
    ensures Distinct(Removed(s, key)) && Ordered(Removed(s, key))
    ensures forall y | y in InOrder(Removed(s, key)) :: y in InOrder(s) && y != Found(s, key).node
  {
    var x, c := Found(s, key).node, HeirRoot(s, key);
    HeirPlace(ls, n, s, null, key);
    LinkFacts(ls, n, s, null, x);
    var ms := Replaced(ls, n == x, x, c);
    forall m | m in InOrder(s) && m != x ensures Bypassed(ls, ms, x, c, m) {
      ReplacedBypasses(ls, n, s, x, c, m);
    }
    LinkRemoved(ls, ms, n, s, null, key, x, c);
    RemoveKeepsDistinct(s, key);
    RemoveKeepsOrdered(s, key);
  }
}
