/** The search paths and updates of 30-2.c on the shape of its binary tree. */
module TreeShape {
  import opened Common

  /** strcmp(), of which the program uses only the sign. */
  function Strcmp(a: string, b: string): (r: int)
    ensures r == 0 <==> a == b
  {
    if a == [] && b == [] then 0
    else if a == [] then -1
    else if b == [] then 1
    else if a[0] != b[0] then a[0] as int - b[0] as int
    else
      assert a == [a[0]] + a[1..] && b == [b[0]] + b[1..];
      Strcmp(a[1..], b[1..])
  }

  /** a and b agree up to k, where a has the smaller char. */
  predicate DiffersAt(a: string, b: string, k: nat)
  {
    k < |a| && k < |b| && a[..k] == b[..k] && a[k] < b[k]
  }

  /** Lexicographic order: a is a proper prefix of b, or smaller where they first differ. */
  lemma {:induction false} StrcmpIsLexicographic(a: string, b: string)
    ensures Strcmp(a, b) < 0 <==> a < b || exists k: nat :: DiffersAt(a, b, k)
  {
    if a == [] || b == [] || a[0] != b[0] {
      if k: nat :| DiffersAt(a, b, k) {
        FirstChars(a, b, k);
      }
      if a != [] && b != [] && a[0] < b[0] {
        assert DiffersAt(a, b, 0);
      }
    } else {
      StrcmpIsLexicographic(a[1..], b[1..]);
      PrefixFromSecond(a, b);
      if k: nat :| DiffersAt(a, b, k) {
        FirstChars(a, b, k);
        DiffersFromSecond(a, b, k - 1);
      }
      if k: nat :| DiffersAt(a[1..], b[1..], k) {
        DiffersFromSecond(a, b, k);
      }
    }
  }

  lemma FirstChars(a: string, b: string, k: nat)
    requires DiffersAt(a, b, k)
    ensures if k == 0 then a[0] < b[0] else a[0] == b[0]
  {
    if k > 0 {
      assert a[..k][0] == b[..k][0];
    }
  }

  lemma PrefixFromSecond(a: string, b: string)
    requires a != [] && b != [] && a[0] == b[0]
    ensures a < b <==> a[1..] < b[1..]
  {
    assert a == [a[0]] + a[1..] && b == [b[0]] + b[1..];
  }

  lemma DiffersFromSecond(a: string, b: string, k: nat)
    requires a != [] && b != [] && a[0] == b[0]
    ensures DiffersAt(a, b, k + 1) <==> DiffersAt(a[1..], b[1..], k)
  {
    if k + 1 < |a| && k + 1 < |b| {
      assert a[..k + 1] == [a[0]] + a[1..][..k];
      assert b[..k + 1] == [b[0]] + b[1..][..k];
      assert a[1..][..k] == a[..k + 1][1..] && b[1..][..k] == b[..k + 1][1..];
    }
  }

  lemma {:induction false} StrcmpAntisymmetric(a: string, b: string)
    ensures Strcmp(a, b) < 0 <==> Strcmp(b, a) > 0
  {
    if a != [] && b != [] && a[0] == b[0] {
      StrcmpAntisymmetric(a[1..], b[1..]);
    }
  }

  lemma {:induction false} StrcmpTransitive(a: string, b: string, c: string)
    requires Strcmp(a, b) <= 0 && Strcmp(b, c) <= 0
    ensures Strcmp(a, c) <= 0
    ensures Strcmp(a, b) < 0 || Strcmp(b, c) < 0 ==> Strcmp(a, c) < 0
  {
    if a != [] && b != [] && c != [] && a[0] == b[0] == c[0] {
      StrcmpTransitive(a[1..], b[1..], c[1..]);
    }
  }

  /** A tree node; nothing changes its key or value after create_node. */
  class Node<V> {
    const key: string
    const value: V
    var parent: Node?<V>
    var left: Node?<V>
    var right: Node?<V>

    constructor (key: string, value: V)
      ensures this.key == key && this.value == value
      ensures parent == null && left == null && right == null
    {
      this.key, this.value := key, value;
      parent, left, right := null, null, null;
    }
  }

  datatype Shape<V> = Leaf | Branch(left: Shape<V>, node: Node<V>, right: Shape<V>)

  function InOrder<V>(t: Shape<V>): seq<Node<V>>
  {
    match t case Leaf => [] case Branch(l, n, r) => InOrder(l) + [n] + InOrder(r)
  }

  /** Every key of t is below the given one. */
  predicate Under<V>(t: Shape<V>, key: string)
  {
    match t case Leaf => true case Branch(l, n, r) => Under(l, key) && Strcmp(n.key, key) < 0 && Under(r, key)
  }

  /** No key of t is below the given one. */
  predicate AtLeast<V>(t: Shape<V>, key: string)
  {
    match t case Leaf => true case Branch(l, n, r) => AtLeast(l, key) && Strcmp(key, n.key) <= 0 && AtLeast(r, key)
  }

  /** Left keys < node <= right keys. */
  predicate Ordered<V>(t: Shape<V>)
  {
    match t
    case Leaf => true
    case Branch(l, n, r) => Ordered(l) && Ordered(r) && Under(l, n.key) && AtLeast(r, n.key)
  }

  lemma {:induction false} BoundsOfMembers<V>(t: Shape<V>, key: string)
    ensures Under(t, key) <==> forall m | m in InOrder(t) :: Strcmp(m.key, key) < 0
    ensures AtLeast(t, key) <==> forall m | m in InOrder(t) :: Strcmp(key, m.key) <= 0
  {
    match t
    case Leaf =>
    case Branch(l, n, r) =>
      BoundsOfMembers(l, key);
      BoundsOfMembers(r, key);
      assert forall m :: m in InOrder(t) <==> m in InOrder(l) || m == n || m in InOrder(r);
  }

  lemma InOrderAt<V>(t: Shape<V>, i: nat)
    requires t.Branch? && i < |InOrder(t)|
    ensures var k := |InOrder(t.left)|;
      InOrder(t)[i] == if i < k then InOrder(t.left)[i] else if i == k then t.node else InOrder(t.right)[i - k - 1]
  {
  }

  lemma KeyBounds<V>(t: Shape<V>, i: nat, key: string)
    requires i < |InOrder(t)|
    ensures Under(t, key) ==> Strcmp(InOrder(t)[i].key, key) < 0
    ensures AtLeast(t, key) ==> Strcmp(key, InOrder(t)[i].key) <= 0
  {
    BoundsOfMembers(t, key);
    assert InOrder(t)[i] in InOrder(t);
  }

  /** In an ordered tree the in-order sequence is sorted. */
  lemma {:induction false} OrderedIsSorted<V>(t: Shape<V>, i: nat, j: nat)
    requires Ordered(t) && i < j < |InOrder(t)|
    ensures Strcmp(InOrder(t)[i].key, InOrder(t)[j].key) <= 0
  {
    var Branch(l, n, r) := t;
    var k := |InOrder(l)|;
    InOrderAt(t, i);
    InOrderAt(t, j);
    if j < k {
      OrderedIsSorted(l, i, j);
    } else if i > k {
      OrderedIsSorted(r, i - k - 1, j - k - 1);
    } else {
      if i < k { KeyBounds(l, i, n.key); }
      if j > k { KeyBounds(r, j - k - 1, n.key); }
      if i < k < j {
        StrcmpTransitive(InOrder(l)[i].key, n.key, InOrder(r)[j - k - 1].key);
      }
    }
  }

  // ---- Search ----

  /** lookup: the topmost entry with the key. */
  function Lookup<V>(t: Shape<V>, key: string): Option<Node<V>>
  {
    match t
    case Leaf => None
    case Branch(l, n, r) =>
      if Strcmp(key, n.key) < 0 then Lookup(l, key)
      else if Strcmp(key, n.key) > 0 then Lookup(r, key)
      else Some(n)
  }

  /** find_last: the last node of a search that goes right on equal keys. */
  function Last<V>(t: Shape<V>, key: string): (n: Node<V>)
    requires t.Branch?
    ensures n in InOrder(t)
  {
    if Strcmp(key, t.node.key) < 0
    then if t.left.Leaf? then t.node else Last(t.left, key)
    else if t.right.Leaf? then t.node else Last(t.right, key)
  }

  /** A lookup succeeds exactly if the key occurs, and then returns an entry with that key. */
  lemma {:induction false} LookupIffOccurs<V>(t: Shape<V>, key: string)
    requires Ordered(t)
    ensures Lookup(t, key).Some? <==> exists n :: n in InOrder(t) && n.key == key
    ensures Lookup(t, key).Some? ==> Lookup(t, key).value in InOrder(t) && Lookup(t, key).value.key == key
  {
    match t
    case Leaf =>
    case Branch(l, n, r) =>
      LookupIffOccurs(l, key);
      LookupIffOccurs(r, key);
      BoundsOfMembers(l, n.key);
      BoundsOfMembers(r, n.key);
      StrcmpAntisymmetric(key, n.key);
      if m :| m in InOrder(t) && m.key == key {
        assert m in InOrder(l) || m == n || m in InOrder(r);
      }
  }

  // ---- Insertion ----

  /** The tree with a new node below the last node of its search. */
  function Inserted<V>(t: Shape<V>, x: Node<V>): Shape<V>
  {
    match t
    case Leaf => Branch(Leaf, x, Leaf)
    case Branch(l, n, r) =>
      if Strcmp(x.key, n.key) < 0 then Branch(Inserted(l, x), n, r) else Branch(l, n, Inserted(r, x))
  }

  /** add_child refuses a key exactly when the search ends at it. */
  predicate Refused<V>(t: Shape<V>, key: string) { t.Branch? && Last(t, key).key == key }

  /** The entries that stay in front of a new one: those with keys up to its own. */
  function Rank<V>(s: seq<Node<V>>, key: string): (p: nat)
    ensures p <= |s|
  {
    if s == [] then 0
    else Rank(s[..|s| - 1], key) + if Strcmp(s[|s| - 1].key, key) <= 0 then 1 else 0
  }

  lemma {:induction false} RankConcat<V>(a: seq<Node<V>>, b: seq<Node<V>>, key: string)
    ensures Rank(a + b, key) == Rank(a, key) + Rank(b, key)
  {
    if b == [] {
      assert a + b == a;
    } else {
      assert (a + b)[..|a + b| - 1] == a + b[..|b| - 1];
      RankConcat(a, b[..|b| - 1], key);
    }
  }

  lemma {:induction false} RankAll<V>(s: seq<Node<V>>, key: string)
    ensures (forall n | n in s :: Strcmp(n.key, key) <= 0) ==> Rank(s, key) == |s|
    ensures (forall n | n in s :: Strcmp(n.key, key) > 0) ==> Rank(s, key) == 0
  {
    if s != [] {
      RankAll(s[..|s| - 1], key);
      assert s[|s| - 1] in s && forall n | n in s[..|s| - 1] :: n in s;
    }
  }

  lemma {:induction false} InsertKeepsBounds<V>(t: Shape<V>, x: Node<V>, key: string)
    ensures Under(t, key) && Strcmp(x.key, key) < 0 ==> Under(Inserted(t, x), key)
    ensures AtLeast(t, key) && Strcmp(key, x.key) <= 0 ==> AtLeast(Inserted(t, x), key)
  {
    match t
    case Leaf =>
    case Branch(l, n, r) =>
      if Strcmp(x.key, n.key) < 0 { InsertKeepsBounds(l, x, key); } else { InsertKeepsBounds(r, x, key); }
  }

  lemma {:induction false} InsertKeepsOrdered<V>(t: Shape<V>, x: Node<V>)
    requires Ordered(t)
    ensures Ordered(Inserted(t, x))
  {
    match t
    case Leaf =>
    case Branch(l, n, r) =>
      if Strcmp(x.key, n.key) < 0 {
        InsertKeepsOrdered(l, x);
        InsertKeepsBounds(l, x, n.key);
      } else {
        StrcmpAntisymmetric(n.key, x.key);
        StrcmpAntisymmetric(x.key, n.key);
        InsertKeepsOrdered(r, x);
        InsertKeepsBounds(r, x, n.key);
      }
  }

  function InsertAt<T>(s: seq<T>, p: nat, x: T): seq<T>
    requires p <= |s|
  {
    s[..p] + [x] + s[p..]
  }

  lemma InsertAtLeft<T>(a: seq<T>, b: seq<T>, p: nat, x: T)
    requires p <= |a|
    ensures InsertAt(a + b, p, x) == InsertAt(a, p, x) + b
  {
  }

  lemma InsertAtRight<T>(a: seq<T>, b: seq<T>, p: nat, q: nat, x: T)
    requires p <= |b| && q == |a| + p
    ensures InsertAt(a + b, q, x) == a + InsertAt(b, p, x)
  {
  }

  /** Where a new key ranks among the keys of a tree, from its ranks in the two subtrees. */
  lemma RankOfBranch<V>(l: Shape<V>, n: Node<V>, r: Shape<V>, key: string)
    requires Ordered(Branch(l, n, r))
    ensures var p := Rank(InOrder(Branch(l, n, r)), key);
      p == if Strcmp(key, n.key) < 0 then Rank(InOrder(l), key) else |InOrder(l)| + 1 + Rank(InOrder(r), key)
  {
    var a, b := InOrder(l), InOrder(r);
    BoundsOfMembers(l, n.key);
    BoundsOfMembers(r, n.key);
    StrcmpAntisymmetric(key, n.key);
    StrcmpAntisymmetric(n.key, key);
    RankConcat(a + [n], b, key);
    RankConcat(a, [n], key);
    assert Rank([n], key) == (if Strcmp(n.key, key) <= 0 then 1 else 0) by {
      assert Rank([n][..0], key) == 0;
    }
    if Strcmp(key, n.key) < 0 {
      forall m | m in b ensures Strcmp(m.key, key) > 0 {
        StrcmpTransitive(key, n.key, m.key);
        StrcmpAntisymmetric(key, m.key);
      }
      RankAll(b, key);
    } else {
      forall m | m in a ensures Strcmp(m.key, key) <= 0 {
        StrcmpTransitive(m.key, n.key, key);
      }
      RankAll(a, key);
    }
  }

  lemma InsertBefore<T>(a: seq<T>, n: T, b: seq<T>, p: nat, x: T)
    requires p <= |a|
    ensures InsertAt(a + [n] + b, p, x) == InsertAt(a, p, x) + [n] + b
  {
    InsertAtLeft(a + [n], b, p, x);
    InsertAtLeft(a, [n], p, x);
  }

  lemma InsertBehind<T>(a: seq<T>, n: T, b: seq<T>, p: nat, x: T)
    requires p <= |b|
    ensures InsertAt(a + [n] + b, |a| + 1 + p, x) == a + [n] + InsertAt(b, p, x)
  {
    InsertAtRight(a + [n], b, p, |a| + 1 + p, x);
  }

  /** Insertion puts one entry into the in-order sequence, behind all keys up to its own. */
  lemma {:induction false} InsertIsInOrderInsert<V>(t: Shape<V>, x: Node<V>)
    requires Ordered(t)
    ensures InOrder(Inserted(t, x)) == InsertAt(InOrder(t), Rank(InOrder(t), x.key), x)
  {
    match t
    case Leaf =>
    case Branch(l, n, r) =>
      if Strcmp(x.key, n.key) < 0 {
        InsertIsInOrderInsert(l, x);
        InsertBefore(InOrder(l), n, InOrder(r), Rank(InOrder(l), x.key), x);
      } else {
        InsertIsInOrderInsert(r, x);
        InsertBehind(InOrder(l), n, InOrder(r), Rank(InOrder(r), x.key), x);
      }
      RankOfBranch(l, n, r, x.key);
  }

  /** No key that could be looked up before is looked up differently after. */
  lemma {:induction false} InsertKeepsLookups<V>(t: Shape<V>, x: Node<V>, key: string)
    requires Ordered(t)
    ensures Lookup(Inserted(t, x), key) ==
            if Lookup(t, key).Some? then Lookup(t, key) else if x.key == key then Some(x) else None
  {
    match t
    case Leaf =>
    case Branch(l, n, r) =>
      if Strcmp(x.key, n.key) < 0 { InsertKeepsLookups(l, x, key); } else { InsertKeepsLookups(r, x, key); }
  }

  /** The subtree of the last entry, in order, with the key. */
  function Latest<V>(t: Shape<V>, key: string): Shape<V>
  {
    match t
    case Leaf => Leaf
    case Branch(l, n, r) =>
      if Strcmp(key, n.key) < 0 then Latest(l, key)
      else if Strcmp(key, n.key) > 0 || Latest(r, key).Branch? then Latest(r, key)
      else t
  }

  /** That subtree's root stands last, in order, among the entries with the key. */
  lemma {:induction false} LatestIsLast<V>(t: Shape<V>, key: string) returns (p: nat)
    requires Ordered(t) && Latest(t, key).Branch?
    ensures p < |InOrder(t)| && InOrder(t)[p] == Latest(t, key).node && InOrder(t)[p].key == key
    ensures forall i | p < i < |InOrder(t)| :: InOrder(t)[i].key != key
  {
    var Branch(l, n, r) := t;
    var k := |InOrder(l)|;
    if Strcmp(key, n.key) < 0 {
      p := LatestIsLast(l, key);
      forall i | p < i < |InOrder(t)| ensures InOrder(t)[i].key != key {
        InOrderAt(t, i);
        if i > k { KeyBounds(r, i - k - 1, n.key); }
        StrcmpAntisymmetric(key, n.key);
      }
    } else if Strcmp(key, n.key) > 0 || Latest(r, key).Branch? {
      var q := LatestIsLast(r, key);
      p := k + 1 + q;
      forall i | p < i < |InOrder(t)| ensures InOrder(t)[i].key != key {
        InOrderAt(t, i);
      }
    } else {
      p := k;
      forall i | p < i < |InOrder(t)| ensures InOrder(t)[i].key != key {
        InOrderAt(t, i);
        LatestFindsAll(r, key, i - k - 1);
      }
    }
  }

  lemma {:induction false} LatestFindsAll<V>(t: Shape<V>, key: string, i: nat)
    requires Ordered(t) && Latest(t, key).Leaf? && i < |InOrder(t)|
    ensures InOrder(t)[i].key != key
  {
    RefusedIff(t, key);
    LookupIffOccurs(t, key);
    assert InOrder(t)[i] in InOrder(t);
  }

  /** A duplicate key is refused exactly if the latest entry with that key has no right child;
      otherwise it is inserted. */
  lemma {:induction false} RefusedIff<V>(t: Shape<V>, key: string)
    ensures Refused(t, key) <==> Latest(t, key).Branch? && Latest(t, key).right.Leaf?
    ensures Latest(t, key).Branch? <==> Lookup(t, key).Some?
    ensures Latest(t, key).Branch? ==> Latest(t, key).node.key == key
  {
    match t
    case Leaf =>
    case Branch(l, n, r) =>
      RefusedIff(l, key);
      RefusedIff(r, key);
  }

  /** After "5" and "7", a second "5" is accepted. */
  lemma DuplicateAccepted<V>(a: Node<V>, b: Node<V>, c: Node<V>)
    requires a.key == "5" && b.key == "7" && c.key == "5"
    ensures var t := Inserted(Inserted(Leaf, a), b);
      !Refused(t, "5") && InOrder(Inserted(t, c)) == [a, c, b]
  {
    assert Strcmp("7", "5") > 0 && Strcmp("5", "7") < 0 && Strcmp("5", "5") == 0;
    var t := Branch(Leaf, a, Branch(Leaf, b, Leaf));
    assert Inserted(Inserted(Leaf, a), b) == t;
    assert Last(t, "5") == Last(t.right, "5") == b;
    assert Inserted(t.right, c) == Branch(Inserted(Leaf, c), b, Leaf);
    assert Inserted(t, c) == Branch(Leaf, a, Inserted(t.right, c));
    assert InOrder(Inserted(t.right, c)) == [c, b];
  }

  // ---- Removal ----

  function Size<V>(t: Shape<V>): nat { match t case Leaf => 0 case Branch(l, _, r) => Size(l) + 1 + Size(r) }

  /** The subtree that takes the place of a node with at most one child. */
  function Orphan<V>(t: Shape<V>): Shape<V>
    requires t.Branch?
  {
    if t.left.Branch? then t.left else t.right
  }

  predicate AtMostOneChild<V>(t: Shape<V>) { t.Branch? && (t.left.Leaf? || t.right.Leaf?) }

  /** The topmost subtree whose root has the key. */
  function Found<V>(t: Shape<V>, key: string): Shape<V>
  {
    match t
    case Leaf => Leaf
    case Branch(l, n, r) =>
      if Strcmp(key, n.key) < 0 then Found(l, key) else if Strcmp(key, n.key) > 0 then Found(r, key) else t
  }

  /** The subtree of the smallest entry. */
  function Smallest<V>(t: Shape<V>): (s: Shape<V>)
    requires t.Branch?
    ensures s.Branch? && s.left.Leaf?
  {
    if t.left.Leaf? then t else Smallest(t.left)
  }

  /** What delete_node leaves of the subtree of a node: with at most one child the other side,
      and with two children the subtree of the smallest entry on the right. */
  function Heir<V>(t: Shape<V>): Shape<V>
    requires t.Branch?
  {
    if AtMostOneChild(t) then Orphan(t) else Smallest(t.right)
  }

  function Removed<V>(t: Shape<V>, key: string): Shape<V>
  {
    match t
    case Leaf => Leaf
    case Branch(l, n, r) =>
      if Strcmp(key, n.key) < 0 then Branch(Removed(l, key), n, r)
      else if Strcmp(key, n.key) > 0 then Branch(l, n, Removed(r, key))
      else Heir(t)
  }

  lemma {:induction false} InOrderSize<V>(t: Shape<V>)
    ensures |InOrder(t)| == Size(t)
  {
    match t case Leaf => case Branch(l, _, r) => InOrderSize(l); InOrderSize(r);
  }

  lemma {:induction false} SmallestIsSmaller<V>(t: Shape<V>)
    requires t.Branch?
    ensures Size(Smallest(t)) <= Size(t)
  {
    if t.left.Branch? { SmallestIsSmaller(t.left); }
  }

  lemma {:induction false} RemovedSize<V>(t: Shape<V>, key: string)
    requires Found(t, key).Branch?
    ensures Size(Removed(t, key)) + 1 == Size(t) <==> AtMostOneChild(Found(t, key))
  {
    var Branch(l, n, r) := t;
    if Strcmp(key, n.key) < 0 {
      RemovedSize(l, key);
    } else if Strcmp(key, n.key) > 0 {
      RemovedSize(r, key);
    } else if !AtMostOneChild(t) {
      SmallestIsSmaller(r);
      assert Size(l) > 0;
    }
  }

  /** The in-order sequence without the entry at p. */
  function Without<T>(s: seq<T>, p: nat): seq<T>
    requires p < |s|
  {
    s[..p] + s[p + 1..]
  }

  /** Where the entry that delete_node finds stands in order. */
  function FoundAt<V>(t: Shape<V>, key: string): (p: nat)
    requires Found(t, key).Branch?
    ensures p < |InOrder(t)| && InOrder(t)[p] == Found(t, key).node && Found(t, key).node.key == key
  {
    if Strcmp(key, t.node.key) < 0 then FoundAt(t.left, key)
    else if Strcmp(key, t.node.key) > 0 then |InOrder(t.left)| + 1 + FoundAt(t.right, key)
    else |InOrder(t.left)|
  }

  lemma WithoutConcat<T>(a: seq<T>, b: seq<T>, p: nat)
    ensures p < |a| ==> Without(a + b, p) == Without(a, p) + b
    ensures p < |b| ==> Without(a + b, |a| + p) == a + Without(b, p)
  {
  }

  lemma {:induction false} SpliceRemovesOne<V>(t: Shape<V>, key: string)
    requires AtMostOneChild(Found(t, key))
    ensures InOrder(Removed(t, key)) == Without(InOrder(t), FoundAt(t, key))
  {
    var Branch(l, n, r) := t;
    if Strcmp(key, n.key) < 0 {
      SpliceRemovesOne(l, key);
      WithoutLeft(InOrder(l), n, InOrder(r), FoundAt(l, key));
    } else if Strcmp(key, n.key) > 0 {
      SpliceRemovesOne(r, key);
      WithoutConcat(InOrder(l) + [n], InOrder(r), FoundAt(r, key));
    } else {
      WithoutMiddle(InOrder(l), n, InOrder(r));
    }
  }

  lemma WithoutLeft<T>(a: seq<T>, x: T, b: seq<T>, p: nat)
    requires p < |a|
    ensures Without(a + [x] + b, p) == Without(a, p) + [x] + b
  {
    WithoutConcat(a + [x], b, p);
    WithoutConcat(a, [x], p);
  }

  lemma WithoutMiddle<T>(a: seq<T>, x: T, b: seq<T>)
    ensures Without(a + [x] + b, |a|) == a + b
  {
  }

  /** delete_node removes exactly the entry it finds if and only if that has at most one child;
      otherwise it drops entries of the subtree. */
  lemma DeleteRemovesOneIff<V>(t: Shape<V>, key: string)
    requires Found(t, key).Branch?
    ensures InOrder(Removed(t, key)) == Without(InOrder(t), FoundAt(t, key)) <==> AtMostOneChild(Found(t, key))
  {
    if AtMostOneChild(Found(t, key)) {
      SpliceRemovesOne(t, key);
    } else {
      RemovedSize(t, key);
      InOrderSize(t);
      InOrderSize(Removed(t, key));
    }
  }

  /** s is t or a part of it. */
  predicate Subtree<V>(s: Shape<V>, t: Shape<V>)
  {
    s == t || (t.Branch? && (Subtree(s, t.left) || Subtree(s, t.right)))
  }

  /** The smallest entry is the first in order, and its subtree holds the entries up to some
      point. */
  lemma {:induction false} SmallestIsFirst<V>(t: Shape<V>)
    requires t.Branch?
    ensures Subtree(Smallest(t), t)
    ensures Smallest(t).node == InOrder(t)[0] && InOrder(Smallest(t)) <= InOrder(t)
  {
    if t.left.Branch? {
      SmallestIsFirst(t.left);
      PrefixOfMore(InOrder(Smallest(t)), InOrder(t.left), [t.node], InOrder(t.right));
      InOrderAt(t, 0);
    } else {
      assert InOrder(t.left) == [];
    }
  }

  lemma PrefixOfMore<T>(p: seq<T>, a: seq<T>, b: seq<T>, c: seq<T>)
    requires p <= a
    ensures p <= a + b + c
  {
  }

  /** The entries before and behind the subtree that delete_node finds. */
  function Around<V>(t: Shape<V>, key: string): (r: (seq<Node<V>>, seq<Node<V>>))
    requires Found(t, key).Branch?
    ensures InOrder(t) == r.0 + InOrder(Found(t, key)) + r.1
  {
    var Branch(l, n, r) := t;
    if Strcmp(key, n.key) < 0 then
      var (a, b) := Around(l, key);
      Regroup(a, InOrder(Found(t, key)), b, [n], InOrder(r));
      (a, b + [n] + InOrder(r))
    else if Strcmp(key, n.key) > 0 then
      var (a, b) := Around(r, key);
      RegroupRight(InOrder(l) + [n], a, InOrder(Found(t, key)), b);
      (InOrder(l) + [n] + a, b)
    else ([], [])
  }

  lemma Regroup<T>(a: seq<T>, x: seq<T>, b: seq<T>, c: seq<T>, d: seq<T>)
    ensures a + x + b + c + d == a + x + (b + c + d)
  {
  }

  lemma RegroupRight<T>(c: seq<T>, a: seq<T>, x: seq<T>, b: seq<T>)
    ensures c + (a + x + b) == c + a + x + b
  {
  }

  /** A deletion changes nothing around the subtree that it finds. */
  lemma {:induction false} RemovedInside<V>(t: Shape<V>, key: string, a: seq<Node<V>>, b: seq<Node<V>>)
    requires Found(t, key).Branch? && Around(t, key) == (a, b)
    ensures InOrder(Removed(t, key)) == a + InOrder(Heir(Found(t, key))) + b
  {
    var Branch(l, n, r) := t;
    if Strcmp(key, n.key) < 0 {
      var (c, d) := Around(l, key);
      RemovedInside(l, key, c, d);
      Regroup(c, InOrder(Heir(Found(t, key))), d, [n], InOrder(r));
    } else if Strcmp(key, n.key) > 0 {
      var (c, d) := Around(r, key);
      RemovedInside(r, key, c, d);
      RegroupRight(InOrder(l) + [n], c, InOrder(Heir(Found(t, key))), d);
    }
  }

  /** With two children, only the subtree of the first entry on the right is left of the
      subtree that delete_node finds. */
  lemma DeleteLeaves<V>(t: Shape<V>, key: string, f: Shape<V>, s: Shape<V>, a: seq<Node<V>>, b: seq<Node<V>>)
    requires f == Found(t, key) && f.Branch? && !AtMostOneChild(f)
    requires s == Smallest(f.right) && (a, b) == Around(t, key)
    ensures InOrder(t) == a + InOrder(f.left) + [f.node] + InOrder(f.right) + b
    ensures InOrder(Removed(t, key)) == a + InOrder(s) + b
    ensures Subtree(s, f.right) && s.node == InOrder(f.right)[0] && InOrder(s) <= InOrder(f.right)
  {
    RemovedInside(t, key, a, b);
    SmallestIsFirst(f.right);
    RegroupRight(a, InOrder(f.left), [f.node], InOrder(f.right));
  }

  lemma InOrderOfOne<V>(n: Node<V>)
    ensures InOrder(Branch(Leaf, n, Leaf)) == [n]
  {
    assert InOrder<V>(Leaf) == [];
  }

  /** In a tree of "8" over "4" over "2" and "6", deleting "4" drops "2" as well. */
  lemma DeleteDropsEntry<V>(a: Node<V>, b: Node<V>, c: Node<V>, d: Node<V>)
    requires a.key == "8" && b.key == "4" && c.key == "2" && d.key == "6"
    ensures var t := Inserted(Inserted(Inserted(Inserted(Leaf, a), b), c), d);
      InOrder(t) == [c, b, d, a] && InOrder(Removed(t, "4")) == [d, a]
  {
    assert Strcmp("4", "8") < 0 && Strcmp("2", "8") < 0 && Strcmp("6", "8") < 0;
    assert Strcmp("2", "4") < 0 && Strcmp("6", "4") > 0 && Strcmp("4", "4") == 0;
    var t1, t2, t3 := Branch(Leaf, b, Leaf), Branch(Branch(Leaf, c, Leaf), b, Leaf), Branch(Leaf, d, Leaf);
    var t4 := Branch(Branch(Leaf, c, Leaf), b, t3);
    assert Inserted(Branch(Leaf, a, Leaf), b) == Branch(t1, a, Leaf);
    assert Inserted(Branch(t1, a, Leaf), c) == Branch(t2, a, Leaf) by { assert Inserted(t1, c) == t2; }
    assert Inserted(Branch(t2, a, Leaf), d) == Branch(t4, a, Leaf) by { assert Inserted(t2, d) == t4; }
    InOrderOfOne(c);
    InOrderOfOne(d);
    assert Removed(Branch(t4, a, Leaf), "4") == Branch(t3, a, Leaf) by { assert Removed(t4, "4") == t3; }
  }

  lemma {:induction false} SmallestKeeps<V>(t: Shape<V>, b: string)
    requires t.Branch?
    ensures Under(t, b) ==> Under(Smallest(t), b)
    ensures AtLeast(t, b) ==> AtLeast(Smallest(t), b)
    ensures Ordered(t) ==> Ordered(Smallest(t))
  {
    if t.left.Branch? { SmallestKeeps(t.left, b); }
  }

  lemma {:induction false} RemoveKeepsBounds<V>(t: Shape<V>, key: string, b: string)
    ensures Under(t, b) ==> Under(Removed(t, key), b)
    ensures AtLeast(t, b) ==> AtLeast(Removed(t, key), b)
  {
    match t
    case Leaf =>
    case Branch(l, n, r) =>
      if Strcmp(key, n.key) < 0 { RemoveKeepsBounds(l, key, b); }
      else if Strcmp(key, n.key) > 0 { RemoveKeepsBounds(r, key, b); }
      else if !AtMostOneChild(t) { SmallestKeeps(r, b); }
  }

  /** A deletion keeps the order of the tree, also where it drops entries. */
  lemma {:induction false} RemoveKeepsOrdered<V>(t: Shape<V>, key: string)
    requires Ordered(t)
    ensures Ordered(Removed(t, key))
  {
    match t
    case Leaf =>
    case Branch(l, n, r) =>
      if Strcmp(key, n.key) < 0 {
        RemoveKeepsOrdered(l, key);
        RemoveKeepsBounds(l, key, n.key);
      } else if Strcmp(key, n.key) > 0 {
        RemoveKeepsOrdered(r, key);
        RemoveKeepsBounds(r, key, n.key);
      } else if !AtMostOneChild(t) {
        SmallestKeeps(r, n.key);
      }
  }

  /** Every other key is looked up as before. */
  lemma {:induction false} SpliceKeepsLookups<V>(t: Shape<V>, key: string, other: string)
    requires Ordered(t) && AtMostOneChild(Found(t, key)) && other != key
    ensures Lookup(Removed(t, key), other) == Lookup(t, other)
  {
    var Branch(l, n, r) := t;
    if Strcmp(key, n.key) < 0 {
      SpliceKeepsLookups(l, key, other);
    } else if Strcmp(key, n.key) > 0 {
      SpliceKeepsLookups(r, key, other);
    } else {
      OutOfBoundsIsAbsent(l, n.key, other);
      OutOfBoundsIsAbsent(r, n.key, other);
    }
  }

  lemma OutOfBoundsIsAbsent<V>(t: Shape<V>, bound: string, key: string)
    requires Ordered(t)
    ensures Under(t, bound) && Strcmp(key, bound) >= 0 ==> Lookup(t, key) == None
    ensures AtLeast(t, bound) && Strcmp(key, bound) < 0 ==> Lookup(t, key) == None
  {
    LookupIffOccurs(t, key);
    BoundsOfMembers(t, bound);
    StrcmpAntisymmetric(key, bound);
    StrcmpAntisymmetric(bound, key);
  }
}
