/** What the chains of lib/ds/hashmap.c hold, as a multimap. */
module Chains {
  import opened Common

  type uint32 = x: int | 0 <= x < 0x1_0000_0000

  /** A node is never changed after Hashmap_node_create, so only its identity and its three
      constant fields matter. */
  class HashmapNode<K, D> {
    const key: K
    const data: D
    const hash: uint32

    constructor (hash: uint32, key: K, data: D)
      ensures this.hash == hash && this.key == key && this.data == data
    {
      this.hash, this.key, this.data := hash, key, data;
    }
  }

  /** The two callbacks of a map. */
  datatype Callbacks<!K> = Callbacks(compare: (K, K) -> int, hash: K -> uint32)

  /** compare(a, b) == 0 is an equivalence, and equal keys have equal hashes. */
  ghost predicate Lawful<K(!new)>(cb: Callbacks<K>)
  {
    && (forall a :: cb.compare(a, a) == 0)
    && (forall a, b :: cb.compare(a, b) == 0 ==> cb.compare(b, a) == 0 && cb.hash(a) == cb.hash(b))
    && (forall a, b, c {:trigger cb.compare(a, b), cb.compare(b, c)} ::
          cb.compare(a, b) == 0 && cb.compare(b, c) == 0 ==> cb.compare(a, c) == 0)
  }

  type Chain<!K, !D> = seq<HashmapNode<K, D>>

  predicate Matches<K, D>(cb: Callbacks<K>, n: HashmapNode<K, D>, key: K)
  {
    n.hash == cb.hash(key) && cb.compare(n.key, key) == 0
  }

  /** Hashmap_get_node: the first match, or -1. */
  function FirstMatch<K, D>(cb: Callbacks<K>, c: Chain<K, D>, key: K): (i: int)
    ensures -1 <= i < |c|
    ensures i >= 0 ==> Matches(cb, c[i], key) && forall j | 0 <= j < i :: !Matches(cb, c[j], key)
    ensures i == -1 ==> forall j | 0 <= j < |c| :: !Matches(cb, c[j], key)
  {
    if c == [] then -1
    else if Matches(cb, c[0], key) then 0
    else var i := FirstMatch(cb, c[1..], key); if i == -1 then -1 else i + 1
  }

  /** What Hashmap_delete does to a chain: the last node takes the place of node i. */
  function SwapRemoved<K, D>(c: Chain<K, D>, i: nat): (r: Chain<K, D>)
    requires i < |c|
    ensures |r| == |c| - 1
  {
    var n := |c| - 1;
    if i == n then c[..n] else c[..n][i := c[n]]
  }

  function BucketOf<K>(cb: Callbacks<K>, buckets: nat, key: K): (i: nat)
    requires buckets > 0
    ensures i < buckets
  {
    cb.hash(key) % buckets
  }

  /** Every node of bucket b has a hash that belongs there, and no node is in twice. */
  ghost predicate ChainOk<K, D>(cb: Callbacks<K>, buckets: nat, b: nat, c: Chain<K, D>)
  {
    && buckets > 0
    && (forall j | 0 <= j < |c| :: c[j].hash == cb.hash(c[j].key) && c[j].hash % buckets == b)
    && (forall j, k | 0 <= j < k < |c| :: c[j] != c[k])
  }

  /** Every node sits in the bucket of its hash, so no node sits in two places. */
  ghost predicate Placed<K, D>(cb: Callbacks<K>, cs: seq<Chain<K, D>>)
  {
    |cs| > 0 && forall b | 0 <= b < |cs| :: ChainOk(cb, |cs|, b, cs[b])
  }

  /** The entry that Hashmap_get finds. */
  function Lookup<K, D>(cb: Callbacks<K>, cs: seq<Chain<K, D>>, key: K): Option<HashmapNode<K, D>>
    requires |cs| > 0
  {
    var c := cs[BucketOf(cb, |cs|, key)];
    var i := FirstMatch(cb, c, key);
    if i == -1 then None else Some(c[i])
  }

  function Added<K, D>(cb: Callbacks<K>, cs: seq<Chain<K, D>>, n: HashmapNode<K, D>): (r: seq<Chain<K, D>>)
    requires |cs| > 0
    ensures |r| == |cs|
  {
    var i := BucketOf(cb, |cs|, n.key);
    cs[i := cs[i] + [n]]
  }

  function Deleted<K, D>(cb: Callbacks<K>, cs: seq<Chain<K, D>>, key: K): (r: seq<Chain<K, D>>)
    requires |cs| > 0
    ensures |r| == |cs|
  {
    var i := BucketOf(cb, |cs|, key);
    var k := FirstMatch(cb, cs[i], key);
    if k == -1 then cs else cs[i := SwapRemoved(cs[i], k)]
  }

  // ---- All entries ----

  /** All nodes, in the order in which Hashmap_traverse meets them. */
  function Flat<K, D>(cs: seq<Chain<K, D>>): Chain<K, D>
  {
    if cs == [] then [] else Flat(cs[..|cs| - 1]) + cs[|cs| - 1]
  }

  /** A chain comes behind those of all lower buckets and before those of all higher ones. */
  lemma {:induction false} FlatAt<K, D>(cs: seq<Chain<K, D>>, i: nat)
    requires i < |cs|
    ensures Flat(cs) == Flat(cs[..i]) + cs[i] + Flat(cs[i + 1..])
    decreases |cs|
  {
    var n := |cs| - 1;
    if i == n {
      assert cs[i + 1..] == [];
    } else {
      FlatAt(cs[..n], i);
      assert cs[..n][..i] == cs[..i] && cs[..n][i + 1..] == cs[i + 1..][..n - i - 1];
      FlatLast(cs[i + 1..]);
    }
  }

  lemma FlatLast<K, D>(cs: seq<Chain<K, D>>)
    requires cs != []
    ensures Flat(cs) == Flat(cs[..|cs| - 1]) + cs[|cs| - 1]
  {
  }

  /** What a callback gives over some nodes: its last result, the state it leaves, and how many
      nodes it has seen. */
  datatype Visited<S> = Visited(rc: int, state: S, count: nat)

  /** The callback sees the nodes in order, until it returns something other than 0. */
  function Visit<S, K, D>(traverseCb: (S, HashmapNode<K, D>) -> (S, int), s0: S, c: Chain<K, D>): (v: Visited<S>)
    ensures v.count <= |c| && (v.rc == 0 ==> v.count == |c|) && (v.rc != 0 ==> v.count > 0)
  {
    if c == [] then Visited(0, s0, 0)
    else
      var v := Visit(traverseCb, s0, c[..|c| - 1]);
      if v.rc != 0 then v
      else var (s, rc) := traverseCb(v.state, c[|c| - 1]); Visited(rc, s, |c|)
  }

  lemma VisitNext<S, K, D>(
    traverseCb: (S, HashmapNode<K, D>) -> (S, int), s0: S, c: Chain<K, D>, n: HashmapNode<K, D>)
    requires Visit(traverseCb, s0, c).rc == 0
    ensures var (s, rc) := traverseCb(Visit(traverseCb, s0, c).state, n);
      Visit(traverseCb, s0, c + [n]) == Visited(rc, s, |c| + 1)
  {
    var d := c + [n];
    assert d[..|d| - 1] == c && d[|d| - 1] == n;
  }

  lemma {:induction false} VisitStops<S, K, D>(
    traverseCb: (S, HashmapNode<K, D>) -> (S, int), s0: S, c: Chain<K, D>, d: Chain<K, D>)
    requires c <= d && Visit(traverseCb, s0, c).rc != 0
    ensures Visit(traverseCb, s0, d) == Visit(traverseCb, s0, c)
  {
    if |c| < |d| {
      VisitStops(traverseCb, s0, c, d[..|d| - 1]);
    } else {
      assert c == d;
    }
  }

  /** A callback that keeps a log. */
  function Logging<K, D>(f: HashmapNode<K, D> -> int): (Chain<K, D>, HashmapNode<K, D>) -> (Chain<K, D>, int)
  {
    (log, n) => (log + [n], f(n))
  }

  /** It sees every node once and in order: all of them exactly if none makes it stop, and
      otherwise those up to the first that does. */
  lemma {:induction false} VisitSeesAll<K, D>(f: HashmapNode<K, D> -> int, c: Chain<K, D>)
    ensures var v := Visit(Logging(f), [], c);
      && v.state == c[..v.count]
      && (forall i | 0 <= i < v.count :: f(c[i]) == if i < v.count - 1 then 0 else v.rc)
  {
    if c != [] {
      var d := c[..|c| - 1];
      VisitSeesAll(f, d);
      var v := Visit(Logging(f), [], d);
      if v.rc == 0 {
        assert c == d + [c[|c| - 1]];
      } else {
        assert d[..v.count] == c[..v.count];
      }
    }
  }

  lemma {:induction false} FlatUpdate<K, D>(cs: seq<Chain<K, D>>, i: nat, c: Chain<K, D>)
    requires i < |cs|
    ensures multiset(Flat(cs[i := c])) + multiset(cs[i]) == multiset(Flat(cs)) + multiset(c)
  {
    var n := |cs| - 1;
    if i == n {
      assert cs[i := c][..n] == cs[..n];
    } else {
      assert cs[i := c][..n] == cs[..n][i := c] && cs[i := c][n] == cs[n] && cs[..n][i] == cs[i];
      FlatUpdate(cs[..n], i, c);
      Rearrange(multiset(Flat(cs[..n][i := c])), multiset(cs[i]), multiset(Flat(cs[..n])),
                multiset(c), multiset(cs[n]));
    }
  }

  lemma Rearrange<T>(a: multiset<T>, b: multiset<T>, c: multiset<T>, d: multiset<T>, x: multiset<T>)
    requires a + b == c + d
    ensures (a + x) + b == (c + x) + d
  {
    assert (a + x) + b == (a + b) + x;
    assert (c + x) + d == (c + d) + x;
  }

  lemma Cancel<T>(a: multiset<T>, b: multiset<T>, c: multiset<T>, x: multiset<T>)
    ensures a + b == c + (b + x) ==> a == c + x
    ensures a + (b + x) == c + b ==> c == a + x
  {
    if a + b == c + (b + x) {
      assert a == (a + b) - b && c + x == (c + (b + x)) - b;
    }
    if a + (b + x) == c + b {
      assert a + x == (a + (b + x)) - b && c == (c + b) - b;
    }
  }

  lemma {:induction false} FlatMember<K, D>(cs: seq<Chain<K, D>>, n: HashmapNode<K, D>)
    ensures n in Flat(cs) <==> exists i :: 0 <= i < |cs| && n in cs[i]
  {
    if cs != [] {
      var m := |cs| - 1;
      FlatMember(cs[..m], n);
      if i :| 0 <= i < |cs| && n in cs[i] {
        assert i < m ==> n in cs[..m][i];
      }
      if n in Flat(cs[..m]) {
        var i :| 0 <= i < m && n in cs[..m][i];
        assert n in cs[i];
      }
    }
  }

  lemma SwapRemovedPermutes<K, D>(c: Chain<K, D>, i: nat)
    requires i < |c|
    ensures multiset(c) == multiset(SwapRemoved(c, i)) + multiset{c[i]}
    ensures forall x | x in SwapRemoved(c, i) :: x in c
  {
    var n := |c| - 1;
    assert c == c[..n] + [c[n]];
    if i < n {
      assert multiset(c[..n][i := c[n]]) == multiset(c[..n]) - multiset{c[i]} + multiset{c[n]};
    }
  }

  lemma UpdatePlaced<K, D>(cb: Callbacks<K>, cs: seq<Chain<K, D>>, i: nat, c: Chain<K, D>)
    requires Placed(cb, cs) && i < |cs| && ChainOk(cb, |cs|, i, c)
    ensures Placed(cb, cs[i := c])
  {
  }

  lemma SnocOk<K, D>(cb: Callbacks<K>, buckets: nat, b: nat, c: Chain<K, D>, n: HashmapNode<K, D>)
    requires ChainOk(cb, buckets, b, c) && n !in c && n.hash == cb.hash(n.key) && b == BucketOf(cb, buckets, n.key)
    ensures ChainOk(cb, buckets, b, c + [n])
    ensures multiset(c + [n]) == multiset(c) + multiset{n}
  {
  }

  lemma SwapRemovedOk<K, D>(cb: Callbacks<K>, buckets: nat, b: nat, c: Chain<K, D>, i: nat)
    requires ChainOk(cb, buckets, b, c) && i < |c|
    ensures ChainOk(cb, buckets, b, SwapRemoved(c, i))
  {
    var r := SwapRemoved(c, i);
    assert forall j | 0 <= j < |r| :: r[j] == c[if j == i then |r| else j];
  }

  // ---- The multimap ----

  /** Hashmap_set adds exactly one entry and keeps every node in its bucket. */
  lemma SetAddsOne<K, D>(cb: Callbacks<K>, cs: seq<Chain<K, D>>, n: HashmapNode<K, D>)
    requires Placed(cb, cs) && n.hash == cb.hash(n.key) && n !in Flat(cs)
    ensures Placed(cb, Added(cb, cs, n))
    ensures multiset(Flat(Added(cb, cs, n))) == multiset(Flat(cs)) + multiset{n}
  {
    var i := BucketOf(cb, |cs|, n.key);
    FlatMember(cs, n);
    SnocOk(cb, |cs|, i, cs[i], n);
    FlatUpdate(cs, i, cs[i] + [n]);
    UpdatePlaced(cb, cs, i, cs[i] + [n]);
    Cancel(multiset(Flat(Added(cb, cs, n))), multiset(cs[i]), multiset(Flat(cs)), multiset{n});
  }

  /** Hashmap_get finds an entry exactly if there is one with an equal key. */
  lemma LookupIffPresent<K(!new), D>(cb: Callbacks<K>, cs: seq<Chain<K, D>>, key: K)
    requires Placed(cb, cs) && Lawful(cb)
    ensures Lookup(cb, cs, key).Some? <==> exists n :: n in Flat(cs) && cb.compare(n.key, key) == 0
    ensures var r := Lookup(cb, cs, key);
      r.Some? ==> r.value in Flat(cs) && cb.compare(r.value.key, key) == 0
  {
    var b := BucketOf(cb, |cs|, key);
    var r := Lookup(cb, cs, key);
    if r.Some? {
      assert r.value in cs[b];
      FlatMember(cs, r.value);
    }
    if n :| n in Flat(cs) && cb.compare(n.key, key) == 0 {
      FlatMember(cs, n);
      var i :| 0 <= i < |cs| && n in cs[i];
      var j :| 0 <= j < |cs[i]| && cs[i][j] == n;
      assert ChainOk(cb, |cs|, i, cs[i]);
      assert Matches(cb, cs[b][j], key);
    }
  }

  /** Hashmap_delete removes exactly the entry that Hashmap_get would have returned. */
  lemma DeleteRemovesLookup<K, D>(cb: Callbacks<K>, cs: seq<Chain<K, D>>, key: K)
    requires Placed(cb, cs)
    ensures Placed(cb, Deleted(cb, cs, key))
    ensures match Lookup(cb, cs, key)
      case None => Deleted(cb, cs, key) == cs
      case Some(n) => multiset(Flat(cs)) == multiset(Flat(Deleted(cb, cs, key))) + multiset{n}
  {
    var i := BucketOf(cb, |cs|, key);
    var k := FirstMatch(cb, cs[i], key);
    if k != -1 {
      SwapRemovedOk(cb, |cs|, i, cs[i], k);
      FlatUpdate(cs, i, SwapRemoved(cs[i], k));
      UpdatePlaced(cb, cs, i, SwapRemoved(cs[i], k));
      SwapRemovedPermutes(cs[i], k);
      Cancel(multiset(Flat(Deleted(cb, cs, key))), multiset(SwapRemoved(cs[i], k)),
             multiset(Flat(cs)), multiset{cs[i][k]});
    }
  }

  /** With Hashmap_set alone a stored value is never replaced: a later entry for an equal key
      is found only once no earlier one is left. */
  lemma SetNeverReplaces<K(!new), D>(cb: Callbacks<K>, cs: seq<Chain<K, D>>, n: HashmapNode<K, D>, key: K)
    requires Placed(cb, cs) && Lawful(cb) && n.hash == cb.hash(n.key)
    ensures Lookup(cb, Added(cb, cs, n), key) ==
            if Lookup(cb, cs, key).Some? then Lookup(cb, cs, key)
            else if cb.compare(n.key, key) == 0 then Some(n) else None
  {
    var b := BucketOf(cb, |cs|, n.key);
    FirstMatchSnoc(cb, cs[b], n, key);
  }

  lemma {:induction false} FirstMatchSnoc<K, D>(cb: Callbacks<K>, c: Chain<K, D>, n: HashmapNode<K, D>, key: K)
    ensures var i := FirstMatch(cb, c, key);
      FirstMatch(cb, c + [n], key) == if i != -1 then i else if Matches(cb, n, key) then |c| else -1
  {
    if c == [] {
      assert c + [n] == [n] && FirstMatch(cb, [n][1..], key) == -1;
    } else {
      assert (c + [n])[1..] == c[1..] + [n];
      FirstMatchSnoc(cb, c[1..], n, key);
    }
  }

  // ---- The finite map ----

  /** No two entries of a chain have equal keys; entries in different buckets never do. */
  ghost predicate UniqueKeys<K, D>(cb: Callbacks<K>, c: Chain<K, D>)
  {
    forall i, j | 0 <= i < |c| && 0 <= j < |c| && i != j :: cb.compare(c[i].key, c[j].key) != 0
  }

  ghost predicate IsMap<K, D>(cb: Callbacks<K>, cs: seq<Chain<K, D>>)
  {
    Placed(cb, cs) && forall b | 0 <= b < |cs| :: UniqueKeys(cb, cs[b])
  }

  /** Setting an absent key is map insertion. */
  lemma SetAbsentIsInsert<K(!new), D>(cb: Callbacks<K>, cs: seq<Chain<K, D>>, n: HashmapNode<K, D>)
    requires IsMap(cb, cs) && Lawful(cb) && n.hash == cb.hash(n.key) && n !in Flat(cs)
    requires Lookup(cb, cs, n.key) == None
    ensures IsMap(cb, Added(cb, cs, n))
    ensures forall key :: Lookup(cb, Added(cb, cs, n), key) ==
              if cb.compare(n.key, key) == 0 then Some(n) else Lookup(cb, cs, key)
  {
    SetAddsOne(cb, cs, n);
    var b := BucketOf(cb, |cs|, n.key);
    var c := cs[b];
    assert UniqueKeys(cb, c);
    forall i, j | 0 <= i < |c + [n]| && 0 <= j < |c + [n]| && i != j
      ensures cb.compare((c + [n])[i].key, (c + [n])[j].key) != 0
    {
      var x := if i < |c| then i else j;
      if i == |c| || j == |c| {
        assert ChainOk(cb, |cs|, b, c);
        assert !Matches(cb, c[x], n.key);
      }
    }
    forall key ensures Lookup(cb, Added(cb, cs, n), key) ==
        if cb.compare(n.key, key) == 0 then Some(n) else Lookup(cb, cs, key)
    {
      SetNeverReplaces(cb, cs, n, key);
      if cb.compare(n.key, key) == 0 {
        AbsentAgrees(cb, cs, n.key, key);
      }
    }
  }

  lemma AbsentAgrees<K(!new), D>(cb: Callbacks<K>, cs: seq<Chain<K, D>>, k1: K, k2: K)
    requires Placed(cb, cs) && Lawful(cb) && Lookup(cb, cs, k1) == None && cb.compare(k1, k2) == 0
    ensures Lookup(cb, cs, k2) == None
  {
    var c := cs[BucketOf(cb, |cs|, k1)];
    assert cb.compare(k2, k1) == 0;
    forall j | 0 <= j < |c| ensures !Matches(cb, c[j], k2) {
      assert !Matches(cb, c[j], k1);
    }
  }

  // ---- Deletion and the other keys ----

  lemma FirstMatchIs<K, D>(cb: Callbacks<K>, c: Chain<K, D>, key: K, i: int)
    requires -1 <= i < |c|
    requires i >= 0 ==> Matches(cb, c[i], key)
    requires forall j | 0 <= j < (if i == -1 then |c| else i) :: !Matches(cb, c[j], key)
    ensures FirstMatch(cb, c, key) == i
  {
    var f := FirstMatch(cb, c, key);
    if i >= 0 {
      assert Matches(cb, c[i], key);
    }
  }

  /** Deleting `key` lets the last entry of its chain overtake the one that a get of `other`
      found so far. */
  predicate Overtakes<K, D>(cb: Callbacks<K>, cs: seq<Chain<K, D>>, key: K, other: K)
    requires |cs| > 0
  {
    var c := cs[BucketOf(cb, |cs|, key)];
    && BucketOf(cb, |cs|, other) == BucketOf(cb, |cs|, key)
    && 0 <= FirstMatch(cb, c, key) < FirstMatch(cb, c, other) < |c| - 1
    && Matches(cb, c[|c| - 1], other)
  }

  lemma MatchAfterSwap<K, D>(cb: Callbacks<K>, c: Chain<K, D>, k: nat, other: K)
    requires k < |c| && !Matches(cb, c[k], other)
    requires forall i, j | 0 <= i < j < |c| :: c[i] != c[j]
    ensures var i := FirstMatch(cb, c, other);
      var r := SwapRemoved(c, k);
      var f := FirstMatch(cb, r, other);
      && (f == -1 <==> i == -1)
      && (i != -1 ==> (r[f] == c[i] <==> !(k < i < |c| - 1 && Matches(cb, c[|c| - 1], other))))
  {
    var i, r, n := FirstMatch(cb, c, other), SwapRemoved(c, k), |c| - 1;
    var f := if i == -1 then -1 else if k < i && Matches(cb, c[n], other) then k else i;
    forall j | 0 <= j < (if f == -1 then |r| else f) ensures !Matches(cb, r[j], other) {
      assert r[j] == c[if j == k then n else j];
    }
    assert f >= 0 ==> r[f] == c[if f == k then n else f];
    FirstMatchIs(cb, r, other, f);
    if 0 <= i < n && f == k {
      assert c[i] != c[n];
    }
  }

  /** Nodes that match equivalent keys have equivalent keys, and the other way round. */
  lemma MatchesAgree<K(!new), D>(cb: Callbacks<K>, m: HashmapNode<K, D>, n: HashmapNode<K, D>, k1: K, k2: K)
    requires Lawful(cb) && Matches(cb, m, k1) && Matches(cb, n, k2)
    ensures k1 == k2 ==> cb.compare(m.key, n.key) == 0
    ensures m == n ==> cb.compare(k1, k2) == 0
  {
    assert cb.compare(k1, m.key) == 0 && cb.compare(k2, n.key) == 0;
  }

  lemma MatchesMove<K(!new), D>(cb: Callbacks<K>, n: HashmapNode<K, D>, k1: K, k2: K)
    requires Lawful(cb) && Matches(cb, n, k1) && cb.compare(k1, k2) == 0
    ensures Matches(cb, n, k2)
  {
  }

  /** Deleting a key leaves what a get of another key finds as it was, exactly unless the
      swapped node is a later entry for that other key. */
  lemma DeleteKeepsOthersIff<K(!new), D>(cb: Callbacks<K>, cs: seq<Chain<K, D>>, key: K, other: K)
    requires Placed(cb, cs) && Lawful(cb) && cb.compare(key, other) != 0
    ensures Lookup(cb, Deleted(cb, cs, key), other) == Lookup(cb, cs, other) <==> !Overtakes(cb, cs, key, other)
  {
    var b := BucketOf(cb, |cs|, key);
    var c := cs[b];
    var k := FirstMatch(cb, c, key);
    if k != -1 && BucketOf(cb, |cs|, other) == b {
      assert ChainOk(cb, |cs|, b, c);
      if Matches(cb, c[k], other) { MatchesAgree(cb, c[k], c[k], key, other); }
      MatchAfterSwap(cb, c, k, other);
    }
  }

  lemma AddedToOnly<K, D>(cb: Callbacks<K>, c: Chain<K, D>, n: HashmapNode<K, D>)
    ensures Added(cb, [c], n) == [c + [n]]
  {
    assert BucketOf(cb, 1, n.key) == 0;
  }

  /** It does happen: with keys 1, 2 and 2 in one bucket, deleting 1 changes what a get of 2
      finds from the first entry for it to the second. */
  lemma DeleteCanChangeOther<D>(a: HashmapNode<int, D>, b: HashmapNode<int, D>, c: HashmapNode<int, D>)
    requires a.key == 1 && b.key == 2 && c.key == 2 && a.hash == b.hash == c.hash == 0 && b != c
    ensures var cb: Callbacks<int> := Callbacks((k, l) => if k == l then 0 else 1, k => 0);
      var cs := Added(cb, Added(cb, Added(cb, [[]], a), b), c);
      && Lawful(cb) && Placed(cb, cs) && Overtakes(cb, cs, 1, 2)
      && Lookup(cb, cs, 2) == Some(b) && Lookup(cb, Deleted(cb, cs, 1), 2) == Some(c)
  {
    var cb: Callbacks<int> := Callbacks((k, l) => if k == l then 0 else 1, k => 0);
    AddedToOnly(cb, [], a);
    AddedToOnly(cb, [a], b);
    AddedToOnly(cb, [a, b], c);
    FirstMatchIs(cb, [a, b, c], 1, 0);
    FirstMatchIs(cb, [a, b, c], 2, 1);
    assert SwapRemoved([a, b, c], 0) == [c, b];
    FirstMatchIs(cb, [c, b], 2, 0);
    assert [[a, b, c]][0 := [c, b]] == [[c, b]];
  }

  lemma DeletedIsMap<K, D>(cb: Callbacks<K>, cs: seq<Chain<K, D>>, key: K)
    requires IsMap(cb, cs)
    ensures IsMap(cb, Deleted(cb, cs, key))
  {
    DeleteRemovesLookup(cb, cs, key);
    var b := BucketOf(cb, |cs|, key);
    var c := cs[b];
    var k := FirstMatch(cb, c, key);
    if k != -1 {
      StaysUnique(cb, c, k);
    }
  }

  lemma StaysUnique<K, D>(cb: Callbacks<K>, c: Chain<K, D>, k: nat)
    requires UniqueKeys(cb, c) && k < |c|
    ensures UniqueKeys(cb, SwapRemoved(c, k))
  {
    var r := SwapRemoved(c, k);
    assert forall j | 0 <= j < |r| :: r[j] == c[if j == k then |r| else j];
  }

  /** While set is used on absent keys only, nothing overtakes: delete is map removal. */
  lemma DeleteIsRemove<K(!new), D>(cb: Callbacks<K>, cs: seq<Chain<K, D>>, key: K)
    requires IsMap(cb, cs) && Lawful(cb)
    ensures IsMap(cb, Deleted(cb, cs, key))
    ensures forall other :: Lookup(cb, Deleted(cb, cs, key), other) ==
              if cb.compare(key, other) == 0 then None else Lookup(cb, cs, other)
  {
    DeletedIsMap(cb, cs, key);
    var ds := Deleted(cb, cs, key);
    forall other ensures Lookup(cb, ds, other) == if cb.compare(key, other) == 0 then None else Lookup(cb, cs, other) {
      if cb.compare(key, other) == 0 {
        DeletedIsAbsent(cb, cs, key, other);
      } else {
        NothingOvertakes(cb, cs, key, other);
        DeleteKeepsOthersIff(cb, cs, key, other);
      }
    }
  }

  lemma NothingOvertakes<K(!new), D>(cb: Callbacks<K>, cs: seq<Chain<K, D>>, key: K, other: K)
    requires IsMap(cb, cs) && Lawful(cb)
    ensures !Overtakes(cb, cs, key, other)
  {
    var c := cs[BucketOf(cb, |cs|, key)];
    var i, n := FirstMatch(cb, c, other), |c| - 1;
    assert UniqueKeys(cb, c);
    if 0 <= i {
      if Matches(cb, c[n], other) { MatchesAgree(cb, c[i], c[n], other, other); }
    }
  }

  lemma DeletedIsAbsent<K(!new), D>(cb: Callbacks<K>, cs: seq<Chain<K, D>>, key: K, other: K)
    requires IsMap(cb, cs) && Lawful(cb) && cb.compare(key, other) == 0
    ensures Lookup(cb, Deleted(cb, cs, key), other) == None
  {
    var b := BucketOf(cb, |cs|, key);
    var c := cs[b];
    var k := FirstMatch(cb, c, key);
    if k == -1 {
      AbsentAgrees(cb, cs, key, other);
    } else {
      var r := SwapRemoved(c, k);
      assert UniqueKeys(cb, c);
      MatchesMove(cb, c[k], key, other);
      forall j | 0 <= j < |r| ensures !Matches(cb, r[j], other) {
        var n := c[if j == k then |r| else j];
        if Matches(cb, n, other) { MatchesAgree(cb, n, c[k], other, other); }
      }
      FirstMatchIs(cb, r, other, -1);
    }
  }
}
