/** The hashmap of lib/ds/hashmap.c: a growable array of growable arrays of nodes. */
module Hashmaps {
  import opened Common
  import opened Chains
  import opened DynamicArray

  const DEFAULT_NUMBER_OF_BUCKETS: nat := 100

  type Bucket<K, D> = Darray<HashmapNode?<K, D>>

  class Hashmap<K, D> {
    const cb: Callbacks<K>
    const numBuckets: nat
    const buckets: Darray<Darray?<HashmapNode?<K, D>>>
    ghost var chains: seq<Chain<K, D>>
    ghost var Repr: set<object>

    /** Bucket i is null or a separate array that holds chain i. */
    ghost predicate Holds(i: nat)
      reads this, Repr
    {
      && buckets in Repr && buckets.contents in Repr
      && i < buckets.contents.Length && i < |chains|
      && var b := buckets.contents[i];
      if b == null then chains[i] == []
      else
        && b in Repr && b.contents in Repr && b.Valid() && b.nil == null
        && b.end == |chains[i]|
        && (forall j {:trigger b.contents[j]} {:trigger chains[i][j]} | 0 <= j < b.end :: b.contents[j] == chains[i][j])
    }

    ghost predicate Separate()
      reads this, Repr
    {
      && buckets in Repr && buckets.contents in Repr
      && (forall i, j | 0 <= i < j < buckets.contents.Length ::
            var b, c := buckets.contents[i], buckets.contents[j];
            b != null && c != null && b in Repr && c in Repr ==> b != c && b.contents != c.contents)
    }

    ghost predicate Shape()
      reads this, Repr
    {
      && this in Repr && buckets in Repr && buckets.contents in Repr
      && buckets.InBounds() && buckets.end == buckets.max == numBuckets == |chains| > 0 && buckets.nil == null
      && (forall i | 0 <= i < numBuckets :: Holds(i))
      && Separate()
    }

    ghost predicate Valid()
      reads this, Repr
    {
      Shape() && Placed(cb, chains)
    }

    /** Hashmap_create */
    constructor (cb: Callbacks<K>, initialSize: nat)
      ensures Valid() && fresh(Repr) && this.cb == cb
      ensures numBuckets == if initialSize > 0 then initialSize else DEFAULT_NUMBER_OF_BUCKETS
      ensures Flat(chains) == []
    {
      this.cb := cb;
      var n := if initialSize > 0 then initialSize else DEFAULT_NUMBER_OF_BUCKETS;
      numBuckets := n;
      var bs := new Darray<Darray?<HashmapNode?<K, D>>>(null, n);
      buckets := bs;
      chains := seq(n, _ => []);
      new;
      buckets.end := buckets.max;
      Repr := {this, buckets, buckets.contents};
      FlatOfEmpty(chains);
    }

    /** The bucket that Hashmap_find_bucket sets up. */
    method NewBucket(i: nat) returns (bucket: Bucket<K, D>)
      requires Shape() && i < numBuckets && buckets.contents[i] == null
      modifies this`Repr, buckets`end, buckets.contents
      ensures Shape() && fresh(Repr - old(Repr)) && old(Repr) <= Repr
      ensures bucket == buckets.contents[i]
    {
      assert Holds(i);
      bucket := new Darray(null, numBuckets);
      buckets.Set(i, bucket);
      Repr := Repr + {bucket, bucket.contents};
      assert forall j | 0 <= j < numBuckets && j != i :: old(Holds(j)) ==> Holds(j);
    }

    /** Hashmap_find_bucket */
    method FindBucket(key: K, create: bool) returns (bucket: Darray?<HashmapNode?<K, D>>, hash: uint32, ghost i: nat)
      requires Valid()
      modifies this`Repr, buckets`end, buckets.contents
      ensures Valid() && fresh(Repr - old(Repr)) && old(Repr) <= Repr && chains == old(chains)
      ensures hash == cb.hash(key) && i == BucketOf(cb, numBuckets, key) == hash % numBuckets
      ensures bucket == buckets.contents[i] && (create ==> bucket != null)
    {
      hash := cb.hash(key);
      var bucketIndex := hash % numBuckets;
      i := bucketIndex;
      bucket := buckets.Get(bucketIndex);
      if bucket == null && create {
        bucket := NewBucket(bucketIndex);
      }
    }

    /** Hashmap_get_node */
    method GetNode(hash: uint32, bucket: Bucket<K, D>, key: K, ghost c: Chain<K, D>) returns (i: int)
      requires bucket.Valid() && bucket.end == |c| && hash == cb.hash(key)
      requires forall j {:trigger bucket.contents[j]} {:trigger c[j]} | 0 <= j < bucket.end ::
                 bucket.contents[j] == c[j]
      ensures i == FirstMatch(cb, c, key)
    {
      for k := 0 to bucket.end
        invariant forall j | 0 <= j < k :: !Matches(cb, c[j], key)
      {
        var node := bucket.Get(k);
        if node.hash == hash && cb.compare(node.key, key) == 0 {
          FirstMatchIs(cb, c, key, k);
          return k;
        }
      }
      FirstMatchIs(cb, c, key, -1);
      return -1;
    }

    /** The push of Hashmap_set. */
    method PushInto(ghost i: nat, bucket: Bucket<K, D>, n: HashmapNode<K, D>)
      requires Shape() && i < numBuckets && buckets.contents[i] == bucket
      modifies this`Repr, this`chains, bucket, bucket.contents
      ensures Shape() && fresh(Repr - old(Repr))
      ensures chains == old(chains)[i := old(chains)[i] + [n]]
    {
      assert Holds(i);
      bucket.Push(n);
      chains := chains[i := chains[i] + [n]];
      Repr := Repr + {bucket.contents};
      assert Holds(i);
      assert forall j | 0 <= j < numBuckets && j != i :: old(Holds(j)) ==> Holds(j);
    }

    /** Hashmap_set: adds an entry at the end of its chain, whatever is there already. */
    method Set(key: K, data: D) returns (ghost node: HashmapNode<K, D>)
      requires Valid()
      modifies this, Repr
      ensures Valid() && fresh(Repr - old(Repr))
      ensures fresh(node) && node.key == key && node.data == data && node.hash == cb.hash(key)
      ensures chains == Added(cb, old(chains), node)
      ensures multiset(Flat(chains)) == multiset(Flat(old(chains))) + multiset{node}
    {
      var bucket, hash, i := FindBucket(key, true);
      assert Holds(i);
      var n := new HashmapNode(hash, key, data);
      node := n;
      assert forall j | 0 <= j < numBuckets :: n !in chains[j];
      FlatMember(chains, n);
      SetAddsOne(cb, chains, n);
      PushInto(i, bucket, n);
    }

    /** Hashmap_get: None stands for the null pointer. */
    method Get(key: K) returns (r: Option<D>)
      requires Valid()
      modifies this`Repr, buckets`end, buckets.contents
      ensures Valid() && fresh(Repr - old(Repr)) && chains == old(chains)
      ensures r == match Lookup(cb, chains, key) case None => None case Some(n) => Some(n.data)
    {
      var bucket, hash, b := FindBucket(key, false);
      assert Holds(b);
      if bucket == null {
        return None;
      }
      var i := GetNode(hash, bucket, key, chains[b]);
      if i == -1 {
        return None;
      }
      var node := bucket.Get(i);
      return Some(node.data);
    }

    /** The inner loop of Hashmap_traverse, after the callback has seen all of `seen`. */
    method TraverseBucket<S>(traverseCb: (S, HashmapNode<K, D>) -> (S, int), s0: S, before: S,
                             bucket: Bucket<K, D>, ghost seen: Chain<K, D>, ghost c: Chain<K, D>)
      returns (rc: int, s: S)
      requires bucket.Valid() && bucket.end == |c|
      requires forall j {:trigger bucket.contents[j]} {:trigger c[j]} | 0 <= j < bucket.end ::
                 bucket.contents[j] == c[j]
      requires Visit(traverseCb, s0, seen) == Visited(0, before, |seen|)
      ensures var v := Visit(traverseCb, s0, seen + c); rc == v.rc && s == v.state
    {
      s := before;
      assert seen + c[..0] == seen;
      for j := 0 to bucket.end
        invariant Visit(traverseCb, s0, seen + c[..j]) == Visited(0, s, |seen| + j)
      {
        var node := bucket.Get(j);
        assert seen + c[..j + 1] == seen + c[..j] + [node];
        VisitNext(traverseCb, s0, seen + c[..j], node);
        var (s', r) := traverseCb(s, node);
        s := s';
        if r != 0 {
          assert seen + c[..j + 1] <= seen + c;
          VisitStops(traverseCb, s0, seen + c[..j + 1], seen + c);
          return r, s;
        }
      }
      assert c[..bucket.end] == c;
      return 0, s;
    }

    /** Hashmap_traverse: the callback sees every entry once, until it returns something other
        than 0. */
    method Traverse<S>(traverseCb: (S, HashmapNode<K, D>) -> (S, int), s0: S) returns (rc: int, s: S)
      requires Valid()
      ensures var v := Visit(traverseCb, s0, Flat(chains)); rc == v.rc && s == v.state
    {
      s := s0;
      for i := 0 to buckets.end
        invariant Visit(traverseCb, s0, Flat(chains[..i])) == Visited(0, s, |Flat(chains[..i])|)
      {
        var bucket := buckets.Get(i);
        assert Holds(i);
        FlatNext(chains, i);
        if bucket == null {
          assert Flat(chains[..i]) + [] == Flat(chains[..i]);
        } else {
          rc, s := TraverseBucket(traverseCb, s0, s, bucket, Flat(chains[..i]), chains[i]);
          if rc != 0 {
            FlatPrefix(chains, i + 1);
            VisitStops(traverseCb, s0, Flat(chains[..i + 1]), Flat(chains));
            return;
          }
        }
      }
      assert chains[..buckets.end] == chains;
      rc := 0;
    }

    /** The pop of Hashmap_delete, and its swap of the last node into the gap. */
    method SwapRemove(bucket: Bucket<K, D>, i: nat, ghost c: Chain<K, D>) returns (node: HashmapNode<K, D>)
      requires bucket.Valid() && bucket.end == |c| && i < |c|
      requires forall j {:trigger bucket.contents[j]} {:trigger c[j]} | 0 <= j < |c| :: bucket.contents[j] == c[j]
      requires forall j, k | 0 <= j < k < |c| :: c[j] != c[k]
      modifies bucket, bucket.contents
      ensures bucket.Valid() && (bucket.contents == old(bucket.contents) || fresh(bucket.contents))
      ensures node == c[i] && bucket.end == |c| - 1
      ensures var r := SwapRemoved(c, i); forall j | 0 <= j < |r| :: bucket.contents[j] == r[j]
    {
      node := bucket.Get(i);
      ghost var s := bucket.Elements();
      var ending := bucket.Pop();
      assert ending == s[|c| - 1] && forall j | 0 <= j < |c| - 1 :: bucket.Elements()[j] == s[j];
      if ending != node {
        bucket.Set(i, ending);
      }
    }

    method RemoveFrom(ghost b: nat, bucket: Bucket<K, D>, i: nat) returns (node: HashmapNode<K, D>)
      requires Valid() && b < numBuckets && buckets.contents[b] == bucket && i < |chains[b]|
      modifies this`Repr, this`chains, bucket, bucket.contents
      ensures Shape() && fresh(Repr - old(Repr))
      ensures chains == old(chains)[b := SwapRemoved(old(chains)[b], i)] && node == old(chains)[b][i]
    {
      assert Holds(b) && ChainOk(cb, numBuckets, b, chains[b]);
      node := SwapRemove(bucket, i, chains[b]);
      chains := chains[b := SwapRemoved(chains[b], i)];
      Repr := Repr + {bucket.contents};
      assert Holds(b);
      assert forall j | 0 <= j < numBuckets && j != b :: old(Holds(j)) ==> Holds(j);
    }

    /** Hashmap_delete behind the search for the bucket; cs is what the map holds. */
    method DeleteIn(ghost b: nat, bucket: Bucket<K, D>, hash: uint32, key: K, ghost cs: seq<Chain<K, D>>)
      returns (r: Option<D>)
      requires Valid() && cs == chains && b == BucketOf(cb, numBuckets, key) && hash == cb.hash(key)
      requires buckets.contents[b] == bucket
      modifies this`Repr, this`chains, bucket, bucket.contents
      ensures Valid() && fresh(Repr - old(Repr))
      ensures chains == Deleted(cb, cs, key)
      ensures r == match Lookup(cb, cs, key) case None => None case Some(n) => Some(n.data)
    {
      assert Holds(b);
      var i := GetNode(hash, bucket, key, chains[b]);
      DeleteRemovesLookup(cb, cs, key);
      r := None;
      if i != -1 {
        var node := RemoveFrom(b, bucket, i);
        r := Some(node.data);
      }
    }

    /** Hashmap_delete: what it removes is what Hashmap_get would have found. */
    method Delete(key: K) returns (r: Option<D>)
      requires Valid()
      modifies this, Repr
      ensures Valid() && fresh(Repr - old(Repr))
      ensures chains == Deleted(cb, old(chains), key)
      ensures r == match Lookup(cb, old(chains), key) case None => None case Some(n) => Some(n.data)
    {
      var bucket, hash, b := FindBucket(key, false);
      assert Holds(b);
      if bucket == null {
        return None;
      }
      r := DeleteIn(b, bucket, hash, key, chains);
    }
  }

  lemma {:induction false} FlatOfEmpty<K, D>(cs: seq<Chain<K, D>>)
    requires forall i | 0 <= i < |cs| :: cs[i] == []
    ensures Flat(cs) == []
  {
    if cs != [] {
      FlatOfEmpty(cs[..|cs| - 1]);
    }
  }

  lemma FlatNext<K, D>(cs: seq<Chain<K, D>>, i: nat)
    requires i < |cs|
    ensures Flat(cs[..i + 1]) == Flat(cs[..i]) + cs[i]
  {
    assert cs[..i + 1][..i] == cs[..i];
  }

  lemma {:induction false} FlatPrefix<K, D>(cs: seq<Chain<K, D>>, n: nat)
    requires n <= |cs|
    ensures Flat(cs[..n]) <= Flat(cs)
    decreases |cs|
  {
    if n < |cs| {
      assert cs[..|cs| - 1][..n] == cs[..n];
      FlatPrefix(cs[..|cs| - 1], n);
    } else {
      assert cs[..n] == cs;
    }
  }
}
