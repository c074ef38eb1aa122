/**
 What the frequency-map constructor of `HuffmanTree` computes, stated over
 values: the list of keys `getKeys` copies out of the map, the floored maximum
 `getValMax` finds, and the leaves `(key, count)` the bucket pass inserts,
 count by count from 0 up to (but not including) that maximum.
 */
module LeafBuckets {
  import opened JavaTypes

  /** `HuffmanTree.Pair`: a symbol and its count. */
  datatype Pair = Pair(key: Short, val: Int32)

  /** `keys` lists every key of `m` exactly once and nothing else, in some
      order (the map's iteration order). */
  ghost predicate IsKeyList(keys: seq<Short>, m: map<Short, Int32>)
  {
    && (forall k :: k in keys <==> k in m)
    && (forall a, b :: 0 <= a < b < |keys| ==> keys[a] != keys[b])
  }

  /** `x` is the largest count of `m`, or 0 when there is no positive count. */
  ghost predicate IsFlooredMax(m: map<Short, Int32>, x: int)
  {
    && x >= 0
    && (forall k :: k in m ==> m[k] <= x)
    && (x == 0 || x in m.Values)
  }

  /** The floored maximum of a map is unique. */
  lemma FlooredMaxUnique(m: map<Short, Int32>, x: int, y: int)
    requires IsFlooredMax(m, x) && IsFlooredMax(m, y)
    ensures x == y
  {
    if y != 0 {
      var k :| k in m && m[k] == y;
      assert y <= x;
    }
    if x != 0 {
      var k :| k in m && m[k] == x;
      assert x <= y;
    }
  }

  /** The running maximum over the keys in list order, starting from 0. */
  function MaxOver(m: map<Short, Int32>, keys: seq<Short>): (r: Int32)
    requires forall k :: k in keys ==> k in m
    ensures r >= 0
  {
    if keys == [] then 0
    else
      var running := MaxOver(m, keys[..|keys| - 1]);
      if m[keys[|keys| - 1]] > running then m[keys[|keys| - 1]] else running
  }

  /** A running maximum over a list of all the keys is the floored maximum. */
  lemma {:induction false} MaxOverIsFlooredMax(m: map<Short, Int32>, keys: seq<Short>)
    requires forall k :: k in keys <==> k in m
    ensures IsFlooredMax(m, MaxOver(m, keys))
  {
    MaxOverBounds(m, keys);
  }

  lemma {:induction false} MaxOverBounds(m: map<Short, Int32>, keys: seq<Short>)
    requires forall k :: k in keys ==> k in m
    ensures MaxOver(m, keys) >= 0
    ensures forall k :: k in keys ==> m[k] <= MaxOver(m, keys)
    ensures MaxOver(m, keys) == 0 || MaxOver(m, keys) in m.Values
  {
    if keys != [] {
      var init := keys[..|keys| - 1];
      var last := keys[|keys| - 1];
      assert forall k :: k in keys <==> k in init || k == last;
      MaxOverBounds(m, init);
    }
  }

  /** Whatever order the keys are listed in, the running maximum over them
      is the floored maximum of the map. */
  lemma FlooredMaxIsMaxOver(m: map<Short, Int32>, keys: seq<Short>, x: int)
    requires IsKeyList(keys, m) && IsFlooredMax(m, x)
    ensures x == MaxOver(m, keys)
  {
    MaxOverIsFlooredMax(m, keys);
    FlooredMaxUnique(m, x, MaxOver(m, keys));
  }

  /** The leaves one pass of the inner loop adds for count `j`: one
      `Pair(key, j)` per listed key whose count is `j`, in list order. */
  function Bucket(m: map<Short, Int32>, keys: seq<Short>, j: Int32): seq<Pair>
    requires forall k :: k in keys ==> k in m
  {
    if keys == [] then []
    else
      var last := keys[|keys| - 1];
      Bucket(m, keys[..|keys| - 1], j) + (if m[last] == j then [Pair(last, j)] else [])
  }

  /** One more key of the list considered by the inner loop. */
  lemma BucketStep(m: map<Short, Int32>, keys: seq<Short>, i: nat, j: Int32)
    requires forall k :: k in keys ==> k in m
    requires i < |keys|
    ensures Bucket(m, keys[..i + 1], j)
      == Bucket(m, keys[..i], j) + (if m[keys[i]] == j then [Pair(keys[i], j)] else [])
  {
    assert keys[..i + 1][..i] == keys[..i];
  }

  /** The leaves the outer loop has added once counts 0 .. n-1 are done. */
  function Buckets(m: map<Short, Int32>, keys: seq<Short>, n: nat): seq<Pair>
    requires forall k :: k in keys ==> k in m
    requires n <= 0x8000_0000
  {
    if n == 0 then [] else Buckets(m, keys, n - 1) + Bucket(m, keys, n - 1)
  }

  /** Finishing count `n` appends its bucket. */
  lemma BucketsNext(m: map<Short, Int32>, keys: seq<Short>, n: nat)
    requires forall k :: k in keys ==> k in m
    requires n < 0x8000_0000
    ensures Buckets(m, keys, n + 1) == Buckets(m, keys, n) + Bucket(m, keys, n)
  {
  }

  /** The leaves the frequency-map constructor inserts, given the order in
      which the map yields its keys. */
  function InsertedLeaves(m: map<Short, Int32>, keys: seq<Short>): seq<Pair>
    requires forall k :: k in keys ==> k in m
  {
    Buckets(m, keys, MaxOver(m, keys))
  }

  /** How many leaves in `ps` carry key `k`. */
  function KeyCount(ps: seq<Pair>, k: Short): nat
  {
    if ps == [] then 0
    else KeyCount(ps[..|ps| - 1], k) + (if ps[|ps| - 1].key == k then 1 else 0)
  }

  lemma {:induction false} KeyCountAppend(a: seq<Pair>, b: seq<Pair>, k: Short)
    ensures KeyCount(a + b, k) == KeyCount(a, k) + KeyCount(b, k)
  {
    if b != [] {
      assert (a + b)[..|a + b| - 1] == a + b[..|b| - 1];
      assert (a + b)[|a + b| - 1] == b[|b| - 1];
      KeyCountAppend(a, b[..|b| - 1], k);
    } else {
      assert a + b == a;
    }
  }

  /** Each leaf of a bucket is `Pair(k, j)` for a listed key `k` of count `j`. */
  lemma {:induction false} BucketSound(m: map<Short, Int32>, keys: seq<Short>, j: Int32)
    requires forall k :: k in keys ==> k in m
    ensures forall i :: 0 <= i < |Bucket(m, keys, j)| ==>
      var p := Bucket(m, keys, j)[i]; p.key in keys && p.val == j && m[p.key] == j
  {
    if keys != [] {
      var init := keys[..|keys| - 1];
      BucketSound(m, init, j);
      assert forall k :: k in init ==> k in keys;
    }
  }

  /** A listed key of count `j` has exactly one leaf in the bucket for `j`,
      any other key none. */
  lemma {:induction false} BucketKeyCount(m: map<Short, Int32>, keys: seq<Short>, j: Int32, k: Short)
    requires forall k :: k in keys ==> k in m
    requires forall a, b :: 0 <= a < b < |keys| ==> keys[a] != keys[b]
    ensures KeyCount(Bucket(m, keys, j), k) == if k in keys && m[k] == j then 1 else 0
  {
    if keys != [] {
      var init := keys[..|keys| - 1];
      var last := keys[|keys| - 1];
      assert last !in init by {
        forall a | 0 <= a < |init|
          ensures init[a] != last
        {
          assert init[a] == keys[a];
        }
      }
      assert k in keys <==> k in init || k == last;
      BucketKeyCount(m, init, j, k);
      var front := Bucket(m, init, j);
      if m[last] == j {
        assert (front + [Pair(last, j)])[..|front|] == front;
      } else {
        assert Bucket(m, keys, j) == front;
      }
    }
  }

  /** Within one bucket, leaves follow the order of the key list. */
  lemma {:induction false} BucketKeyOrder(m: map<Short, Int32>, keys: seq<Short>, j: Int32)
    requires forall k :: k in keys ==> k in m
    requires forall a, b :: 0 <= a < b < |keys| ==> keys[a] != keys[b]
    ensures forall a, b, ia, ib ::
      && 0 <= a < b < |Bucket(m, keys, j)|
      && 0 <= ia < |keys| && 0 <= ib < |keys|
      && keys[ia] == Bucket(m, keys, j)[a].key
      && keys[ib] == Bucket(m, keys, j)[b].key
      ==> ia < ib
  {
    if keys != [] {
      var init := keys[..|keys| - 1];
      var last := keys[|keys| - 1];
      var front := Bucket(m, init, j);
      var whole := Bucket(m, keys, j);
      BucketKeyOrder(m, init, j);
      BucketSound(m, init, j);
      forall a, b, ia, ib |
        && 0 <= a < b < |whole|
        && 0 <= ia < |keys| && 0 <= ib < |keys|
        && keys[ia] == whole[a].key
        && keys[ib] == whole[b].key
        ensures ia < ib
      {
        assert whole[a] == front[a];
        assert whole[a].key in init;
        if ia == |keys| - 1 {
          assert false;
        }
        if b < |front| {
          assert whole[b] == front[b];
          assert whole[b].key in init;
          if ib == |keys| - 1 {
            assert false;
          }
          assert init[ia] == keys[ia] && init[ib] == keys[ib];
        } else {
          assert whole[b].key == last;
          assert ib == |keys| - 1;
        }
      }
    }
  }

  /** Each inserted leaf is `Pair(k, c)` for a key `k` whose count `c` lies in
      [0, n). */
  lemma {:induction false} BucketsSound(m: map<Short, Int32>, keys: seq<Short>, n: nat)
    requires forall k :: k in keys ==> k in m
    requires n <= 0x8000_0000
    ensures forall i :: 0 <= i < |Buckets(m, keys, n)| ==>
      var p := Buckets(m, keys, n)[i]; p.key in keys && m[p.key] == p.val && 0 <= p.val < n
  {
    if n > 0 {
      BucketsSound(m, keys, n - 1);
      BucketSound(m, keys, n - 1);
    }
  }

  /** Exactly one leaf per listed key whose count lies in [0, n), none for
      any other key. */
  lemma {:induction false} BucketsKeyCount(m: map<Short, Int32>, keys: seq<Short>, n: nat, k: Short)
    requires forall k :: k in keys ==> k in m
    requires forall a, b :: 0 <= a < b < |keys| ==> keys[a] != keys[b]
    requires n <= 0x8000_0000
    ensures KeyCount(Buckets(m, keys, n), k) == if k in keys && 0 <= m[k] < n then 1 else 0
  {
    if n > 0 {
      BucketsKeyCount(m, keys, n - 1, k);
      BucketKeyCount(m, keys, n - 1, k);
      KeyCountAppend(Buckets(m, keys, n - 1), Bucket(m, keys, n - 1), k);
    }
  }

  /** Leaves come out in non-decreasing order of count. */
  lemma {:induction false} BucketsSorted(m: map<Short, Int32>, keys: seq<Short>, n: nat)
    requires forall k :: k in keys ==> k in m
    requires n <= 0x8000_0000
    ensures forall a, b :: 0 <= a < b < |Buckets(m, keys, n)| ==>
      Buckets(m, keys, n)[a].val <= Buckets(m, keys, n)[b].val
  {
    if n > 0 {
      BucketsSorted(m, keys, n - 1);
      BucketsSound(m, keys, n - 1);
      BucketSound(m, keys, n - 1);
    }
  }

  /** Leaves of equal count come out in the order of the key list. */
  lemma {:induction false} BucketsKeyOrder(m: map<Short, Int32>, keys: seq<Short>, n: nat)
    requires forall k :: k in keys ==> k in m
    requires forall a, b :: 0 <= a < b < |keys| ==> keys[a] != keys[b]
    requires n <= 0x8000_0000
    ensures forall a, b, ia, ib ::
      && 0 <= a < b < |Buckets(m, keys, n)|
      && Buckets(m, keys, n)[a].val == Buckets(m, keys, n)[b].val
      && 0 <= ia < |keys| && 0 <= ib < |keys|
      && keys[ia] == Buckets(m, keys, n)[a].key
      && keys[ib] == Buckets(m, keys, n)[b].key
      ==> ia < ib
  {
    if n > 0 {
      var front := Buckets(m, keys, n - 1);
      var back := Bucket(m, keys, n - 1);
      var whole := Buckets(m, keys, n);
      BucketsKeyOrder(m, keys, n - 1);
      BucketKeyOrder(m, keys, n - 1);
      BucketsSound(m, keys, n - 1);
      BucketSound(m, keys, n - 1);
      forall a, b, ia, ib |
        && 0 <= a < b < |whole|
        && whole[a].val == whole[b].val
        && 0 <= ia < |keys| && 0 <= ib < |keys|
        && keys[ia] == whole[a].key
        && keys[ib] == whole[b].key
        ensures ia < ib
      {
        if b < |front| {
          assert whole[a] == front[a] && whole[b] == front[b];
        } else if a < |front| {
          assert false;
        } else {
          assert whole[a] == back[a - |front|] && whole[b] == back[b - |front|];
        }
      }
    }
  }

  /** The bucket pass of the frequency-map constructor, for a map yielding its
      keys in the order `keys`: exactly one leaf `Pair(k, m[k])` for every key
      whose count lies in [0, max), no other leaf, counts non-decreasing, and
      keys of equal count in key-list order. A key holding the maximum count
      gets no leaf. */
  lemma InsertedLeavesSpec(m: map<Short, Int32>, keys: seq<Short>)
    requires IsKeyList(keys, m)
    ensures var leaves := InsertedLeaves(m, keys);
      && (forall i :: 0 <= i < |leaves| ==>
            leaves[i].key in m && leaves[i].val == m[leaves[i].key]
            && 0 <= leaves[i].val < MaxOver(m, keys))
      && (forall k :: k in m ==>
            KeyCount(leaves, k) == if 0 <= m[k] < MaxOver(m, keys) then 1 else 0)
      && (forall a, b :: 0 <= a < b < |leaves| ==> leaves[a].val <= leaves[b].val)
      && (forall a, b, ia, ib ::
            && 0 <= a < b < |leaves| && leaves[a].val == leaves[b].val
            && 0 <= ia < |keys| && 0 <= ib < |keys|
            && keys[ia] == leaves[a].key && keys[ib] == leaves[b].key
            ==> ia < ib)
  {
    var n := MaxOver(m, keys);
    BucketsSound(m, keys, n);
    forall k | k in m
      ensures KeyCount(Buckets(m, keys, n), k) == if 0 <= m[k] < n then 1 else 0
    {
      BucketsKeyCount(m, keys, n, k);
    }
    BucketsSorted(m, keys, n);
    BucketsKeyOrder(m, keys, n);
  }

  /** A key whose count equals the maximum never gets a leaf. */
  lemma MaxKeyNotInserted(m: map<Short, Int32>, keys: seq<Short>, k: Short)
    requires IsKeyList(keys, m)
    requires k in m && IsFlooredMax(m, m[k])
    ensures KeyCount(InsertedLeaves(m, keys), k) == 0
  {
    MaxOverIsFlooredMax(m, keys);
    FlooredMaxUnique(m, m[k], MaxOver(m, keys));
    BucketsKeyCount(m, keys, MaxOver(m, keys), k);
  }

  /** No key has count `j`: the bucket for `j` is empty. */
  lemma {:induction false} BucketEmpty(m: map<Short, Int32>, keys: seq<Short>, j: Int32)
    requires forall k :: k in keys ==> k in m && m[k] != j
    ensures Bucket(m, keys, j) == []
  {
    if keys != [] {
      BucketEmpty(m, keys[..|keys| - 1], j);
    }
  }

  /** No key has a count in [0, n): no leaf is inserted. */
  lemma {:induction false} BucketsEmpty(m: map<Short, Int32>, keys: seq<Short>, n: nat)
    requires forall k :: k in keys ==> k in m && !(0 <= m[k] < n)
    requires n <= 0x8000_0000
    ensures Buckets(m, keys, n) == []
  {
    if n > 0 {
      BucketsEmpty(m, keys, n - 1);
      BucketEmpty(m, keys, n - 1);
    }
  }

  /** A map whose counts are all equal (a single key, in particular) makes
      the constructor insert no leaf at all. */
  lemma EqualCountsNoLeaves(m: map<Short, Int32>, keys: seq<Short>)
    requires IsKeyList(keys, m)
    requires forall k, k' :: k in m && k' in m ==> m[k] == m[k']
    ensures InsertedLeaves(m, keys) == []
  {
    var n := MaxOver(m, keys);
    MaxOverIsFlooredMax(m, keys);
    if n != 0 {
      var top :| top in m && m[top] == n;
    }
    BucketsEmpty(m, keys, n);
  }

  /** Counts {65: 3, 66: 1, 67: 2, 68: 0} listed in key order: the maximum 3
      is found, the keys of counts 0, 1 and 2 get a leaf each, in count order,
      and key 65, holding the maximum, gets none. */
  lemma InsertedLeavesExample()
    ensures InsertedLeaves(map[65 := 3, 66 := 1, 67 := 2, 68 := 0], [65, 66, 67, 68])
      == [Pair(68, 0), Pair(66, 1), Pair(67, 2)]
  {
    var m: map<Short, Int32> := map[65 := 3, 66 := 1, 67 := 2, 68 := 0];
    var keys: seq<Short> := [65, 66, 67, 68];
    ExampleMax();
    ExampleBucket(0, Pair(68, 0));
    ExampleBucket(1, Pair(66, 1));
    ExampleBucket(2, Pair(67, 2));
    assert Buckets(m, keys, 1) == [Pair(68, 0)];
    assert Buckets(m, keys, 2) == [Pair(68, 0), Pair(66, 1)];
  }

  lemma ExampleMax()
    ensures MaxOver(map[65 := 3, 66 := 1, 67 := 2, 68 := 0], [65, 66, 67, 68]) == 3
  {
    var m: map<Short, Int32> := map[65 := 3, 66 := 1, 67 := 2, 68 := 0];
    var k4: seq<Short> := [65, 66, 67, 68];
    assert k4[..1][..0] == [] && k4[..2][..1] == k4[..1] && k4[..3][..2] == k4[..2];
    assert k4[..4] == k4 && k4[..3] == [65, 66, 67];
    assert MaxOver(m, k4[..1]) == 3;
    assert MaxOver(m, k4[..2]) == 3;
    assert MaxOver(m, k4[..3]) == 3;
  }

  lemma ExampleBucket(j: Int32, p: Pair)
    requires p in [Pair(68, 0), Pair(66, 1), Pair(67, 2)] && p.val == j
    ensures Bucket(map[65 := 3, 66 := 1, 67 := 2, 68 := 0], [65, 66, 67, 68], j) == [p]
  {
    var m: map<Short, Int32> := map[65 := 3, 66 := 1, 67 := 2, 68 := 0];
    var k4: seq<Short> := [65, 66, 67, 68];
    assert k4[..1][..0] == [] && k4[..2][..1] == k4[..1] && k4[..3][..2] == k4[..2];
    assert k4[..3] == [65, 66, 67];
    assert Bucket(m, k4[..1], j) == [];
    assert Bucket(m, k4[..2], j) == if j == 1 then [p] else [];
    assert Bucket(m, k4[..3], j) == if j == 0 then [] else [p];
  }
}
