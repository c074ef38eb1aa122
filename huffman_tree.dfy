/**
 The `HuffmanTree` class: its nodes, the two map helpers `getKeys` and
 `getValMax`, the bucket pass of the frequency-map constructor that fills the
 priority-queue field `freq` with leaves, and `encode`.

 The queue `freq` is kept as the sequence of nodes in the order they were
 added; the queue's own ordering is not part of this model.
 */
module Huffman {
  import opened JavaTypes
  import opened LeafBuckets

  /** `HuffmanTree.Node`: every field is set once, by a constructor, and never
      changed afterwards. A field the constructor leaves alone stays `null`. */
  class Node {
    const leafPairR: Node?
    const leafPairL: Node?
    const leafIntR: Option<Int32>
    const leafIntL: Option<Int32>
    const val: Option<Int32>
    const value: Option<Pair>

    /** A leaf built by `Node(Pair)`: it holds the pair and nothing else, not
        even a weight. */
    predicate IsLeafOf(p: Pair)
    {
      && value == Some(p)
      && val == None
      && leafPairR == null && leafPairL == null
      && leafIntR == None && leafIntL == None
    }

    /** `Node(Node leafR, Node leafL)`; unboxing a `null` weight throws, so
        both children must carry one. */
    constructor Join(leafR: Node, leafL: Node)
      requires leafR.val.Some? && leafL.val.Some?
      ensures leafPairR == leafR && leafPairL == leafL
      ensures leafIntR == None && leafIntL == None && value == None
      ensures val == Some(Wrap32(leafL.val.get + leafR.val.get))
    {
      leafPairL := leafL;
      leafPairR := leafR;
      leafIntR := None;
      leafIntL := None;
      value := None;
      val := Some(Wrap32(leafL.val.get + leafR.val.get));
    }

    /** `Node(int leafR, Node leafL)`. */
    constructor JoinWeightNode(leafR: Int32, leafL: Node)
      requires leafL.val.Some?
      ensures leafIntR == Some(leafR) && leafPairL == leafL
      ensures leafPairR == null && leafIntL == None && value == None
      ensures val == Some(Wrap32(leafL.val.get + leafR))
    {
      leafPairL := leafL;
      leafIntR := Some(leafR);
      leafPairR := null;
      leafIntL := None;
      value := None;
      val := Some(Wrap32(leafL.val.get + leafR));
    }

    /** `Node(Node leafR, int leafL)`. */
    constructor JoinNodeWeight(leafR: Node, leafL: Int32)
      requires leafR.val.Some?
      ensures leafPairR == leafR && leafIntL == Some(leafL)
      ensures leafPairL == null && leafIntR == None && value == None
      ensures val == Some(Wrap32(leafL + leafR.val.get))
    {
      leafIntL := Some(leafL);
      leafPairR := leafR;
      leafPairL := null;
      leafIntR := None;
      value := None;
      val := Some(Wrap32(leafL + leafR.val.get));
    }

    /** `Node(int leafR, int leafL)`. */
    constructor JoinWeights(leafR: Int32, leafL: Int32)
      ensures leafIntR == Some(leafR) && leafIntL == Some(leafL)
      ensures leafPairR == null && leafPairL == null && value == None
      ensures val == Some(Wrap32(leafL + leafR))
    {
      leafIntL := Some(leafL);
      leafIntR := Some(leafR);
      leafPairR := null;
      leafPairL := null;
      value := None;
      val := Some(Wrap32(leafL + leafR));
    }

    /** `Node(Pair leaf)`: stores the pair; the weight stays `null`. */
    constructor Leaf(leaf: Pair)
      ensures IsLeafOf(leaf)
    {
      value := Some(leaf);
      val := None;
      leafPairR := null;
      leafPairL := null;
      leafIntR := None;
      leafIntL := None;
    }

    /** `Node(int leaf)`: a bare weight. */
    constructor Weight(leaf: Int32)
      ensures val == Some(leaf) && value == None
      ensures leafPairR == null && leafPairL == null
      ensures leafIntR == None && leafIntL == None
    {
      val := Some(leaf);
      value := None;
      leafPairR := null;
      leafPairL := null;
      leafIntR := None;
      leafIntL := None;
    }
  }

  /** `nodes` are leaves holding the pairs `ps`, position by position. */
  predicate LeavesHold(nodes: seq<Node>, ps: seq<Pair>)
  {
    |nodes| == |ps| && forall i :: 0 <= i < |nodes| ==> nodes[i].IsLeafOf(ps[i])
  }

  lemma LeavesHoldAppend(nodes: seq<Node>, ps: seq<Pair>, n: Node, p: Pair)
    requires LeavesHold(nodes, ps) && n.IsLeafOf(p)
    ensures LeavesHold(nodes + [n], ps + [p])
  {
  }

  class HuffmanTree {
    /** The priority queue, as the nodes added to it in order. */
    var freq: seq<Node>
    /** The pairs held by the nodes of `freq`, in the same order. */
    ghost var queued: seq<Pair>
    /** The order in which the frequency map yielded its keys to `getKeys`
        when this tree was built. */
    ghost const keyOrder: seq<Short>

    /** Every node in the queue is a leaf built by `Node(Pair)`. */
    ghost predicate Valid()
      reads this
    {
      LeavesHold(freq, queued)
    }

    /** `getKeys`: copies the key set into a list, in the map's (unspecified)
        iteration order. */
    static method GetKeys(data: map<Short, Int32>) returns (l: seq<Short>)
      ensures IsKeyList(l, data)
      ensures |l| == |data|
    {
      l := [];
      var rest := data.Keys;
      while rest != {}
        invariant forall k :: k in data <==> k in l || k in rest
        invariant forall k :: k in l ==> k !in rest
        invariant rest <= data.Keys
        invariant forall a, b :: 0 <= a < b < |l| ==> l[a] != l[b]
        invariant |l| + |rest| == |data|
        decreases |rest|
      {
        var k :| k in rest;
        l := l + [k];
        rest := rest - {k};
      }
    }

    /** `getValMax`: the largest count, starting from 0. The map is a value
        here, so it is left as it was. */
    static method GetValMax(freqs: map<Short, Int32>) returns (max: Int32)
      ensures IsFlooredMax(freqs, max)
    {
      var keyList := GetKeys(freqs);
      max := 0;
      var i := 0;
      while i < |freqs|
        invariant 0 <= i <= |keyList|
        invariant max == MaxOver(freqs, keyList[..i])
      {
        assert keyList[..i + 1][..i] == keyList[..i];
        if freqs[keyList[i]] > max {
          max := freqs[keyList[i]];
        }
        i := i + 1;
      }
      assert keyList[..i] == keyList;
      MaxOverIsFlooredMax(freqs, keyList);
    }

    /** `HuffmanTree(Map)`, up to the merge loop: for every count j from 0 up
        to, but not including, `getValMax(freqs)`, add a leaf `Pair(key, j)`
        for each key of count j, in key-list order. */
    constructor FromFrequencies(freqs: map<Short, Int32>)
      ensures Valid()
      ensures IsKeyList(keyOrder, freqs)
      ensures queued == InsertedLeaves(freqs, keyOrder)
    {
      var keyList := GetKeys(freqs);
      keyOrder := keyList;
      freq := [];
      queued := [];
      new;
      MaxOverIsFlooredMax(freqs, keyList);
      InsertLeaves(freqs, keyList);
    }

    /** The constructor's outer loop: counts 0, 1, ... up to, but not
        including, `getValMax(freqs)`, which is evaluated again before each
        pass. */
    method InsertLeaves(freqs: map<Short, Int32>, keyList: seq<Short>)
      requires Valid() && queued == []
      requires |keyList| == |freqs| && forall k :: k in keyList ==> k in freqs
      requires IsFlooredMax(freqs, MaxOver(freqs, keyList))
      modifies this
      ensures Valid()
      ensures queued == InsertedLeaves(freqs, keyList)
    {
      ghost var top := MaxOver(freqs, keyList);
      var j: Int32 := 0;
      var bound := GetValMax(freqs);
      FlooredMaxUnique(freqs, bound, top);
      while j < bound
        invariant 0 <= j <= bound == top
        invariant Valid() && queued == Buckets(freqs, keyList, j)
      {
        InsertCount(freqs, keyList, j);
        BucketsNext(freqs, keyList, j);
        j := j + 1;
        bound := GetValMax(freqs);
        FlooredMaxUnique(freqs, bound, top);
      }
    }

    /** One pass of the constructor's inner loop: a leaf `Pair(key, j)` is
        added for each key of the list, in list order, whose count is `j`. */
    method InsertCount(freqs: map<Short, Int32>, keyList: seq<Short>, j: Int32)
      requires Valid()
      requires |keyList| == |freqs| && forall k :: k in keyList ==> k in freqs
      modifies this
      ensures Valid()
      ensures queued == old(queued) + Bucket(freqs, keyList, j)
    {
      var i := 0;
      while i < |freqs|
        invariant 0 <= i <= |keyList|
        invariant Valid()
        invariant queued == old(queued) + Bucket(freqs, keyList[..i], j)
      {
        BucketStep(freqs, keyList, i, j);
        if freqs[keyList[i]] == j {
          var leaf := new Node.Leaf(Pair(keyList[i], j));
          LeavesHoldAppend(freq, queued, leaf, Pair(keyList[i], j));
          freq := freq + [leaf];
          queued := queued + [Pair(keyList[i], j)];
        }
        i := i + 1;
      }
      assert keyList[..i] == keyList;
    }

    /** `encode`: every 8-bit group read from the input is written to the
        output as it is; the tree is never consulted. */
    method Encode(input: seq<Byte>) returns (out: seq<Byte>)
      ensures out == input
    {
      out := [];
      var pos := 0;
      while pos < |input|
        invariant 0 <= pos <= |input|
        invariant out == input[..pos]
      {
        var temp := input[pos];
        pos := pos + 1;
        out := out + [temp];
      }
    }
  }
}
