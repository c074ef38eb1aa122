# Grin compression: the frequency count and the Huffman-tree bucket pass

This project models, in Dafny, the parts of the Grin compressor
(`edu.grinnell.csc207.compression`) that compile and run to an end:

- `Grin.createFrequencyMap`, the counting pass that reads the input eight bits
  at a time and builds a `HashMap<Short, Integer>` from each 8-bit value to
  its number of occurrences (module `Grin`, file `grin.dfy`);
- the `HuffmanTree` class (module `Huffman`, file `huffman_tree.dfy`): the
  `Node` constructors, the map helpers `getKeys` and `getValMax`, the bucket
  pass of the frequency-map constructor that fills the priority-queue field
  `freq` with leaves, and `encode`;
- the values those operations are specified against (module `LeafBuckets`,
  file `leaf_buckets.dfy`): `Pair`, key lists, the floored maximum, and the
  sequence of leaves the constructor inserts, with the lemmas about them;
- the Java value types involved (module `JavaTypes`, file `java_types.dfy`):
  `byte`-range values, `short`, `int` with 32-bit wrap-around, and nullable
  boxed references.

The model follows what the code does, not what its comments and the design of
a Huffman compressor intend:

- The frequency map has no entry for the end-of-file symbol 256. Its keys are
  exactly the distinct bytes read.
- The constructor inserts a leaf `Pair(key, j)` for each key of count `j`,
  for `j` from 0 up to but NOT including `getValMax`. So the keys with the
  largest count never get a leaf, and a map whose counts are all equal (a
  single key, for instance) gets none.
- No merging happens (see Left out). `encode` copies its input to its output
  unchanged.

Java `int` arithmetic wraps around at 32 bits. The model writes this out
(`JavaTypes.Wrap32`) for the counter increment in `createFrequencyMap` and
for the weight sums in the `Node` constructors. The priority queue `freq` is
modelled as the sequence of nodes in the order they were added. The
`HashMap`'s key iteration order is unspecified in Java. `GetKeys` therefore
picks keys in an arbitrary order, and the tree records the order it saw in
the ghost field `keyOrder`. The nested loops of the frequency-map constructor
are split into the constructor, `InsertLeaves` (the outer loop over counts)
and `InsertCount` (the inner loop over keys). This keeps each proof small.

## Model

| member | source | states |
|---|---|---|
| `JavaTypes.Wrap32` | src/main/java/edu/grinnell/csc207/compression/HuffmanTree.java:46 | Java `int` addition: the result agrees with the exact sum modulo 2^32, and equals it when the sum fits in 32 bits |
| `JavaTypes.WrapIncrement` | src/main/java/edu/grinnell/csc207/compression/Grin.java:39 | incrementing a wrapped counter gives the wrapped value of the exact incremented count |
| `Grin.CreateFrequencyMap` | src/main/java/edu/grinnell/csc207/compression/Grin.java:33-45 | the returned map has exactly the distinct bytes read as keys (so no 256 entry), and maps each to its occurrence count as a Java `int` |
| `Grin.OccurrencesBounds` | src/main/java/edu/grinnell/csc207/compression/Grin.java:38-42 | a byte occurs a positive number of times exactly when it was read, and never more often than the number of groups read |
| `Grin.FrequencyExact` | src/main/java/edu/grinnell/csc207/compression/Grin.java:36-43 | below 2^31 groups, every stored count equals the occurrence count and is at least 1 |
| `Grin.FrequencyOfEmpty` | src/main/java/edu/grinnell/csc207/compression/Grin.java:34-44 | empty input yields an empty map |
| `Grin.OccurrenceTotalIsLength` | src/main/java/edu/grinnell/csc207/compression/Grin.java:36-43 | the occurrence counts of the 256 byte values add up to the number of groups read |
| `Grin.FrequencyTotal` | src/main/java/edu/grinnell/csc207/compression/Grin.java:36-43 | below 2^31 groups, the counts stored in the map add up to the number of groups read |
| `LeafBuckets.MaxOver` | src/main/java/edu/grinnell/csc207/compression/HuffmanTree.java:84-89 | the running maximum, started at 0, is never negative |
| `LeafBuckets.MaxOverIsFlooredMax` | src/main/java/edu/grinnell/csc207/compression/HuffmanTree.java:84-89 | a running maximum over a list of all keys bounds every count, and is 0 or a count that occurs in the map |
| `LeafBuckets.FlooredMaxUnique` | src/main/java/edu/grinnell/csc207/compression/HuffmanTree.java:82-91 | the floored maximum is unique |
| `LeafBuckets.FlooredMaxIsMaxOver` | src/main/java/edu/grinnell/csc207/compression/HuffmanTree.java:82-91 | the floored maximum does not depend on the order in which the keys are visited |
| `LeafBuckets.BucketSound` | src/main/java/edu/grinnell/csc207/compression/HuffmanTree.java:100-103 | each leaf added for count j is `Pair(k, j)` for a listed key whose count is j |
| `LeafBuckets.BucketKeyCount` | src/main/java/edu/grinnell/csc207/compression/HuffmanTree.java:100-103 | in the pass for count j, a listed key of count j gets exactly one leaf and any other key gets none |
| `LeafBuckets.BucketKeyOrder` | src/main/java/edu/grinnell/csc207/compression/HuffmanTree.java:100-105 | within the pass for one count, leaves follow the key-list order |
| `LeafBuckets.BucketsSound` | src/main/java/edu/grinnell/csc207/compression/HuffmanTree.java:99-106 | after counts 0 .. n-1, every leaf is `Pair(k, c)` with c the count of k and 0 <= c < n |
| `LeafBuckets.BucketsKeyCount` | src/main/java/edu/grinnell/csc207/compression/HuffmanTree.java:99-106 | after counts 0 .. n-1, a key has exactly one leaf if its count lies in [0, n), otherwise none |
| `LeafBuckets.BucketsSorted` | src/main/java/edu/grinnell/csc207/compression/HuffmanTree.java:99-106 | leaves are inserted in non-decreasing order of count |
| `LeafBuckets.BucketsKeyOrder` | src/main/java/edu/grinnell/csc207/compression/HuffmanTree.java:99-106 | leaves of equal count are inserted in key-list order |
| `LeafBuckets.InsertedLeavesSpec` | src/main/java/edu/grinnell/csc207/compression/HuffmanTree.java:96-106 | the constructor's leaves: exactly one `Pair(k, count)` per key whose count lies in [0, getValMax), no other leaf, counts non-decreasing, equal counts in key-list order |
| `LeafBuckets.MaxKeyNotInserted` | src/main/java/edu/grinnell/csc207/compression/HuffmanTree.java:99 | a key whose count equals the maximum never gets a leaf |
| `LeafBuckets.EqualCountsNoLeaves` | src/main/java/edu/grinnell/csc207/compression/HuffmanTree.java:99 | a map whose counts are all equal, such as a single key, yields no leaves |
| `LeafBuckets.InsertedLeavesExample` | src/main/java/edu/grinnell/csc207/compression/HuffmanTree.java:96-106 | counts {65: 3, 66: 1, 67: 2, 68: 0} yield the leaves (68, 0), (66, 1), (67, 2); key 65 gets none |
| `Huffman.Node.Join` | src/main/java/edu/grinnell/csc207/compression/HuffmanTree.java:43-47 | the first argument becomes the right child, the second the left, and the weight is the Java `int` sum of both weights; both weights must be non-null |
| `Huffman.Node.JoinWeightNode` | src/main/java/edu/grinnell/csc207/compression/HuffmanTree.java:49-53 | the integer is stored as the right weight, the node as the left child, and the weight is their `int` sum |
| `Huffman.Node.JoinNodeWeight` | src/main/java/edu/grinnell/csc207/compression/HuffmanTree.java:55-59 | the node is stored as the right child, the integer as the left weight, and the weight is their `int` sum |
| `Huffman.Node.JoinWeights` | src/main/java/edu/grinnell/csc207/compression/HuffmanTree.java:61-65 | both integers are stored (right, then left) and the weight is their `int` sum |
| `Huffman.Node.Leaf` | src/main/java/edu/grinnell/csc207/compression/HuffmanTree.java:67-69 | the node holds the pair; its weight and all child fields stay null |
| `Huffman.Node.Weight` | src/main/java/edu/grinnell/csc207/compression/HuffmanTree.java:70-72 | the node holds only the given weight |
| `Huffman.HuffmanTree.GetKeys` | src/main/java/edu/grinnell/csc207/compression/HuffmanTree.java:75-80 | the list holds every key of the map exactly once and nothing else, so its length is the map's size |
| `Huffman.HuffmanTree.GetValMax` | src/main/java/edu/grinnell/csc207/compression/HuffmanTree.java:82-91 | the result is at least 0 and at least every count, and is 0 or a count that occurs in the map; the map is not changed |
| `Huffman.HuffmanTree.FromFrequencies` | src/main/java/edu/grinnell/csc207/compression/HuffmanTree.java:96-106 | the queue holds, in insertion order, one `Node(Pair)` leaf per pair of the constructor's leaf sequence for the key order the map yielded |
| `Huffman.HuffmanTree.InsertLeaves` | src/main/java/edu/grinnell/csc207/compression/HuffmanTree.java:99-106 | running the pass for each count from 0 while the count is below a fresh `getValMax` leaves exactly the leaf sequence for the maximum count |
| `Huffman.HuffmanTree.InsertCount` | src/main/java/edu/grinnell/csc207/compression/HuffmanTree.java:100-105 | one pass of the inner loop appends to the queue a leaf for each listed key of count j, in list order, and changes nothing else |
| `Huffman.HuffmanTree.Encode` | src/main/java/edu/grinnell/csc207/compression/HuffmanTree.java:159-164 | the output is the input, 8-bit group by 8-bit group, in order |

## Left out

- `serialize` (HuffmanTree.java:137-150) is not modelled. It does not compile: a semicolon is missing at line 145. Its loop condition never changes, so it cannot terminate. It also reads the never-assigned `input` field.
- The merge loops (HuffmanTree.java:108-111 and 126-129) are not modelled. `PriorityQueue<Node>` has no comparator and `Node` is not `Comparable`, so the queue has no ordering to model. Leaves also carry a null weight, which the merge would fail to unbox.
- The queue's reaction to non-`Comparable` elements is not modelled. Java's `PriorityQueue.add` throws `ClassCastException` for them (from the second add on older JDKs, from the first on newer ones). The model records the nodes in insertion order instead.
- `HuffmanTree(BitInputStream)` and `decode` (HuffmanTree.java:120-130, 174-180) are not modelled. They depend on the bit-stream semantics, and `decode` performs no Huffman decoding.
- Prefix codes, code tables, tree serialization and round trips are not modelled: nothing in the code implements them.
- The end-of-file symbol 256 is not modelled: the code never adds it to the frequency map.
- `Grin.encode`, `Grin.decode` and `main` (Grin.java:18-23, 54-75) are not modelled. They only open files and parse the command line.
- `BitInputStream` and `BitOutputStream` are not part of this model. The input is a sequence of 8-bit groups and the output a sequence written to. I/O errors (`IOException`) are not modelled.
- The fields `input` and `output` of `HuffmanTree` are not modelled, because no modelled operation uses them.
- Each `Node` in Java carries a hidden reference to its enclosing `HuffmanTree`; the model leaves it out.
- `Pair` is modelled as a datatype. Its fields are never changed after construction.
- Huffman.HuffmanTree.GetKeys: any key order is allowed, because the `HashMap` iteration order is not modelled.
- Grin.FrequencyExact: stated only for inputs shorter than 2^31 bytes. Longer inputs wrap Java's `int` counter, and `Grin.CreateFrequencyMap` models that wrap-around.
- Grin.FrequencyTotal: stated only for inputs shorter than 2^31 bytes, for the same reason.
- Huffman.Node.Join: unboxing a null weight throws `NullPointerException` in Java. The model states this as a precondition (non-null weights) and does not model the exception. The same holds for `JoinWeightNode` and `JoinNodeWeight`.
