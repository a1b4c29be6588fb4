# Rope (clope) in Dafny

This project models the rope of `clope.impl.Rope`: a persistent binary tree
whose leaves (`Wrap`) each hold one immutable byte chunk and whose inner nodes
(`Join`) concatenate a left and a right rope and cache the total size. Ropes
are never changed once built; `append`, `prepend`, the static `join` and the
slicing operation `subr` build new nodes and share the old ones. Every rope
has one meaning, its bytes left to right (`Content`), and one chunk sequence
(`Chunks`), and every operation is proved against them:

- `join`, `append` and `prepend` concatenate contents and chunk sequences
  whichever branch they take, so re-association never creates or drops a
  chunk. Their mutual recursion terminates: the measure is the sum of the two
  sizes, then the larger of the two sizes, then the rope that receives the
  call, then the kind of call. Re-association only happens when the piece
  attached is strictly smaller than the child on the far side: `append`
  compares r with the left child and joins it to the right one, `prepend`
  the reverse.
- `subr(start, end)` has size `end - start`, holds those bytes, never has more
  chunks than the rope it cuts, and returns the rope itself when asked for
  all of it.
- `populate` writes the chunks, left to right, into a slice of the caller's
  array and returns the next free slot.
- `hashCode` is the Java polynomial hash `h = h * 31 + b` over all bytes, with
  `int` wrap-around and signed bytes, whatever the shape of the tree. It is
  also proved equal to the polynomial sum of the bytes, in Horner form, reduced to a Java
  `int`. The write-once `hash` fields are a class whose method keeps every
  stored value equal to that hash.
- `equals` holds exactly when the two contents are equal, for both the leaf
  algorithm (a byte-by-byte walk over the other rope's chunks) and the node
  algorithm (cutting the other rope at the left child's size).
- The two `reduce` methods equal a left fold over the chunk sequence that
  halts at the first `Stop`. The fold over a concatenation is the fold over
  the first part, continued over the second unless it stopped.

Files: `java_types.dfy` (Java `byte` and `int`, wrap-around),
`poly_hash.dfy` (the hash fold), `fold.dfy` (the early-stopping fold),
`rope.dfy` (the rope, its operations, `populate`, `equals`, `reduce`) and
`hash_cache.dfy` (`hashCode` and its cached fields).

Empty pieces are ordinary ropes: a `Wrap` of an empty array and an empty
`subr` are both valid, and a `Join` may hold an empty child. Nothing in the
code bounds the depth of a tree, and the model claims no such bound.

## Model

| member | source | states |
|---|---|---|
| `JavaTypes.Wrap32` | java/clope/impl/Rope.java:104 | The Java `int` result of an arithmetic step differs from the unbounded result by a multiple of 2^32. |
| `PolyHash.HashStepIsJava` | java/clope/impl/Rope.java:104 | Java's `h * 31 + b`, wrapped to an `int` after the multiplication and again after the addition, is the `int` that one hash step computes by wrapping the exact result once. The same expression is at line 200. |
| `JavaTypes.Wrap32MulAdd` | java/clope/impl/Rope.java:101-108 | Wrapping the accumulator to an `int` before the next `* 31 + b` changes nothing, so the wrapped hash of a byte sequence is the exact polynomial wrapped once. |
| `PolyHash.HashBytes` | java/clope/impl/Rope.java:104 | The inner loop `for (byte b : bytes) h = h * 31 + b` returns the hash fold of the bytes from the given start value. |
| `PolyHash.HashFoldConcat` | java/clope/impl/Rope.java:194-204 | Hashing a concatenation from h equals hashing the second part from the hash of the first part, which is why a node may continue its left child's hash over its right child's bytes. |
| `PolyHash.HashFoldIsPoly` | java/clope/impl/Rope.java:101-108 | The hash from 0 is the Horner form of the sum of `b[i] * 31^(n-1-i)` over all bytes, computed without wrapping and reduced once to a signed 32-bit value. |
| `Folding.FoldConcat` | java/clope/impl/Rope.java:181-191 | The early-stopping fold over `xs + ys` is the fold over `xs` if that stopped, and otherwise the fold over `ys` started from its result. |
| `Ropes.Rope.Content` | java/clope/impl/Rope.java:131-135 | A valid rope's size, the length of a leaf's array or a node's cached `l.size() + r.size()`, is the number of bytes it covers. |
| `Ropes.Rope.Count` | java/clope/impl/Rope.java:137-140 | The count is at least 1 and is the number of leaf chunks: 1 for a leaf and the children's sum for a node. |
| `Ropes.Rope.Subr` | java/clope/impl/Rope.java:228-235 | For `0 <= start <= end <= size()`, in both the leaf case (lines 75-82) and the node case, the slice is valid and has size `end - start`. It has no more chunks than the rope it cuts. It is the rope itself when `end - start == size()`, so `subr(0, size())` is the identity. |
| `Ropes.SubrContent` | java/clope/impl/Rope.java:228-235 | The slice holds exactly the bytes `content[start..end]` of the rope it cuts: whole, inside the left child, inside the right child (bounds shifted by the left size), or straddling both, where the join of the two edge slices recombines them. |
| `Ropes.Rope.Append` | java/clope/impl/Rope.java:238-240 | In both branches, the plain new node and `join(left, join(right, r))`, the result is valid, has size `size() + r.size()`, holds this rope's bytes then r's, and has this rope's chunks then r's. |
| `Ropes.Rope.Prepend` | java/clope/impl/Rope.java:243-245 | In both branches, the plain new node and `join(join(r, left), right)`, the result is valid, has size `r.size() + size()`, holds r's bytes then this rope's, and has r's chunks then this rope's. |
| `Ropes.JoinRopes` | java/clope/impl/Rope.java:18-20 | `join(l, r)` is valid, has size `l.size() + r.size()`, holds l's bytes then r's and has l's chunks then r's, whichever side receives the call. |
| `Ropes.NewJoin` | java/clope/impl/Rope.java:131-135 | The `Join` constructor builds a valid node whose size is the sum of its children's sizes, whose bytes are l's followed by r's, and whose chunks are l's followed by r's. |
| `Ropes.WrapBytes` | java/clope/impl/Rope.java:15-17 | `wrap(b)` is a valid one-chunk rope whose bytes are b. |
| `Ropes.ContentIsConcat` | java/clope/impl/Rope.java:217-220 | The bytes of a rope are its chunks, in the left-to-right order `populate` writes them, concatenated. |
| `Ropes.Rope.Populate` | java/clope/impl/Rope.java:217-220 | For a leaf (lines 95-98) or a node, `populate(arrays, index)` writes the rope's chunks, left to right, into `arrays[index .. index + count())`. It returns `index + count()` and leaves every other slot unchanged. |
| `Ropes.ChunkArray` | java/clope/impl/Rope.java:150-152 | A fresh array of `count()` slots filled by `populate` from slot 0 holds exactly the chunk sequence. |
| `Ropes.EqualsBytes` | java/clope/impl/Rope.java:110-121 | The leaf's `equals` returns true if and only if its bytes equal the other rope's bytes, whatever the other rope's shape. |
| `Ropes.EqualsChunks` | java/clope/impl/Rope.java:116-120 | Once the sizes agree, walking the other rope's chunks in order against the leaf's bytes returns true if and only if the bytes equal the chunks concatenated. |
| `Ropes.MatchAt` | java/clope/impl/Rope.java:118-119 | The inner loop over one chunk returns true if and only if the chunk equals the leaf's bytes at the current position. |
| `Ropes.Rope.Equals` | java/clope/impl/Rope.java:207-215 | For a node (and through `EqualsBytes` for a leaf), `equals` returns true if and only if the two ropes hold the same bytes, whatever the shapes of the two trees. |
| `Ropes.Rope.Reduce` | java/clope/impl/Rope.java:168-179 | Seedless `reduce(f)`, for a node and for a leaf (lines 59-61): the first chunk is the initial accumulator, and the result is the early-stopping fold of f over the remaining chunks. |
| `Ropes.Rope.ReduceFrom` | java/clope/impl/Rope.java:181-191 | Seeded `reduce(f, init)`, for a node and for a leaf (lines 63-67): the result is the early-stopping fold of f over all chunks from init, unwrapped from `Stop` if f asked to stop. |
| `Ropes.ReduceFromJoin` | java/clope/impl/Rope.java:181-191 | A node's seeded reduction is the fold over its left child's chunks, continued over its right child's chunks unless f asked to stop within the left child. |
| `RopeHashing.HashCache.HashCode` | java/clope/impl/Rope.java:193-204 | For a node and for a leaf (lines 101-108), `hashCode` returns the polynomial hash of the rope's bytes, so content-equal ropes hash equally and repeated calls agree. It stores that value in the rope's field. Every stored field keeps its value, and every field holds the hash of its node. Only the fields of r and of its left spine, the nodes reached through `left`, can be newly set. |

## Left out

- `seq()` and the two anonymous `Iterator` classes: they hand the chunk array to Clojure's `PersistentList`/`ArraySeq` or step through it. Only the array they build is modelled, as `ChunkArray`.
- Iteration inside the leaf's `equals` and a node's `hashCode` (over its right child, line 198): the iterated rope's chunks are taken from `ChunkArray` for both variants. A leaf's own iterator yields its one chunk directly; the chunks are the same. The running index `i++` of the inner loop is `MatchAt`'s offset plus its loop counter, and the outer loop advances it by the chunk's length.
- `IFn` and `Reduced`: the folding function is a total Dafny function returning `Continue(acc)` or `Stop(acc)`. Clojure values are untyped, so the seedless reduction uses `Value<T>`, which holds either a chunk or another value.
- `equals` on `null` or on an object that is not a rope: this has no counterpart in a typed model.
- Bounds checks in `subr`: the code does none. Valid bounds `0 <= start <= end <= size()` are a precondition.
- Integer widths of `size` (`long`), `count` and `populate`'s index (`int`): they are unbounded here. The `int` overflow of `count` is reachable through sharing: starting from a 1-byte `Wrap`, 31 calls of `x = x.append(x)` each build a plain `new Join(x, x)`, giving `count()` = 2^31 from 32 nodes. Java's `int` wraps that to `Integer.MIN_VALUE`, and the array allocations `new Object[count()]` (line 151) and `new Object[n]` with `n = count()` (lines 170-171 and 183-184) then throws `NegativeArraySizeException` from `iterator` and `reduce`. It throws the same way from a leaf's `equals` or a parent's `hashCode` that iterates such a rope. The model returns normally there, with the full chunk sequence. The `long` overflow of `size` is reachable the same way: 63 calls of `x = x.append(x)` from a 1-byte `Wrap` each build a plain `new Join(this, r)`, because `r.size()` = 2^k is never below `left.size()` = 2^(k-1) (line 239). The last constructor adds 2^62 + 2^62 (line 132) and stores `Long.MIN_VALUE`, so `size()` is negative for a rope of 64 objects holding 1 byte. The model keeps the unbounded size 2^63 there.
- Object identity: ropes are values. "Returns `this`" is modelled as returning an equal value, and sharing of subtrees is not observable.
- `RopeHashing.HashCache.HashCode`: the per-node `hash` fields are one map keyed by node value. Two structurally equal nodes share one entry, which is harmless because they would store the same hash. The racy, concurrent first write is not modelled; the cache is single-threaded memoisation.
- Callers mutating a chunk after `wrap`: chunks are immutable sequences here, so the aliasing contract cannot be broken.
- Depth or balance bounds: the code guarantees none, and the model claims none.
- Out-of-memory behaviour.
