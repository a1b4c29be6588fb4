/** A persistent rope: a binary tree whose leaves are immutable byte chunks. */
module Ropes {
  import opened JavaTypes
  import opened Folding

  /** The bytes of one leaf; the caller hands them over and never changes them. */
  type Chunk = seq<int8>

  function Max(a: nat, b: nat): nat {
    if a < b then b else a
  }

  /** The bytes of the chunks, one after the other. */
  ghost function Concat(chunks: seq<Chunk>): seq<int8>
    decreases |chunks|
  {
    if chunks == [] then [] else Concat(chunks[..|chunks| - 1]) + chunks[|chunks| - 1]
  }

  /** An accumulator of the seedless reduction: it starts as the first chunk
      itself, and the folding function may turn it into any other value. */
  datatype Value<T> = Bytes(bytes: Chunk) | Other(other: T)

  /** `Wrap` is a leaf around one chunk; `Join` concatenates two ropes and
      caches the total size. */
  datatype Rope = Wrap(bytes: Chunk) | Join(size: nat, left: Rope, right: Rope)
  {
    /** Every cached size is the sum of its children's sizes, as the `Join`
        constructor computes it. */
    ghost predicate Valid() {
      match this
      case Wrap(_) => true
      case Join(s, l, r) => l.Valid() && r.Valid() && s == l.Size() + r.Size()
    }

    /** The number of bytes the rope covers. */
    function Size(): nat {
      match this
      case Wrap(b) => |b|
      case Join(s, _, _) => s
    }

    /** The bytes of the rope, left to right; a valid rope's size is their number. */
    ghost function Content(): (c: seq<int8>)
      ensures Valid() ==> |c| == Size()
    {
      match this
      case Wrap(b) => b
      case Join(_, l, r) => l.Content() + r.Content()
    }

    /** The leaf chunks of the rope, left to right. */
    ghost function Chunks(): seq<Chunk> {
      match this
      case Wrap(b) => [b]
      case Join(_, l, r) => l.Chunks() + r.Chunks()
    }

    /** The number of chunks: one per leaf. */
    function Count(): (c: nat)
      ensures c >= 1 && c == |Chunks()|
    {
      match this
      case Wrap(_) => 1
      case Join(_, l, r) => l.Count() + r.Count()
    }

    /** The bytes in [start, end), sharing whole subtrees and copying only the
        chunks cut at the edges; a request for the whole rope returns it. Its
        bytes are stated by SubrContent. */
    function Subr(start: nat, end: nat): (r: Rope)
      requires Valid() && start <= end <= Size()
      ensures r.Valid() && r.Size() == end - start
      ensures r.Count() <= Count()
      ensures end - start == Size() ==> r == this
    {
      match this
      case Wrap(bytes) =>
        if end - start == |bytes| then this else Wrap(bytes[start..end])
      case Join(size, left, right) =>
        if end - start == size then this
        else if start < left.Size() then
          if end > left.Size() then
            JoinRopes(left.Subr(start, left.Size()), right.Subr(0, end - left.Size()))
          else left.Subr(start, end)
        else right.Subr(start - left.Size(), end - left.Size())
    }

    /** This rope followed by r. A leaf, or a node whose left child is no
        bigger than r, gets a new node on top; otherwise r is joined to the
        right child first and the result re-attached next to the left child. */
    function Append(r: Rope): (j: Rope)
      requires Valid() && r.Valid()
      ensures j.Valid() && j.Size() == Size() + r.Size()
      ensures j.Content() == Content() + r.Content()
      ensures j.Chunks() == Chunks() + r.Chunks()
      decreases Size() + r.Size(), Max(Size(), r.Size()), this, 0
    {
      match this
      case Wrap(_) => NewJoin(this, r)
      case Join(_, left, right) =>
        if r.Size() < left.Size() then
          var x := JoinRopes(right, r);
          assert left.Size() + x.Size() == Size() + r.Size();
          assert right.Size() == 0 ==> left.Size() > x.Size();
          AppendAssoc(this, r, x);
          JoinRopes(left, x)
        else NewJoin(this, r)
    }

    /** r followed by this rope; the mirror image of Append. */
    function Prepend(r: Rope): (j: Rope)
      requires Valid() && r.Valid()
      ensures j.Valid() && j.Size() == r.Size() + Size()
      ensures j.Content() == r.Content() + Content()
      ensures j.Chunks() == r.Chunks() + Chunks()
      decreases r.Size() + Size(), Max(r.Size(), Size()), this, 0
    {
      match this
      case Wrap(_) => NewJoin(r, this)
      case Join(_, left, right) =>
        if r.Size() < right.Size() then
          var x := JoinRopes(r, left);
          assert x.Size() + right.Size() == r.Size() + Size();
          assert left.Size() == 0 ==> x.Size() < right.Size();
          PrependAssoc(r, this, x);
          JoinRopes(x, right)
        else NewJoin(r, this)
    }

    /** Writes the chunks, left to right, into arrays[index..], and returns
        the first slot after them; no other slot changes. */
    method Populate(arrays: array<Chunk>, index: nat) returns (next: nat)
      requires index + Count() <= arrays.Length
      modifies arrays
      ensures next == index + Count()
      ensures arrays[index..next] == Chunks()
      ensures forall i :: 0 <= i < arrays.Length && !(index <= i < next) ==> arrays[i] == old(arrays[i])
    {
      match this
      case Wrap(bytes) =>
        arrays[index] := bytes;
        next := index + 1;
      case Join(_, left, right) =>
        var mid := left.Populate(arrays, index);
        ghost var leftPart := arrays[index..mid];
        next := right.Populate(arrays, mid);
        assert arrays[index..mid] == leftPart;
        assert arrays[index..next] == arrays[index..mid] + arrays[mid..next];
    }

    /** Content equality, whatever the shapes of the two trees. A leaf walks
        the other rope's chunks byte by byte; a node cuts the other rope at
        its own left size and compares each side. */
    method Equals(other: Rope) returns (eq: bool)
      requires Valid() && other.Valid()
      ensures eq <==> Content() == other.Content()
    {
      match this
      case Wrap(bytes) =>
        eq := EqualsBytes(bytes, other);
      case Join(size, left, right) =>
        if size != other.Size() {
          return false;
        }
        var s := left.Size();
        eq := left.Equals(other.Subr(0, s));
        if eq {
          eq := right.Equals(other.Subr(s, size));
        }
        SubrContent(other, 0, s);
        SubrContent(other, s, size);
        assert other.Content() == other.Content()[0..s] + other.Content()[s..size];
    }

    /** The seedless reduction: the first chunk is the initial accumulator, and
        f folds in the remaining chunks until it asks to stop. */
    method Reduce<T>(f: (Value<T>, Chunk) -> Step<Value<T>>) returns (res: Value<T>)
      requires Valid()
      ensures Chunks() != [] && res == Fold(f, Bytes(Chunks()[0]), Chunks()[1..]).value
    {
      match this
      case Wrap(bytes) =>
        res := Bytes(bytes);
      case Join(_, _, _) =>
        var n := Count();
        var arrays := ChunkArray(this);
        ghost var cs := arrays[..];
        res := Bytes(arrays[0]);
        for i := 1 to n
          invariant Fold(f, Bytes(cs[0]), cs[1..]) == Fold(f, res, cs[i..])
        {
          assert cs[i..][1..] == cs[i + 1..];
          var step := f(res, arrays[i]);
          if step.Stop? {
            return step.value;
          }
          res := step.value;
        }
    }

    /** The seeded reduction: f folds every chunk into init, left to right,
        until it asks to stop. */
    method ReduceFrom<T>(f: (T, Chunk) -> Step<T>, init: T) returns (res: T)
      requires Valid()
      ensures res == Fold(f, init, Chunks()).value
    {
      match this
      case Wrap(bytes) =>
        res := f(init, bytes).value;
      case Join(_, _, _) =>
        var n := Count();
        var arrays := ChunkArray(this);
        ghost var cs := arrays[..];
        res := init;
        for i := 0 to n
          invariant Fold(f, init, cs) == Fold(f, res, cs[i..])
        {
          assert cs[i..][1..] == cs[i + 1..];
          var step := f(res, arrays[i]);
          if step.Stop? {
            return step.value;
          }
          res := step.value;
        }
    }
  }

  /** The seeded reduction of a node folds the left child's chunks and,
      unless f asked to stop there, continues over the right child's. */
  lemma ReduceFromJoin<T>(t: Rope, f: (T, Chunk) -> Step<T>, init: T)
    requires t.Join?
    ensures Fold(f, init, t.Chunks()) ==
      match Fold(f, init, t.left.Chunks())
      case Stop(v) => Stop(v)
      case Continue(v) => Fold(f, v, t.right.Chunks())
  {
    FoldConcat(f, init, t.left.Chunks(), t.right.Chunks());
  }

  /** Concatenating chunk lists concatenates their bytes. */
  lemma {:induction false} ConcatAppend(a: seq<Chunk>, b: seq<Chunk>)
    ensures Concat(a + b) == Concat(a) + Concat(b)
    decreases |b|
  {
    if b == [] {
      assert a + b == a;
    } else {
      var front := b[..|b| - 1];
      assert (a + b)[..|a + b| - 1] == a + front;
      assert (a + b)[|a + b| - 1] == b[|b| - 1];
      ConcatAppend(a, front);
    }
  }

  /** The content of a rope is the concatenation of its chunks. */
  lemma {:induction false} ContentIsConcat(r: Rope)
    ensures r.Content() == Concat(r.Chunks())
  {
    match r
    case Wrap(b) =>
      assert Concat([b]) == Concat([]) + b;
    case Join(_, left, right) =>
      ContentIsConcat(left);
      ContentIsConcat(right);
      ConcatAppend(left.Chunks(), right.Chunks());
  }

  /** Re-associating `append`: joining r to the right child first and then
      attaching the left child keeps bytes and chunks in order. */
  lemma AppendAssoc(t: Rope, r: Rope, x: Rope)
    requires t.Join?
    requires x.Content() == t.right.Content() + r.Content()
    requires x.Chunks() == t.right.Chunks() + r.Chunks()
    ensures t.left.Content() + x.Content() == t.Content() + r.Content()
    ensures t.left.Chunks() + x.Chunks() == t.Chunks() + r.Chunks()
  {
    assert t.Content() == t.left.Content() + t.right.Content();
    assert t.Chunks() == t.left.Chunks() + t.right.Chunks();
  }

  /** Re-associating `prepend`: joining r to the left child first and then
      attaching the right child keeps bytes and chunks in order. */
  lemma PrependAssoc(r: Rope, t: Rope, x: Rope)
    requires t.Join?
    requires x.Content() == r.Content() + t.left.Content()
    requires x.Chunks() == r.Chunks() + t.left.Chunks()
    ensures x.Content() + t.right.Content() == r.Content() + t.Content()
    ensures x.Chunks() + t.right.Chunks() == r.Chunks() + t.Chunks()
  {
    assert t.Content() == t.left.Content() + t.right.Content();
    assert t.Chunks() == t.left.Chunks() + t.right.Chunks();
  }

  /** The k-th chunk sits right after the bytes of the chunks before it. */
  lemma ChunkAt(cs: seq<Chunk>, k: nat)
    requires k < |cs|
    ensures var o := |Concat(cs[..k])|;
      o + |cs[k]| <= |Concat(cs)| && Concat(cs)[o..o + |cs[k]|] == cs[k]
  {
    ConcatStep(cs, k);
    assert cs == cs[..k + 1] + cs[k + 1..];
    ConcatAppend(cs[..k + 1], cs[k + 1..]);
    var o := |Concat(cs[..k])|;
    assert Concat(cs) == Concat(cs[..k]) + cs[k] + Concat(cs[k + 1..]);
    assert Concat(cs)[o..o + |cs[k]|] == cs[k];
  }

  /** One more chunk adds its bytes at the end. */
  lemma ConcatStep(cs: seq<Chunk>, k: nat)
    requires k < |cs|
    ensures Concat(cs[..k + 1]) == Concat(cs[..k]) + cs[k]
  {
    assert cs[..k + 1][..k] == cs[..k];
  }

  /** A slice holds exactly the bytes in [start, end) of the rope it cuts,
      including a slice that straddles a node's two children. */
  lemma {:induction false} SubrContent(r: Rope, start: nat, end: nat)
    requires r.Valid() && start <= end <= r.Size()
    ensures r.Subr(start, end).Content() == r.Content()[start..end]
    decreases r.Count(), 1
  {
    match r
    case Wrap(bytes) =>
    case Join(size, left, right) =>
      if end - start == size {
        assert r.Content()[start..end] == r.Content();
      } else {
        if start < left.Size() < end {
          SubrCaseStraddle(r, start, end);
          SubrStraddle(r, start, end);
        } else if start < left.Size() {
          SubrCaseLeft(r, start, end);
          SubrInLeft(r, start, end);
        } else {
          SubrCaseRight(r, start, end);
          SubrInRight(r, start, end);
        }
      }
  }

  /** A node's slice that straddles its children joins a slice of each. */
  lemma SubrCaseStraddle(r: Rope, start: nat, end: nat)
    requires r.Join? && r.Valid() && end - start != r.Size()
    requires start < r.left.Size() < end <= r.Size()
    ensures r.Subr(start, end) == JoinRopes(r.left.Subr(start, r.left.Size()), r.right.Subr(0, end - r.left.Size()))
  {
  }

  /** A node's slice that ends within its left child is that child's slice. */
  lemma SubrCaseLeft(r: Rope, start: nat, end: nat)
    requires r.Join? && r.Valid() && end - start != r.Size()
    requires start < r.left.Size() && start <= end <= r.left.Size()
    ensures r.Subr(start, end) == r.left.Subr(start, end)
  {
  }

  /** A node's slice that starts within its right child is that child's slice. */
  lemma SubrCaseRight(r: Rope, start: nat, end: nat)
    requires r.Join? && r.Valid() && end - start != r.Size()
    requires r.left.Size() <= start <= end <= r.Size()
    ensures r.Subr(start, end) == r.right.Subr(start - r.left.Size(), end - r.left.Size())
  {
  }

  /** A slice that straddles a node's two children is the end of the left
      child's slice followed by the start of the right child's. */
  lemma {:induction false} SubrStraddle(r: Rope, start: nat, end: nat)
    requires r.Join? && r.Valid()
    requires start < r.left.Size() < end <= r.Size()
    ensures r.left.Subr(start, r.left.Size()).Content() + r.right.Subr(0, end - r.left.Size()).Content()
         == r.Content()[start..end]
    decreases r.Count(), 0
  {
    var k := r.left.Size();
    var a, b := r.left.Content(), r.right.Content();
    assert r.Content() == a + b && |a| == k;
    SubrContent(r.left, start, k);
    SubrContent(r.right, 0, end - k);
    SliceStraddle(a, b, start, end);
  }

  /** A slice that ends within a node's left child is that child's slice. */
  lemma {:induction false} SubrInLeft(r: Rope, start: nat, end: nat)
    requires r.Join? && r.Valid()
    requires start <= end <= r.left.Size()
    ensures r.left.Subr(start, end).Content() == r.Content()[start..end]
    decreases r.Count(), 0
  {
    var a, b := r.left.Content(), r.right.Content();
    assert r.Content() == a + b && |a| == r.left.Size();
    SubrContent(r.left, start, end);
    SliceLeft(a, b, start, end);
  }

  /** A slice that starts within a node's right child is that child's slice,
      shifted by the left child's size. */
  lemma {:induction false} SubrInRight(r: Rope, start: nat, end: nat)
    requires r.Join? && r.Valid()
    requires r.left.Size() <= start <= end <= r.Size()
    ensures r.right.Subr(start - r.left.Size(), end - r.left.Size()).Content() == r.Content()[start..end]
    decreases r.Count(), 0
  {
    var k := r.left.Size();
    var a, b := r.left.Content(), r.right.Content();
    assert r.Content() == a + b && |a| == k;
    SubrContent(r.right, start - k, end - k);
    SliceRight(a, b, start, end);
    assert r.Content()[start..end] == b[start - k..end - k];
  }

  /** A slice of a concatenation that ends within the first part. */
  lemma SliceLeft(a: seq<int8>, b: seq<int8>, start: nat, end: nat)
    requires start <= end <= |a|
    ensures (a + b)[start..end] == a[start..end]
  {
  }

  /** A slice of a concatenation that starts within the second part. */
  lemma SliceRight(a: seq<int8>, b: seq<int8>, start: nat, end: nat)
    requires |a| <= start <= end <= |a| + |b|
    ensures (a + b)[start..end] == b[start - |a|..end - |a|]
  {
  }

  /** A slice of a concatenation that straddles the two parts. */
  lemma SliceStraddle(a: seq<int8>, b: seq<int8>, start: nat, end: nat)
    requires start <= |a| <= end <= |a| + |b|
    ensures (a + b)[start..end] == a[start..|a|] + b[0..end - |a|]
  {
  }

  /** `Rope.wrap`: a one-leaf rope around the given bytes. */
  function WrapBytes(b: Chunk): (r: Rope)
    ensures r.Valid() && r.Content() == b && r.Chunks() == [b]
  {
    Wrap(b)
  }

  /** The `Join` constructor: a new node whose cached size is the sum of its
      children's sizes. */
  function NewJoin(l: Rope, r: Rope): (j: Rope)
    requires l.Valid() && r.Valid()
    ensures j.Valid() && j.Size() == l.Size() + r.Size()
    ensures j.Content() == l.Content() + r.Content()
    ensures j.Chunks() == l.Chunks() + r.Chunks()
  {
    Join(l.Size() + r.Size(), l, r)
  }

  /** l followed by r, attached on the side of the bigger of the two. */
  function JoinRopes(l: Rope, r: Rope): (j: Rope)
    requires l.Valid() && r.Valid()
    ensures j.Valid() && j.Size() == l.Size() + r.Size()
    ensures j.Content() == l.Content() + r.Content()
    ensures j.Chunks() == l.Chunks() + r.Chunks()
    decreases l.Size() + r.Size(), Max(l.Size(), r.Size()), if l.Size() > r.Size() then l else r, 1
  {
    if l.Size() > r.Size() then l.Append(r) else r.Prepend(l)
  }

  /** The chunks of r in a fresh array of `count()` slots, filled by
      `populate` from slot 0: how the rope is iterated, reduced and turned
      into a sequence. */
  method ChunkArray(r: Rope) returns (arrays: array<Chunk>)
    ensures fresh(arrays) && arrays[..] == r.Chunks()
  {
    arrays := new Chunk[r.Count()];
    var next := r.Populate(arrays, 0);
    assert arrays[..] == arrays[0..next];
  }

  /** The inner loop of `Wrap.equals`: the bytes of one chunk of the other
      rope against bytes from position i on; true exactly when all of them
      are equal. */
  method MatchAt(bytes: Chunk, i: nat, bs: Chunk) returns (ok: bool)
    requires i + |bs| <= |bytes|
    ensures ok <==> bytes[i..i + |bs|] == bs
  {
    for j := 0 to |bs|
      invariant forall q :: 0 <= q < j ==> bytes[i + q] == bs[q]
    {
      if bytes[i + j] != bs[j] {
        assert bytes[i..i + |bs|][j] != bs[j];
        return false;
      }
    }
    assert bytes[i..i + |bs|] == bs;
    return true;
  }

  /** `Wrap.equals`: the sizes agree and every byte of the other rope's
      chunks, taken in order, equals the byte at the same position of bytes. */
  method EqualsBytes(bytes: Chunk, other: Rope) returns (eq: bool)
    requires other.Valid()
    ensures eq <==> bytes == other.Content()
  {
    if |bytes| != other.Size() {
      return false;
    }
    var chunks := ChunkArray(other);
    ContentIsConcat(other);
    eq := EqualsChunks(bytes, chunks);
  }

  /** The loops of `Wrap.equals` once the sizes agree: the chunks, one after
      the other, against bytes, stopping at the first chunk that differs. */
  method EqualsChunks(bytes: Chunk, chunks: array<Chunk>) returns (eq: bool)
    requires |bytes| == |Concat(chunks[..])|
    ensures eq <==> bytes == Concat(chunks[..])
  {
    ghost var cs := chunks[..];
    ghost var content := Concat(cs);
    var i := 0;
    for k := 0 to chunks.Length
      invariant i == |Concat(cs[..k])| <= |content|
      invariant bytes[..i] == content[..i]
    {
      var bs := chunks[k];
      ChunkAt(cs, k);
      ConcatStep(cs, k);
      var ok := MatchAt(bytes, i, bs);
      if !ok {
        assert content[i..i + |bs|] == bs;
        return false;
      }
      assert bytes[..i + |bs|] == bytes[..i] + bytes[i..i + |bs|];
      assert content[..i + |bs|] == content[..i] + content[i..i + |bs|];
      i := i + |bs|;
    }
    assert cs[..chunks.Length] == cs;
    assert bytes == bytes[..i] && content == content[..i];
    return true;
  }
}
