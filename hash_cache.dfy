/** The rope's `hashCode`: the polynomial hash of its bytes, computed once per
    node and kept in the node's write-once `hash` field. */
module RopeHashing {
  import opened JavaTypes
  import opened PolyHash
  import opened Ropes

  /** The hash a rope must report: the polynomial hash of its bytes from 0,
      whatever the shape of the tree. */
  ghost function RopeHash(r: Rope): int32 {
    HashFold(0, r.Content())
  }

  /** The nodes whose `hash` field a call of `hashCode` on r may write: r
      and, for a node, those of its left child. The right child's fields
      are never touched, since its bytes are read through its chunks. */
  ghost function LeftSpine(r: Rope): set<Rope> {
    match r
    case Wrap(_) => {r}
    case Join(_, left, _) => {r} + LeftSpine(left)
  }

  /** The `hash` fields of all nodes. A node absent from the map still holds
      the field's initial 0, which the code reads as "not computed yet". */
  class HashCache {
    var hash: map<Rope, int32>

    /** Whatever a field holds was computed by `hashCode` for that node. */
    ghost predicate Valid()
      reads this
    {
      forall n :: n in hash ==> hash[n] == RopeHash(n)
    }

    constructor ()
      ensures Valid() && hash == map[]
    {
      hash := map[];
    }

    /** `hashCode`: a field still at 0 is (re)computed and stored; a leaf hashes
        its bytes, a node continues its left child's hash over the bytes of
        its right child's chunks. Fields only ever gain a value. */
    method HashCode(r: Rope) returns (h: int32)
      requires Valid() && r.Valid()
      modifies this
      ensures Valid()
      ensures h == RopeHash(r)
      ensures r in hash && hash[r] == h
      ensures forall n :: n in old(hash) ==> n in hash && hash[n] == old(hash)[n]
      ensures hash.Keys <= old(hash).Keys + LeftSpine(r)
      decreases r
    {
      h := if r in hash then hash[r] else 0;
      if h == 0 {
        match r {
          case Wrap(bytes) =>
            h := HashBytes(0, bytes);
          case Join(_, left, right) =>
            h := HashCode(left);
            var chunks := ChunkArray(right);
            ghost var cs := chunks[..];
            ghost var fields := hash;
            for k := 0 to chunks.Length
              invariant chunks[..] == cs && hash == fields
              invariant h == HashFold(RopeHash(left), Concat(cs[..k]))
            {
              ConcatStep(cs, k);
              HashFoldConcat(RopeHash(left), Concat(cs[..k]), cs[k]);
              h := HashBytes(h, chunks[k]);
            }
            assert cs[..chunks.Length] == cs;
            ContentIsConcat(right);
            HashFoldConcat(0, left.Content(), right.Content());
        }
        hash := hash[r := h];
      }
    }
  }
}
