/** The polynomial hash `h = h * 31 + b` that both rope variants compute. */
module PolyHash {
  import opened JavaTypes

  /** One step of the hash loop, in wrapping `int` arithmetic; the byte is
      sign-extended, as Java widens a `byte` to an `int`. */
  function HashStep(h: int32, b: int8): int32 {
    Wrap32(h as int * 31 + b as int)
  }

  /** Java evaluates `h * 31 + b` in `int`, wrapping after the multiplication
      and again after the addition; that is the same `int` as HashStep's
      single wrap of the exact result. */
  lemma HashStepIsJava(h: int32, b: int8)
    ensures Wrap32(Wrap32(h as int * 31) as int + b as int) == HashStep(h, b)
  {
    var y := h as int * 31;
    var t := (Wrap32(y) as int - y) / Modulus;
    assert Wrap32(y) as int - y == Modulus * t;
    Wrap32Shift(y + b as int, t);
  }

  /** The hash accumulated from h over bs, left to right. */
  function HashFold(h: int32, bs: seq<int8>): int32
    decreases |bs|
  {
    if bs == [] then h else HashStep(HashFold(h, bs[..|bs| - 1]), bs[|bs| - 1])
  }

  /** Reference definition: the unbounded polynomial sum of bs[i] * 31^(n-1-i),
      in Horner form. */
  function Poly(bs: seq<int8>): int
    decreases |bs|
  {
    if bs == [] then 0 else Poly(bs[..|bs| - 1]) * 31 + bs[|bs| - 1] as int
  }

  /** Hashing can be split at any point: the hash of a concatenation continues
      the hash of its first part over the second. */
  lemma {:induction false} HashFoldConcat(h: int32, xs: seq<int8>, ys: seq<int8>)
    ensures HashFold(h, xs + ys) == HashFold(HashFold(h, xs), ys)
    decreases |ys|
  {
    if ys == [] {
      assert xs + ys == xs;
    } else {
      var front := ys[..|ys| - 1];
      assert (xs + ys)[..|xs + ys| - 1] == xs + front;
      assert (xs + ys)[|xs + ys| - 1] == ys[|ys| - 1];
      HashFoldConcat(h, xs, front);
    }
  }

  /** The wrapped hash from 0 is the polynomial, in Horner form, reduced to a
      Java `int`. */
  lemma {:induction false} HashFoldIsPoly(bs: seq<int8>)
    ensures HashFold(0, bs) == Wrap32(Poly(bs))
    decreases |bs|
  {
    if bs != [] {
      var front := bs[..|bs| - 1];
      HashFoldIsPoly(front);
      Wrap32MulAdd(Poly(front), bs[|bs| - 1] as int);
    }
  }

  /** The inner loop `for (byte b : bytes) h = h * 31 + b`. */
  method HashBytes(h: int32, bytes: seq<int8>) returns (r: int32)
    ensures r == HashFold(h, bytes)
  {
    r := h;
    for i := 0 to |bytes|
      invariant r == HashFold(h, bytes[..i])
    {
      assert bytes[..i + 1][..i] == bytes[..i];
      r := HashStep(r, bytes[i]);
    }
    assert bytes[..|bytes|] == bytes;
  }
}
