/** Java's fixed-width integer types as the rope sees them. */
module JavaTypes {

  /** A Java `byte`: a signed 8-bit two's complement value. */
  newtype int8 = x: int | -0x80 <= x < 0x80

  /** A Java `int`: a signed 32-bit two's complement value. */
  newtype int32 = x: int | -0x8000_0000 <= x < 0x8000_0000

  const Modulus: int := 0x1_0000_0000

  /** The Java `int` that an unbounded result wraps around to: the unique
      value of the `int` range congruent to x modulo 2^32. */
  function Wrap32(x: int): (r: int32)
    ensures (r as int - x) % Modulus == 0
  {
    ((x + 0x8000_0000) % Modulus - 0x8000_0000) as int32
  }

  /** Wrapping forgets multiples of 2^32. */
  lemma Wrap32Shift(x: int, k: int)
    ensures Wrap32(x + Modulus * k) == Wrap32(x)
  {
    var a := x + 0x8000_0000;
    assert (a + Modulus * k) % Modulus == a % Modulus;
  }

  /** An accumulator already wrapped to an `int` before the next `* 31 + b`
      gives the same `int` as the unwrapped accumulator would: the hash of
      a sequence can be computed on the exact polynomial and wrapped once. */
  lemma {:induction false} Wrap32MulAdd(x: int, b: int)
    ensures Wrap32(Wrap32(x) as int * 31 + b) == Wrap32(x * 31 + b)
  {
    var w := Wrap32(x) as int;
    var t := (w - x) / Modulus;
    assert w - x == Modulus * t;
    assert w * 31 + b == x * 31 + b + Modulus * (31 * t);
    Wrap32Shift(x * 31 + b, 31 * t);
  }
}
