/**
 The Java value types the compressor works with: `byte`-sized values read
 from a bit stream, `short` symbols, `int` counters whose addition wraps
 around at 32 bits, and nullable boxed references.
 */
module JavaTypes {

  /** A nullable Java reference such as an `Integer` or a `Pair` field. */
  datatype Option<T> = None | Some(get: T)

  /** An 8-bit group as returned by `readBits(8)`. */
  type Byte = x: int | 0 <= x < 0x100

  /** A Java `short`. */
  type Short = x: int | -0x8000 <= x < 0x8000

  /** A Java `int`. */
  type Int32 = x: int | -0x8000_0000 <= x < 0x8000_0000

  const TwoTo32: int := 0x1_0000_0000

  /** The Java `int` that an exact integer result wraps around to. */
  function Wrap32(x: int): (r: Int32)
    ensures (r - x) % TwoTo32 == 0
    ensures -0x8000_0000 <= x < 0x8000_0000 ==> r == x
  {
    (x + 0x8000_0000) % TwoTo32 - 0x8000_0000
  }

  /** Two integers that agree modulo 2^32 wrap to the same Java `int`. */
  lemma WrapCongruent(x: int, y: int)
    requires (x - y) % TwoTo32 == 0
    ensures Wrap32(x) == Wrap32(y)
  {
    var q := (x - y) / TwoTo32;
    assert x == y + q * TwoTo32;
  }

  /** Java's `a + b` on `int`: incrementing a wrapped value is the same as
      wrapping the incremented exact value. */
  lemma WrapIncrement(x: int)
    ensures Wrap32(Wrap32(x) + 1) == Wrap32(x + 1)
  {
    WrapCongruent(Wrap32(x) + 1, x + 1);
  }
}
