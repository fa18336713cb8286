/**
 Rust's `i32` and its `+` operator as compiled in release mode, where an
 addition that leaves the 32-bit range wraps around modulo 2^32.
 */
module I32 {

  const MIN: int := -0x8000_0000
  const MAX: int := 0x7fff_ffff
  /** The number of distinct `i32` values, 2^32. */
  const MODULUS: int := 0x1_0000_0000

  predicate InRange(x: int) {
    MIN <= x <= MAX
  }

  /** The values a Rust `i32` can hold. */
  type i32 = x: int | InRange(x)

  /** The two's-complement truncation of `x` to 32 bits. */
  function Wrap(x: int): (r: i32)
    ensures InRange(x) ==> r == x
    ensures (x - r) % MODULUS == 0
  {
    (x - MIN) % MODULUS + MIN
  }

  /** `a + b` on two `i32` values in a release build. */
  function WrappingAdd(a: i32, b: i32): (r: i32)
    ensures InRange(a + b) ==> r == a + b
    ensures (a + b - r) % MODULUS == 0
  {
    Wrap(a + b)
  }

  /** Truncating before or after one more addition gives the same `i32`. */
  lemma WrapAddLeft(x: int, b: i32)
    ensures WrappingAdd(Wrap(x), b) == Wrap(x + b)
  {
  }
}
