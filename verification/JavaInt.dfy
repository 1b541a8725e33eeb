/**
 * Java's fixed-width integers: the `int` and `long` ranges, two's-complement
 * wrap-around of `long` arithmetic, and integer division and remainder,
 * which truncate toward zero (unlike Dafny's Euclidean `/` and `%`).
 */
module JavaInt {

  const INT_MIN: int := -0x8000_0000
  const INT_MAX: int := 0x7fff_ffff
  const LONG_MIN: int := -0x8000_0000_0000_0000
  const LONG_MAX: int := 0x7fff_ffff_ffff_ffff
  const LONG_MODULUS: int := 0x1_0000_0000_0000_0000

  /** A Java `int`. */
  type Int32 = x: int | INT_MIN <= x <= INT_MAX

  /** A Java `long`. */
  type Int64 = x: int | LONG_MIN <= x <= LONG_MAX

  predicate InLong(x: int) {
    LONG_MIN <= x <= LONG_MAX
  }

  /**
   * The `long` a Java expression of type `long` evaluates to when its exact
   * value is `x`: the unique long congruent to `x` modulo 2^64.
   */
  function Wrap64(x: int): (r: Int64)
    ensures (x - r) % LONG_MODULUS == 0
    ensures InLong(x) ==> r == x
  {
    if InLong(x) then x
    else (x - LONG_MIN) % LONG_MODULUS + LONG_MIN
  }

  /** Java's `a / d` for a positive divisor: the quotient rounded toward zero. */
  function JavaDiv(a: int, d: int): (q: int)
    requires d > 0
    ensures a >= 0 ==> 0 <= a - d * q < d
    ensures a < 0 ==> -d < a - d * q <= 0
  {
    if a >= 0 then a / d else -((-a) / d)
  }

  /** Java's `a % d` for a positive divisor: the remainder takes the sign of `a`. */
  function JavaRem(a: int, d: int): (r: int)
    requires d > 0
    ensures a >= 0 ==> r == a % d
    ensures a < 0 ==> r == -((-a) % d)
  {
    a - d * JavaDiv(a, d)
  }
}
