/** Java's 64-bit `long` and the two operators of it that the map's addressing uses. */
module Int64 {

  const MIN: int := -0x8000_0000_0000_0000
  const MAX: int := 0x7fff_ffff_ffff_ffff

  /** A Java `long`. */
  newtype i64 = x: int | -0x8000_0000_0000_0000 <= x <= 0x7fff_ffff_ffff_ffff

  /** Magnitude of a mathematical integer (no wrap-around). */
  function Magnitude(a: int): (m: nat)
    ensures m == a || m == -a
  {
    if a < 0 then -a else a
  }

  /** Java's `a % n` on `long` for a positive divisor: the quotient is truncated toward
      zero, so the remainder has the magnitude of `|a| mod n` and the sign of `a`. */
  function Rem(a: i64, n: i64): (r: i64)
    requires n > 0
    ensures Magnitude(r as int) == Magnitude(a as int) % n as int
    ensures r == 0 || (r < 0 <==> a < 0)
  {
    if a >= 0 then a % n else (-((-(a as int)) % (n as int))) as i64
  }

  /** Java's `Math.abs(long)`: negation wraps around, so the minimum value is its own
      absolute value; every other value gets its magnitude. */
  function Abs(a: i64): (r: i64)
    ensures a as int != MIN ==> r as int == Magnitude(a as int)
    ensures a as int == MIN ==> r == a
  {
    if a >= 0 then a else if a as int == MIN then a else -a
  }
}
