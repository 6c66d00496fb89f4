/** Java int arithmetic where it differs from Dafny's unbounded int: the
    32-bit wrap-around of a product and halving that truncates toward
    zero. */
module JavaInt {

  const IntMin: int := -0x8000_0000
  const IntMax: int := 0x7FFF_FFFF

  predicate IsInt(x: int) {
    IntMin <= x <= IntMax
  }

  /** The int a Java expression yields for the mathematical value x: x
      reduced modulo 2^32 into [IntMin, IntMax]. */
  function Wrap(x: int): (r: int)
    ensures IsInt(r)
    ensures (r - x) % 0x1_0000_0000 == 0
    ensures IsInt(x) ==> r == x
  {
    (x - IntMin) % 0x1_0000_0000 + IntMin
  }

  /** Java's a / 2: half of a rounded toward zero. */
  function Half(a: int): (q: int)
    ensures a >= 0 ==> q == a / 2
    ensures a % 2 == 0 ==> q + q == a
    ensures a % 2 != 0 ==> (a > 0 ==> q + q == a - 1) && (a < 0 ==> q + q == a + 1)
  {
    if a >= 0 then a / 2 else -((-a) / 2)
  }
}
