/** Java's 32-bit two's-complement `int`, as used by LibraNet for ids, issue
    numbers and day counters. Arithmetic is done on unbounded `int` and the
    result is brought back into range by `Wrap`, as the JVM does. */
module JavaInt {

  const MIN: int := -0x8000_0000
  const MAX: int := 0x7FFF_FFFF
  const Modulus: int := 0x1_0000_0000

  type Int32 = x: int | MIN <= x <= MAX

  /** The Java `int` that the mathematical value `x` wraps around to. */
  function Wrap(x: int): (r: Int32)
    ensures MIN <= x <= MAX ==> r == x
    ensures MAX < x <= MAX + Modulus ==> r == x - Modulus
    ensures MIN - Modulus <= x < MIN ==> r == x + Modulus
    ensures (x - r) % Modulus == 0
  {
    (x - MIN) % Modulus + MIN
  }

  function Max(a: int, b: int): int
  {
    if a < b then b else a
  }
}
