/** Signed 32-bit integers as the engine's `int32` holds them.
    The rocket counters of a player are `int32`; an addition or subtraction
    that leaves the range wraps around (two's complement). */
module Int32 {

  const INT32_MIN: int := -0x8000_0000
  const INT32_MAX: int := 0x7FFF_FFFF
  /** Number of distinct `int32` values. */
  const MODULUS: int := 0x1_0000_0000

  predicate IsInt32(x: int) {
    INT32_MIN <= x <= INT32_MAX
  }

  /** The `int32` value that the mathematical result `x` is stored as. */
  function Wrap32(x: int): (r: int)
    ensures IsInt32(r)
    ensures (r - x) % MODULUS == 0
    ensures IsInt32(x) ==> r == x
  {
    var q := (x - INT32_MIN) / MODULUS;
    assert (x - INT32_MIN) % MODULUS + INT32_MIN - x == -(q * MODULUS);
    (x - INT32_MIN) % MODULUS + INT32_MIN
  }
}
