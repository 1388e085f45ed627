/** Go's 64-bit signed integers: the counters and timestamps of a quota
    document are `int64`, and Go's `int` is taken to be 64 bits wide.
    Arithmetic on them wraps around in two's complement. */
module GoInt {

  const MinInt64: int := -0x8000_0000_0000_0000
  const MaxInt64: int := 0x7fff_ffff_ffff_ffff

  /** 2^64, the modulus of 64-bit arithmetic. */
  const Modulus64: int := 0x1_0000_0000_0000_0000

  type Int64 = x: int | MinInt64 <= x <= MaxInt64

  predicate InRange64(x: int) {
    MinInt64 <= x <= MaxInt64
  }

  /** The 64-bit two's complement value of the mathematical integer `x`:
      the result of a Go `int64` addition or subtraction whose exact result is `x`.
      It is the one representable value that differs from `x` by a multiple of 2^64. */
  function Wrap64(x: int): (r: Int64)
    ensures InRange64(x) ==> r == x
    ensures InRange64(x - Modulus64) ==> r == x - Modulus64
    ensures InRange64(x + Modulus64) ==> r == x + Modulus64
  {
    var y := x - MinInt64;
    ModOfShifted(y, 0);
    ModOfShifted(y, 1);
    ModOfShifted(y, -1);
    y % Modulus64 + MinInt64
  }

  /** Euclidean remainder of a value known to lie in the `k`-th block of width 2^64. */
  lemma ModOfShifted(y: int, k: int)
    ensures k * Modulus64 <= y < (k + 1) * Modulus64 ==> y % Modulus64 == y - k * Modulus64
  {
  }
}
