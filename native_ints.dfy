// Fixed-width integers of the .NET runtime, with the wrapping arithmetic and
// the truncating casts that the library relies on written out explicitly.
module NativeInts {

  const TWO_16: int := 0x1_0000
  const TWO_31: int := 0x8000_0000
  const TWO_32: int := 0x1_0000_0000
  const TWO_63: int := 0x8000_0000_0000_0000
  const TWO_64: int := 0x1_0000_0000_0000_0000

  /** `nuint` on a 64-bit process (the pointer-sized unsigned integer). */
  newtype nuint = x: int | 0 <= x < 0x1_0000_0000_0000_0000
  /** `uint` */
  newtype uint = x: int | 0 <= x < 0x1_0000_0000
  /** `int` */
  newtype int32 = x: int | -0x8000_0000 <= x < 0x8000_0000
  /** `long` */
  newtype int64 = x: int | -0x8000_0000_0000_0000 <= x < 0x8000_0000_0000_0000

  const NUINT_MAX: nuint := 0xFFFF_FFFF_FFFF_FFFF
  const UINT_MAX: uint := 0xFFFF_FFFF
  const INT_MAX: int32 := 0x7FFF_FFFF
  const LONG_MAX: int64 := 0x7FFF_FFFF_FFFF_FFFF

  /** Unchecked `nuint` arithmetic: the mathematical result reduced modulo 2^64. */
  function Wrap(x: int): (r: nuint)
    ensures 0 <= x < TWO_64 ==> r as int == x
    ensures (x - r as int) % TWO_64 == 0
  {
    (x % TWO_64) as nuint
  }

  /** The `(uint)` cast of a `nuint`: keeps the low 32 bits. */
  function Trunc32(x: nuint): (r: uint)
    ensures r as int <= x as int
    ensures x as int < TWO_32 ==> r as int == x as int
    ensures (x as int - r as int) % TWO_32 == 0
  {
    (x as int % TWO_32) as uint
  }

  /** The `(nuint)` cast of an `int`: sign-extends, so a negative value wraps. */
  function IntToNuint(x: int32): (r: nuint)
    ensures x >= 0 ==> r as int == x as int
    ensures x < 0 ==> r as int == TWO_64 + x as int
  {
    Wrap(x as int)
  }

  function Min(a: nuint, b: nuint): (r: nuint)
    ensures r <= a && r <= b && (r == a || r == b)
  {
    if a < b then a else b
  }

  /**
    * Bit `m` of `x` in two's complement, for a power of two `m`
    * (`(x & m) != 0`). Euclidean division makes this right for negative `x`.
    */
  predicate BitSet(x: int, m: nat)
    requires m > 0
  {
    (x / m) % 2 == 1
  }

  /** Bit `m` of `x` and the bits below it are `x % (2 * m)`. */
  lemma BitSplit(x: int, m: nat)
    requires m > 0
    ensures x % (2 * m) == (if BitSet(x, m) then m else 0) + x % m
  {
    var q, r := x / (2 * m), x % (2 * m);
    assert x == (2 * q) * m + r;
    if r >= m {
      DivModUnique(x, m, 2 * q + 1, r - m);
      DivModUnique(2 * q + 1, 2, q, 1);
    } else {
      DivModUnique(x, m, 2 * q, r);
      DivModUnique(2 * q, 2, q, 0);
    }
  }

  /** The low three bits of `x` (`x & 7`), bit by bit. */
  lemma LowThreeBits(x: int)
    ensures x % 8 == (if BitSet(x, 4) then 4 else 0) + (if BitSet(x, 2) then 2 else 0) + (if BitSet(x, 1) then 1 else 0)
  {
    BitSplit(x, 4);
    BitSplit(x, 2);
    BitSplit(x, 1);
  }

  /** The low four bits of `x` (`x & 15`), bit by bit. */
  lemma LowFourBits(x: int)
    ensures x % 16 == (if BitSet(x, 8) then 8 else 0) + (if BitSet(x, 4) then 4 else 0)
                      + (if BitSet(x, 2) then 2 else 0) + (if BitSet(x, 1) then 1 else 0)
  {
    BitSplit(x, 8);
    BitSplit(x, 4);
    BitSplit(x, 2);
    BitSplit(x, 1);
  }

  /** `x & ~(m - 1)` for a power of two `m`: `x` rounded down to a multiple of `m`. */
  function RoundDown(x: nat, m: nat): (r: nat)
    requires m > 0
    ensures r <= x && x - r < m && r % m == 0
  {
    DivModUnique(x - x % m, m, x / m, 0);
    x - x % m
  }

  /** Division and remainder are determined by `x == q * m + r` with `0 <= r < m`. */
  lemma DivModUnique(x: int, m: int, q: int, r: int)
    requires m > 0 && 0 <= r < m && x == q * m + r
    ensures x / m == q && x % m == r
  {
    var q', r' := x / m, x % m;
    assert q * m - q' * m == (q - q') * m;
    if q > q' {
      MulAtLeast(q - q', m);
    } else if q < q' {
      MulAtLeast(q' - q, m);
    }
  }

  /** Adding a multiple of 2^64 does not change the wrapped value. */
  lemma WrapShift(x: int, k: int)
    ensures Wrap(x + k * TWO_64) == Wrap(x)
  {
    DivModUnique(x + k * TWO_64, TWO_64, x / TWO_64 + k, x % TWO_64);
  }

  /** The next multiple of `m` after a smaller multiple `a` is at most `b`. */
  lemma NextMultiple(a: nat, b: nat, m: nat)
    requires m > 0 && a % m == 0 && b % m == 0 && a < b
    ensures a + m <= b
  {
    var qa, qb := a / m, b / m;
    assert a == qa * m && b == qb * m;
    if qa >= qb {
      MulMonotone(qb, qa, m);
    }
    MulMonotone(qa + 1, qb, m);
  }

  /** A multiple of `m` is a multiple of every divisor `d` of `m`. */
  lemma MultipleOfMultiple(a: nat, m: nat, d: nat)
    requires m > 0 && d > 0 && a % m == 0 && m % d == 0
    ensures a % d == 0
  {
    DivModUnique(a, d, (a / m) * (m / d), 0);
  }

  /** The sum of two multiples of `m` is a multiple of `m`. */
  lemma AddMultiples(a: int, b: int, m: nat)
    requires m > 0 && a % m == 0 && b % m == 0
    ensures (a + b) % m == 0
  {
    DivModUnique(a + b, m, a / m + b / m, 0);
  }

  lemma MulMonotone(a: int, b: int, m: nat)
    requires a <= b
    ensures a * m <= b * m
  {
    assert b * m - a * m == (b - a) * m;
  }

  lemma MulAtLeast(d: int, m: int)
    requires d >= 1 && m >= 0
    ensures d * m >= m
  {
    assert d * m == (d - 1) * m + m;
  }
}

// The exceptions the library throws, as values.
module Errors {

  datatype Exception =
    | IndexOutOfRange
    | ArgumentOutOfRange
    | ArgumentNull
    | Argument
    | NotSupported
    | DivideByZero

  datatype Result<T> = Ok(value: T) | Throws(error: Exception)

  /** How a `void` method that may throw ended. */
  datatype Outcome = Done | Failed(error: Exception)

  /** The `out` value of a `TryXxx` method, present exactly when it returned true. */
  datatype Option<T> = None | Some(value: T)
}
