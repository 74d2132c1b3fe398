/** Fixed-width integer behaviour of the firmware's C++ arithmetic, written out explicitly. */
module Machine {

  const TWO32: int := 0x1_0000_0000
  const TWO31: int := 0x8000_0000

  /** Values of a C `unsigned` (32 bits on the target). */
  type u32 = x: int | 0 <= x < TWO32

  /** Values of a `u8`. */
  type u8 = x: int | 0 <= x < 256

  /** Values of a C `int`. */
  type i32 = x: int | -TWO31 <= x < TWO31

  /** Conversion to `unsigned`: reduction modulo 2^32. */
  function U32(x: int): (r: u32)
    ensures (x - r) % TWO32 == 0
    ensures 0 <= x < TWO32 ==> r == x
  {
    x % TWO32
  }

  /** Conversion of an `unsigned` bit pattern to `int` (two's complement). */
  function I32(u: u32): (r: i32)
    ensures U32(r) == u
    ensures u < TWO31 ==> r == u
    ensures u >= TWO31 ==> r < 0
  {
    if u < TWO31 then u else u - TWO32
  }

  /** Reduction modulo 2^32 distributes over addition. */
  lemma {:induction false} U32Add(a: int, b: int)
    ensures U32(U32(a) + b) == U32(a + b)
  {
    var q := a / TWO32;
    assert a == q * TWO32 + U32(a);
    assert U32(a) + b == (a + b) - q * TWO32;
    ModShift(a + b, -q);
  }

  /** C's `%` for a positive divisor: the remainder keeps the sign of the dividend. */
  function CRem(a: int, b: int): (r: int)
    requires b > 0
    ensures -b < r < b
    ensures a >= 0 ==> r == a % b
    ensures a < 0 ==> r <= 0
  {
    if a >= 0 then a % b else -((-a) % b)
  }

  /** C's `/` for a positive divisor: the quotient is truncated toward zero. */
  function CDiv(a: int, b: int): (q: int)
    requires b > 0
    ensures q * b + CRem(a, b) == a
  {
    if a >= 0 then a / b else -((-a) / b)
  }

  /** Conversion of an `int` to `signed char` (two's complement, 8 bits). */
  function I8(x: int): (r: int)
    ensures -128 <= r < 128
    ensures (x - r) % 256 == 0
    ensures -128 <= x < 128 ==> r == x
  {
    (x + 128) % 256 - 128
  }

  /** Adding a multiple of 2^32 does not change the 32-bit value. */
  lemma {:induction false} ModShift(x: int, k: int)
    ensures (x + k * TWO32) % TWO32 == x % TWO32
  {
  }
}
