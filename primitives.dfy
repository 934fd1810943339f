/** Kotlin's integral primitive types as bounded mathematical integers, the
    32-bit truncation `toInt()`, the 64-bit pattern of a `Long`, and the
    outcome of an operation that may throw IllegalArgumentException. */
module Primitives {

  const BYTE_MIN: int := -0x80
  const BYTE_MAX: int := 0x7F
  const SHORT_MIN: int := -0x8000
  const SHORT_MAX: int := 0x7FFF
  const INT_MIN: int := -0x8000_0000
  const INT_MAX: int := 0x7FFF_FFFF
  const LONG_MIN: int := -0x8000_0000_0000_0000
  const LONG_MAX: int := 0x7FFF_FFFF_FFFF_FFFF
  /** A Kotlin `Char` is an unsigned 16-bit UTF-16 code unit (surrogates included). */
  const CHAR_MAX: int := 0xFFFF

  const TWO_TO_32: int := 0x1_0000_0000
  const TWO_TO_64: int := 0x1_0000_0000_0000_0000

  predicate IsByte(x: int) { BYTE_MIN <= x <= BYTE_MAX }
  predicate IsShort(x: int) { SHORT_MIN <= x <= SHORT_MAX }
  predicate IsInt(x: int) { INT_MIN <= x <= INT_MAX }
  predicate IsLong(x: int) { LONG_MIN <= x <= LONG_MAX }
  predicate IsChar(x: int) { 0 <= x <= CHAR_MAX }

  /** `toInt()`: the Int whose 32-bit two's complement pattern is the low 32
      bits of `x`. Int arithmetic in Kotlin wraps, so an Int expression
      evaluates to ToInt of its exact value. */
  function ToInt(x: int): (r: int)
    ensures IsInt(r)
    ensures (x - r) % TWO_TO_32 == 0
    ensures IsInt(x) ==> r == x
  {
    (x - INT_MIN) % TWO_TO_32 + INT_MIN
  }

  /** The 64-bit two's complement pattern of a Long value. */
  function LongBits(x: int): (b: bv64)
    requires IsLong(x)
  {
    (x % TWO_TO_64) as bv64
  }

  /** Why an operation threw IllegalArgumentException. */
  datatype Reason = EmptyCoercionRange | NonPositiveStep

  /** A value, or the IllegalArgumentException the Kotlin code throws. */
  datatype Result<+T> = Ok(value: T) | IllegalArgument(reason: Reason)
}
