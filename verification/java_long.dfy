/** The JVM's 64-bit signed integer (`Long`) and the narrowing conversion
    `BigInteger.toLong()`, which keeps the low 64 bits in two's complement. */
module JavaLong {

  const MinLong: int := -0x8000_0000_0000_0000
  const MaxLong: int := 0x7FFF_FFFF_FFFF_FFFF
  const TwoTo64: int := 0x1_0000_0000_0000_0000

  /** A value a Kotlin `Long` can hold. */
  type Long = x: int | MinLong <= x <= MaxLong

  /** `BigInteger.toLong()`: the low 64 bits of `x`, read as a signed number.
      The result is the unique `Long` congruent to `x` modulo 2^64, and the
      conversion loses nothing exactly when `x` already fits in a `Long`. */
  function ToLong(x: int): (r: Long)
    ensures (x - r) % TwoTo64 == 0
    ensures MinLong <= x <= MaxLong <==> r == x
  {
    var low := x % TwoTo64;
    if low <= MaxLong then low else low - TwoTo64
  }
}
