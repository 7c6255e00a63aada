/** `rsaEncrypt` of src/main.kt: one character raised to the public
    exponent modulo the public modulus (the RSAEP primitive of section
    5.1.1 of RFC 8017, without that section's range check on the message). */
module Cipher {
  import opened Wrappers
  import opened JavaLong
  import opened BigMath

  /** `Char.code`: a UTF-16 code unit. Surrogate halves are included, so
      this is not Dafny's `char`. */
  type CharCode = c: int | 0 <= c < 0x1_0000

  /** The `Pair<Long, Long>` the program uses as a public key: `(e, n)`. */
  datatype PublicKey = PublicKey(e: Long, n: Long)

  /** Encrypts one character. `modPow` throws when the modulus is not
      positive, and, for a negative exponent, when the character's power has
      no inverse; otherwise the result lies in `[0, n)` and so survives the
      narrowing `toLong()` unchanged. */
  function RsaEncrypt(c: CharCode, key: PublicKey): (r: Result<Long, ArithmeticError>)
    ensures key.n <= 0 <==> r == Failure(ModulusNotPositive)
    ensures r.Success? ==> 0 <= r.value < key.n
    ensures key.n > 0 && key.e >= 0 ==> r == Success(Pow(c, key.e) % key.n)
    ensures key.n > 0 && key.e < 0 && r.Success? ==> IsInverse(Pow(c, -(key.e as int)), r.value, key.n)
    ensures key.n > 0 && key.e < 0 ==>
              (r == Failure(NotInvertible) <==> !Invertible(Pow(c, -(key.e as int)), key.n))
  {
    match BigModPow(c, key.e, key.n)
    case Failure(err) => Failure(err)
    case Success(v) => Success(ToLong(v))
  }

  /** With no check that the code is below `n`, two characters whose codes
      agree modulo `n` encrypt to the same number. */
  lemma EncryptIgnoresWrap(c: CharCode, d: CharCode, key: PublicKey)
    requires key.n > 0 && c % key.n == d % key.n
    ensures RsaEncrypt(c, key) == RsaEncrypt(d, key)
  {
    BigModPowMod(c, key.e, key.n);
    BigModPowMod(d, key.e, key.n);
  }

  /** A worked instance: p = 11, q = 13, n = 143, e = 7. The letters 'A'
      (65) and 'B' (66) are fixed points of this key. */
  lemma SmallKeyExample()
    ensures RsaEncrypt(65, PublicKey(7, 143)) == Success(65)
    ensures RsaEncrypt(66, PublicKey(7, 143)) == Success(66)
    ensures RsaEncrypt(2, PublicKey(7, 143)) == Success(128)
  {
    assert Pow(65, 7) % 143 == 65;
    assert Pow(66, 7) % 143 == 66;
    assert Pow(2, 7) == 128;
  }
}
