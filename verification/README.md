# RSA character cipher with punctuation delimiters — Dafny model

The program is a small console tool. It holds an RSA key pair as two
`Pair<Long, Long>` values: `(e, n)` and `(d, n)`. It encrypts a text one
character at a time. Each character's UTF-16 code `m` becomes `m^e mod n`,
computed with `BigInteger.modPow` and narrowed back to a `Long`. The
ciphertext text is each value in decimal, followed by one punctuation mark
picked at random from `, . ! ? : ; - _`.

This project models the two functions that do real work:

- `rsaEncrypt` (module `Cipher`). It is modelled on top of a model of
  `BigInteger.modPow` (module `BigMath`) and of `BigInteger.toLong()`
  (module `JavaLong`).
- `encryptStringWithRSAAndPunctuation` (module `TextCodec`). It uses the
  ciphertext text format (module `WireFormat`) and the decimal rendering of
  `StringBuilder.append(Long)` (module `Decimal`).

Each operation is paired with an independent reference:

- `ModPow` (repeated squaring) is proved equal to the plain power `Pow`,
  reduced modulo `n`.
- `ModInverse` (a search) is proved to return the unique inverse in `[0, n)`.
- `Render` (decimal digits) is proved to be inverted by `Parse`, in both
  directions.
- The ciphertext writer `Frame` is proved against a reader, `Split` and
  `Decode`. Splitting the text on the eight marks gives back exactly the
  decimal text of every encrypted value, in order, with no empty tokens.
  Parsing those tokens gives back the values.

The reader is a reference for the format only. It does not model the
program's decryption functions, which are placeholders.

Modelling decisions:

- **Exceptions.** `modPow` throws `ArithmeticException` when the modulus is
  not positive. With a negative exponent, it also throws when the power has
  no inverse modulo `n`. These exceptions are `Failure` values. An exception
  ends the loop of `encryptStringWithRSAAndPunctuation`, so the model's
  result is the first failing character's error.
- **No range check.** The cipher has no `requires n > 0` and no check that
  the code is below `n`. The model follows the code here.
- **Characters.** A `Char` is its UTF-16 code unit (`CharCode`, in
  `[0, 0x10000)`). Surrogate halves are included, so Dafny's `char` is not
  used for input. The input text is a sequence of code units.
- **Determinism.** `rsaEncrypt` is a Dafny function of the code and the key.
  So it depends on nothing else, by construction.
- **Random marks.** `punctuationMarks.random()` is replaced by a parameter
  `picks`. It holds one index into the mark list per character.

The rest of src/main.kt does no computation. Its comments name primality
testing (line 4), a prime search (line 10), the extended Euclidean algorithm
(line 16), the modular inverse (line 22) and key generation (line 28). But
`isPrime`, `generatePrime`, `extendedGCD`, `modInverse`,
`generateRSAKeyPair`, `rsaDecrypt` and `decryptStringWithRSAAndPunctuation`
only return constants. The key pair is therefore `((0, 0), (0, 0))`, and the
program's `encrypt` command throws "modulus not positive" on any non-empty
text. `RsaEncrypt` and `EncryptString` state this outcome (`key.n <= 0`).
Each ciphertext value is narrowed to a `Long` by `toLong()` (line 49), so the
model's values are `Long`s too.

## Model

| member | source | states |
|---|---|---|
| JavaLong.ToLong | src/main.kt:49 | `toLong()` gives the unique `Long` congruent to the value modulo 2^64, and it is the value itself exactly when the value fits in a `Long` |
| BigMath.ModPow | src/main.kt:48 | modular exponentiation by repeated squaring equals the reference power `b^e` reduced modulo `n` |
| BigMath.PowMod | src/main.kt:47-48 | a power modulo `n` depends on the base only modulo `n` |
| BigMath.ModInverse | src/main.kt:48 | the inverse used for negative exponents is an inverse in `[0, n)`, and there is none exactly when the number is not invertible modulo `n` |
| BigMath.InverseUnique | src/main.kt:48 | two inverses in `[0, n)` are equal, so the inverse found is the one `modPow` returns |
| BigMath.BigModPow | src/main.kt:45-48 | `modPow` fails with "modulus not positive" exactly when `n <= 0`; for `e >= 0` it gives `b^e mod n`; for `e < 0` it gives an inverse of `b^-e`, and fails with "not invertible" exactly when there is none; every result is below `n` |
| BigMath.BigModPowMod | src/main.kt:47-48 | `modPow` gives the same outcome for bases that agree modulo `n` |
| Cipher.RsaEncrypt | src/main.kt:35-51 | encrypting a character fails exactly when `n <= 0` or its power is not invertible; for `e >= 0` the result is `code^e mod n`, and every result lies in `[0, n)`, so the `Long` conversion is lossless |
| Cipher.EncryptIgnoresWrap | src/main.kt:44-49 | with no check that the code is below `n`, characters whose codes agree modulo `n` encrypt to the same value |
| Cipher.SmallKeyExample | src/main.kt:44-49 | under `(e, n) = (7, 143)`, 'A' and 'B' encrypt to 65 and 66, and code 2 encrypts to 128 |
| Decimal.LongToString | src/main.kt:69 | `append(Long)` writes a leading '-' exactly for a negative value; after it comes a numeral without leading zeros that reads back as the magnitude, so the whole text reads back as the value when it is non-negative |
| Decimal.Render | src/main.kt:69 | the decimal text of a non-negative number is non-empty, all digits, and has a leading '0' exactly when the number is zero |
| Decimal.ParseRender | src/main.kt:69 | reading the decimal text back gives the number |
| Decimal.RenderParse | src/main.kt:69 | every numeral without a leading zero is the decimal text of its value |
| Decimal.RenderInjective | src/main.kt:69 | distinct numbers have distinct decimal text |
| WireFormat.DigitsAreNotMarks | src/main.kt:65 | no digit belongs to the mark list |
| WireFormat.Unit | src/main.kt:69-70 | one turn of the loop adds at least two characters, the last being the picked mark; for a non-negative value nothing before that mark is a mark |
| WireFormat.Frame | src/main.kt:67-71 | the builder's contents after the loop: at least two characters per value, so it is empty only for the empty text; what those characters are is stated by `FrameSnoc`, `SplitFrame` and `DecodeFrame` |
| WireFormat.FrameSnoc | src/main.kt:67-71 | each loop step appends the value's decimal text and then its one mark |
| WireFormat.FrameMarkCount | src/main.kt:67-71 | the text holds exactly one mark per encrypted value |
| WireFormat.FrameEndsWithMark | src/main.kt:69-70 | a non-empty text ends with the mark picked for the last character |
| WireFormat.FrameAlphabet | src/main.kt:65-71 | every character of the text is a digit or a mark when the values are non-negative |
| WireFormat.FrameStripMarks | src/main.kt:68-70 | removing the marks leaves the values' decimal texts in order, whatever marks were picked |
| WireFormat.DelimiterIndependence | src/main.kt:70 | for any values, two texts written with different picks differ only in which mark stands at each delimiter position, and so are equal once marks are removed |
| WireFormat.SplitFrame | src/main.kt:65-71 | splitting the text on the marks gives exactly the decimal text of each value, in order, with no empty tokens |
| WireFormat.DecodeFrame | src/main.kt:65-71 | parsing the split tokens gives back exactly the encrypted values |
| TextCodec.EncryptedValues | src/main.kt:67-68 | the characters' encryptions in order: it succeeds exactly when every character encrypts, and then holds each character's encrypted value at that character's position |
| TextCodec.ValuesNonNegative | src/main.kt:68 | every encrypted value is non-negative |
| TextCodec.SmallKeyText | src/main.kt:65-72 | "AB" under `(7, 143)` with the marks ',' and '_' is written as "65,66_" |
| TextCodec.FirstFailure | src/main.kt:67-68 | when every earlier character encrypts and this one throws, the whole encryption fails with this character's error |
| TextCodec.WriteStep | src/main.kt:67-71 | one turn of the loop keeps the loop's invariant: the values so far are the characters' encryptions and the builder holds exactly their text |
| TextCodec.WrittenAll | src/main.kt:67-72 | after the loop has seen every character, the builder holds the ciphertext text of all the encrypted values |
| TextCodec.CiphertextDecodes | src/main.kt:65-72 | the ciphertext text holds one mark per character, and reading it back gives exactly each character's encryption, in order |
| TextCodec.EncryptString | src/main.kt:55-73 | the empty text encrypts to the empty string; the result fails exactly when some character's encryption throws, with the first such error; otherwise the text is each character's value in decimal followed by its mark, in input order |

## Left out

- `isPrime`, `generatePrime`, `extendedGCD`, `modInverse` and `generateRSAKeyPair` (src/main.kt:5-31): these are placeholders that return constants. Modelling primality, Euclid or key derivation would invent behaviour the code does not have.
- `rsaDecrypt` and `decryptStringWithRSAAndPunctuation` (src/main.kt:77-102): these are placeholders that return `'a'` and `"a"`. There is no decryption to model, so there is no encrypt/decrypt round-trip lemma. The format's own round-trip (`DecodeFrame`) is proved instead.
- `main` (src/main.kt:106-157): console I/O and the command loop.
- `punctuationMarks.random()` (src/main.kt:70): the random number generator is not modelled. The choices are the `picks` parameter.
- `BigInteger.modPow` internals: the library's windowed and Montgomery algorithms are not modelled. `modPow` is modelled by its result, computed by repeated squaring, with the library's exceptions.
- `BigInteger.modInverse` internals: its algorithm is not modelled. The model searches `[0, n)` for the inverse, which is unique (`InverseUnique`).
- `StringBuilder` buffer management: the builder is modelled as string concatenation.
- WireFormat.Frame and WireFormat.Unit: their own contracts state only lengths and the final mark. Richer contracts on these two functions made every proof that mentions them much more expensive. The content of the text is stated by the lemmas about them instead (`FrameSnoc`, `FrameStripMarks`, `SplitFrame`, `DecodeFrame`), and the decimal text of one value by `Decimal.LongToString`.
