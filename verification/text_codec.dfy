/** `encryptStringWithRSAAndPunctuation` of src/main.kt: encrypts a text
    character by character and writes the ciphertext text. */
module TextCodec {
  import opened Wrappers
  import opened JavaLong
  import opened BigMath
  import opened Decimal
  import opened Cipher
  import opened WireFormat

  /** `rsaEncrypt` applied to each character in order. The first character
      whose encryption throws ends the whole computation with that error,
      as the exception leaves the program's loop. */
  function EncryptedValues(text: seq<CharCode>, key: PublicKey): (r: Result<seq<Long>, ArithmeticError>)
    ensures r.Success? <==> forall i :: 0 <= i < |text| ==> RsaEncrypt(text[i], key).Success?
    ensures r.Success? ==> (|r.value| == |text| &&
              forall i :: 0 <= i < |text| ==> RsaEncrypt(text[i], key) == Success(r.value[i]))
    decreases |text|
  {
    if text == [] then Success([])
    else match RsaEncrypt(text[0], key)
      case Failure(err) => Failure(err)
      case Success(v) =>
        match EncryptedValues(text[1..], key)
        case Failure(err) => Failure(err)
        case Success(vs) => Success([v] + vs)
  }

  /** Every encrypted value is non-negative: each lies in `[0, n)`. */
  lemma ValuesNonNegative(text: seq<CharCode>, key: PublicKey)
    requires EncryptedValues(text, key).Success?
    ensures NonNegative(EncryptedValues(text, key).value)
  {
    var vs := EncryptedValues(text, key).value;
    forall i | 0 <= i < |vs|
      ensures 0 <= vs[i]
    {
      assert RsaEncrypt(text[i], key) == Success(vs[i]);
    }
  }

  /** A worked instance: "AB" under the key (7, 143), with the first and
      last marks picked, is written as "65,66_". */
  lemma SmallKeyText()
    ensures EncryptedValues([65, 66], PublicKey(7, 143)) == Success([65, 66])
    ensures Frame([65, 66], [0, 7]) == "65,66_"
  {
    SmallKeyExample();
    var text: seq<CharCode> := [65, 66];
    var r := EncryptedValues(text, PublicKey(7, 143));
    assert RsaEncrypt(text[0], PublicKey(7, 143)) == Success(65);
    assert RsaEncrypt(text[1], PublicKey(7, 143)) == Success(66);
    assert r.Success? && |r.value| == 2 && r.value[0] == 65 && r.value[1] == 66;
    assert r.value == [65, 66];
    assert Render(65) == "65" && Render(66) == "66";
  }

  /** The ciphertext text holds one mark per character, and reading it back
      gives exactly each character's encryption, in order. */
  lemma CiphertextDecodes(text: seq<CharCode>, key: PublicKey, picks: seq<Pick>)
    requires |picks| == |text| && EncryptedValues(text, key).Success?
    ensures MarkCount(Frame(EncryptedValues(text, key).value, picks)) == |text|
    ensures var d := Decode(Frame(EncryptedValues(text, key).value, picks));
              d.Some? && |d.value| == |text| &&
              forall i :: 0 <= i < |text| ==> RsaEncrypt(text[i], key) == Success(d.value[i])
  {
    var vs := EncryptedValues(text, key).value;
    ValuesNonNegative(text, key);
    FrameMarkCount(vs, picks);
    DecodeFrame(vs, picks);
  }

  /** The first `i` characters encrypt to `vals`, and `out` is the text the
      program's loop has built for them. */
  predicate WrittenUpTo(text: seq<CharCode>, key: PublicKey, picks: seq<Pick>, i: nat, vals: seq<Long>, out: string)
    requires |picks| == |text|
  {
    && i <= |text|
    && |vals| == i
    && (forall j :: 0 <= j < i ==> RsaEncrypt(text[j], key) == Success(vals[j]))
    && out == Frame(vals, picks[..i])
  }

  /** One turn of the loop: append the value's text and its mark. */
  lemma WriteStep(text: seq<CharCode>, key: PublicKey, picks: seq<Pick>, i: nat,
                  vals: seq<Long>, out: string, v: Long)
    requires |picks| == |text| && i < |text| && WrittenUpTo(text, key, picks, i, vals, out)
    requires RsaEncrypt(text[i], key) == Success(v)
    ensures WrittenUpTo(text, key, picks, i + 1, vals + [v], out + Unit(v, picks[i]))
  {
    var vals' := vals + [v];
    forall j | 0 <= j < i + 1
      ensures RsaEncrypt(text[j], key) == Success(vals'[j])
    {
      if j < i {
        assert vals'[j] == vals[j];
      }
    }
    assert picks[..i + 1] == picks[..i] + [picks[i]];
    FrameSnoc(vals, picks[..i], v, picks[i]);
  }

  /** When the loop has visited every character, it has written the
      ciphertext text of all the encrypted values. */
  lemma WrittenAll(text: seq<CharCode>, key: PublicKey, picks: seq<Pick>, vals: seq<Long>, out: string)
    requires |picks| == |text| && WrittenUpTo(text, key, picks, |text|, vals, out)
    ensures EncryptedValues(text, key) == Success(vals)
    ensures out == Frame(vals, picks)
  {
    assert picks[..|text|] == picks;
    assert vals == EncryptedValues(text, key).value;
  }

  /** The error that leaves the loop is the first character's that fails. */
  lemma {:induction false} FirstFailure(text: seq<CharCode>, key: PublicKey, i: nat, err: ArithmeticError)
    requires i < |text| && RsaEncrypt(text[i], key) == Failure(err)
    requires forall j :: 0 <= j < i ==> RsaEncrypt(text[j], key).Success?
    ensures EncryptedValues(text, key) == Failure(err)
    decreases i
  {
    if i > 0 {
      FirstFailure(text[1..], key, i - 1, err);
    }
  }

  /** Encrypts `text` under `key`; `picks[i]` is the delimiter the random
      choice gave the `i`-th character. */
  method EncryptString(text: seq<CharCode>, key: PublicKey, picks: seq<Pick>)
    returns (r: Result<string, ArithmeticError>)
    requires |picks| == |text|
    ensures text == [] ==> r == Success([])
    ensures r.Failure? ==> EncryptedValues(text, key) == Failure(r.error)
    ensures r.Success? ==>
              EncryptedValues(text, key).Success? && r.value == Frame(EncryptedValues(text, key).value, picks)
  {
    var out: string := [];
    ghost var vals: seq<Long> := [];
    var i := 0;
    while i < |text|
      invariant WrittenUpTo(text, key, picks, i, vals, out)
    {
      var c := RsaEncrypt(text[i], key);
      if c.Failure? {
        FirstFailure(text, key, i, c.error);
        return Failure(c.error);
      }
      WriteStep(text, key, picks, i, vals, out, c.value);
      out := out + Unit(c.value, picks[i]);
      vals := vals + [c.value];
      i := i + 1;
    }
    WrittenAll(text, key, picks, vals, out);
    return Success(out);
  }
}
