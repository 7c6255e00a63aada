/** Base-10 text of integers, as `StringBuilder.append(Long)` writes it:
    an optional '-' then the digits of the magnitude, most significant
    first, with no leading zeros. */
module Decimal {
  import opened JavaLong

  predicate IsDigit(c: char) {
    '0' <= c <= '9'
  }

  predicate AllDigits(s: string) {
    forall i :: 0 <= i < |s| ==> IsDigit(s[i])
  }

  function DigitChar(d: nat): (c: char)
    requires d < 10
    ensures IsDigit(c)
  {
    ('0' as int + d) as char
  }

  function DigitValue(c: char): (d: nat)
    requires IsDigit(c)
    ensures d < 10 && DigitChar(d) == c
  {
    c as int - '0' as int
  }

  /** The decimal digits of `x`: never empty, all digits, and no leading
      zero unless `x` is zero itself. */
  function Render(x: nat): (s: string)
    ensures 0 < |s| && AllDigits(s)
    ensures s[0] == '0' <==> x == 0
    ensures x == 0 ==> s == "0"
    decreases x
  {
    if x < 10 then [DigitChar(x)] else Render(x / 10) + [DigitChar(x % 10)]
  }

  /** The text `append(Long)` adds for `x`. */
  function LongToString(x: Long): (s: string)
    ensures 0 < |s| && (s[0] == '-' <==> x < 0)
    ensures 0 <= x ==> Canonical(s) && Parse(s) == x
    ensures x < 0 ==> Canonical(s[1..]) && Parse(s[1..]) == -(x as int)
  {
    if x < 0 then
      var m := Render(-(x as int));
      ParseRender(-(x as int));
      assert ("-" + m)[1..] == m;
      "-" + m
    else
      ParseRender(x);
      Render(x)
  }

  /** Reads a string of digits as a number; the empty string reads as 0. */
  function Parse(s: string): nat
    requires AllDigits(s)
    decreases |s|
  {
    if s == [] then 0 else Parse(s[..|s| - 1]) * 10 + DigitValue(s[|s| - 1])
  }

  /** A numeral without a leading zero, as `Render` produces. */
  predicate Canonical(s: string) {
    0 < |s| && AllDigits(s) && (s[0] == '0' ==> |s| == 1)
  }

  /** Reading back what `Render` wrote gives the number. */
  lemma {:induction false} ParseRender(x: nat)
    ensures Parse(Render(x)) == x
    decreases x
  {
    if x >= 10 {
      ParseRender(x / 10);
      var s := Render(x);
      assert s[..|s| - 1] == Render(x / 10);
    }
  }

  lemma {:induction false} ParsePositive(s: string)
    requires Canonical(s) && s[0] != '0'
    ensures Parse(s) > 0
    decreases |s|
  {
    if |s| > 1 {
      ParsePositive(s[..|s| - 1]);
    }
  }

  /** Every canonical numeral is what `Render` writes for its value, so the
      decimal text of a number is unique. */
  lemma {:induction false} RenderParse(s: string)
    requires Canonical(s)
    ensures Render(Parse(s)) == s
    decreases |s|
  {
    if |s| > 1 {
      var init := s[..|s| - 1];
      ParsePositive(s);
      ParsePositive(init);
      RenderParse(init);
      var x := Parse(s);
      assert x / 10 == Parse(init) && x % 10 == DigitValue(s[|s| - 1]);
      assert s == init + [s[|s| - 1]];
    }
  }

  /** Distinct numbers have distinct decimal text. */
  lemma RenderInjective(x: nat, y: nat)
    requires Render(x) == Render(y)
    ensures x == y
  {
    ParseRender(x);
    ParseRender(y);
  }
}
