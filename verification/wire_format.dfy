/** The ciphertext text of `encryptStringWithRSAAndPunctuation`: every
    encrypted value in decimal, each followed by one punctuation mark picked
    at random from a fixed list of eight. `Split` and `Decode` are the
    reading side the format is designed for; they serve as the reference
    the writer is proved against. */
module WireFormat {
  import opened Wrappers
  import opened JavaLong
  import opened Decimal

  /** The `punctuationMarks` list, in its source order. */
  const Marks: seq<char> := [',', '.', '!', '?', ':', ';', '-', '_']

  /** The random choice `punctuationMarks.random()` made: an index into `Marks`. */
  type Pick = i: int | 0 <= i < 8

  predicate IsMark(c: char) {
    c in Marks
  }

  predicate NoMarks(s: string) {
    forall i :: 0 <= i < |s| ==> !IsMark(s[i])
  }

  predicate NonNegative(vs: seq<Long>) {
    forall i :: 0 <= i < |vs| ==> 0 <= vs[i]
  }

  /** No digit is a mark, so numbers and delimiters never run together. */
  lemma DigitsAreNotMarks(s: string)
    requires AllDigits(s)
    ensures NoMarks(s)
  {
  }

  /** What one character adds to the text: its value in decimal, then the
      mark picked for it. */
  function Unit(v: Long, k: Pick): (u: string)
    ensures 2 <= |u| && u[|u| - 1] == Marks[k]
    ensures 0 <= v ==> NoMarks(u[..|u| - 1])
  {
    var num := LongToString(v);
    assert (num + [Marks[k]])[..|num|] == num;
    if 0 <= v then
      DigitsAreNotMarks(num);
      num + [Marks[k]]
    else
      num + [Marks[k]]
  }

  /** The text written for the values `vs` with delimiter choices `picks`. */
  function Frame(vs: seq<Long>, picks: seq<Pick>): (f: string)
    requires |picks| == |vs|
    ensures 2 * |vs| <= |f|
    decreases |vs|
  {
    if vs == [] then [] else Unit(vs[0], picks[0]) + Frame(vs[1..], picks[1..])
  }

  lemma AppendAssoc(a: string, b: string, c: string)
    ensures a + (b + c) == (a + b) + c
  {
  }

  /** Prepending one value puts its text in front. */
  lemma FrameCons(x: Long, p: Pick, vs: seq<Long>, picks: seq<Pick>)
    requires |picks| == |vs|
    ensures Frame([x] + vs, [p] + picks) == Unit(x, p) + Frame(vs, picks)
  {
  }

  /** Writing one more value appends its text and its delimiter, which is
      how the program's loop builds the text. */
  lemma {:induction false} FrameSnoc(vs: seq<Long>, picks: seq<Pick>, v: Long, k: Pick)
    requires |picks| == |vs|
    ensures Frame(vs + [v], picks + [k]) == Frame(vs, picks) + Unit(v, k)
    decreases |vs|
  {
    if vs == [] {
      FrameCons(v, k, [], []);
      assert [v] + [] == vs + [v] && [k] + [] == picks + [k];
      assert Frame(vs, picks) + Unit(v, k) == Unit(v, k) + [];
    } else {
      var x, p, tail, ptail := vs[0], picks[0], vs[1..], picks[1..];
      assert vs == [x] + tail && picks == [p] + ptail;
      assert vs + [v] == [x] + (tail + [v]) && picks + [k] == [p] + (ptail + [k]);
      FrameCons(x, p, tail + [v], ptail + [k]);
      FrameSnoc(tail, ptail, v, k);
      FrameCons(x, p, tail, ptail);
      AppendAssoc(Unit(x, p), Frame(tail, ptail), Unit(v, k));
    }
  }

  /** The number of delimiter characters in `s`. */
  function MarkCount(s: string): nat
    decreases |s|
  {
    if s == [] then 0 else (if IsMark(s[0]) then 1 else 0) + MarkCount(s[1..])
  }

  /** `s` with every delimiter character removed. */
  function StripMarks(s: string): string
    decreases |s|
  {
    if s == [] then [] else (if IsMark(s[0]) then [] else [s[0]]) + StripMarks(s[1..])
  }

  /** The decimal texts of `vs`, one after another with no separator. */
  function Numerals(vs: seq<Long>): string
    decreases |vs|
  {
    if vs == [] then [] else LongToString(vs[0]) + Numerals(vs[1..])
  }

  /** The decimal texts of `vs`, one per value. */
  function RenderAll(vs: seq<Long>): (ts: seq<string>)
    ensures |ts| == |vs|
    ensures forall i :: 0 <= i < |vs| ==> ts[i] == LongToString(vs[i])
  {
    seq(|vs|, i requires 0 <= i < |vs| => LongToString(vs[i]))
  }

  lemma {:induction false} MarkCountAppend(a: string, b: string)
    ensures MarkCount(a + b) == MarkCount(a) + MarkCount(b)
    decreases |a|
  {
    if a != [] {
      MarkCountAppend(a[1..], b);
      assert (a + b)[1..] == a[1..] + b;
    } else {
      assert a + b == b;
    }
  }

  lemma {:induction false} MarkCountNone(s: string)
    requires NoMarks(s)
    ensures MarkCount(s) == 0
    decreases |s|
  {
    if s != [] {
      MarkCountNone(s[1..]);
    }
  }

  lemma {:induction false} StripMarksAppend(a: string, b: string)
    ensures StripMarks(a + b) == StripMarks(a) + StripMarks(b)
    decreases |a|
  {
    if a != [] {
      StripMarksAppend(a[1..], b);
      assert (a + b)[1..] == a[1..] + b;
    } else {
      assert a + b == b;
    }
  }

  lemma {:induction false} StripMarksNone(s: string)
    requires NoMarks(s)
    ensures StripMarks(s) == s
    decreases |s|
  {
    if s != [] {
      StripMarksNone(s[1..]);
    }
  }

  /** One delimiter per value: the text holds exactly `|vs|` marks. */
  lemma {:induction false} FrameMarkCount(vs: seq<Long>, picks: seq<Pick>)
    requires |picks| == |vs| && NonNegative(vs)
    ensures MarkCount(Frame(vs, picks)) == |vs|
    decreases |vs|
  {
    if vs != [] {
      var num := LongToString(vs[0]);
      FrameMarkCount(vs[1..], picks[1..]);
      assert MarkCount(Unit(vs[0], picks[0])) == 1 by {
        MarkCountNone(num);
        MarkCountAppend(num, [Marks[picks[0]]]);
        assert [Marks[picks[0]]][1..] == [];
      }
      MarkCountAppend(Unit(vs[0], picks[0]), Frame(vs[1..], picks[1..]));
    }
  }

  /** A non-empty text ends with the delimiter picked for the last value. */
  lemma {:induction false} FrameEndsWithMark(vs: seq<Long>, picks: seq<Pick>)
    requires |picks| == |vs| && 0 < |vs|
    ensures var f := Frame(vs, picks); 0 < |f| && f[|f| - 1] == Marks[picks[|picks| - 1]]
    decreases |vs|
  {
    if |vs| > 1 {
      FrameEndsWithMark(vs[1..], picks[1..]);
    }
  }

  predicate DigitsAndMarks(s: string) {
    forall i :: 0 <= i < |s| ==> IsDigit(s[i]) || IsMark(s[i])
  }

  lemma DigitsAndMarksAppend(a: string, b: string)
    requires DigitsAndMarks(a) && DigitsAndMarks(b)
    ensures DigitsAndMarks(a + b)
  {
  }

  /** Every character of the text is a digit or a delimiter. */
  lemma {:induction false} FrameAlphabet(vs: seq<Long>, picks: seq<Pick>)
    requires |picks| == |vs| && NonNegative(vs)
    ensures DigitsAndMarks(Frame(vs, picks))
    decreases |vs|
  {
    if vs != [] {
      FrameAlphabet(vs[1..], picks[1..]);
      var num := LongToString(vs[0]);
      assert DigitsAndMarks(Unit(vs[0], picks[0])) by {
        DigitsAndMarksAppend(num, [Marks[picks[0]]]);
      }
      DigitsAndMarksAppend(Unit(vs[0], picks[0]), Frame(vs[1..], picks[1..]));
    }
  }

  lemma StripMarksMark(m: char)
    requires IsMark(m)
    ensures StripMarks([m]) == []
  {
    assert [m][1..] == [];
  }

  /** A delimiter-free run, then one mark: stripping keeps the run. */
  lemma StripMarksHead(num: string, m: char, rest: string)
    requires NoMarks(num) && IsMark(m)
    ensures StripMarks(num + [m] + rest) == num + StripMarks(rest)
  {
    assert StripMarks(num + [m]) == num by {
      StripMarksAppend(num, [m]);
      StripMarksNone(num);
      StripMarksMark(m);
      assert num + [] == num;
    }
    StripMarksAppend(num + [m], rest);
  }

  /** Removing the delimiters leaves the numbers, whatever the picks were. */
  lemma {:induction false} FrameStripMarks(vs: seq<Long>, picks: seq<Pick>)
    requires |picks| == |vs| && NonNegative(vs)
    ensures StripMarks(Frame(vs, picks)) == Numerals(vs)
    decreases |vs|
  {
    if vs != [] {
      var num := LongToString(vs[0]);
      DigitsAreNotMarks(num);
      StripMarksHead(num, Marks[picks[0]], Frame(vs[1..], picks[1..]));
      FrameStripMarks(vs[1..], picks[1..]);
    }
  }

  /** Two texts that differ at most in which delimiter stands where. */
  predicate SameUpToMarks(s: string, t: string) {
    |s| == |t| && forall i :: 0 <= i < |s| ==> s[i] == t[i] || (IsMark(s[i]) && IsMark(t[i]))
  }

  /** Texts that differ only in which mark stands where agree once the marks
      are removed. */
  lemma {:induction false} SameUpToMarksStrip(s: string, t: string)
    requires SameUpToMarks(s, t)
    ensures StripMarks(s) == StripMarks(t)
    decreases |s|
  {
    if s != [] {
      assert SameUpToMarks(s[1..], t[1..]) by {
        forall i | 0 <= i < |s| - 1
          ensures s[1..][i] == t[1..][i] || (IsMark(s[1..][i]) && IsMark(t[1..][i]))
        {
          assert s[1..][i] == s[i + 1] && t[1..][i] == t[i + 1];
        }
      }
      SameUpToMarksStrip(s[1..], t[1..]);
    }
  }

  /** The delimiter choice is noise: two encryptions of the same values
      differ only in which mark stands in each delimiter position, and agree
      once the marks are removed. */
  lemma {:induction false} DelimiterIndependence(vs: seq<Long>, p: seq<Pick>, q: seq<Pick>)
    requires |p| == |vs| && |q| == |vs|
    ensures SameUpToMarks(Frame(vs, p), Frame(vs, q))
    ensures StripMarks(Frame(vs, p)) == StripMarks(Frame(vs, q))
    decreases |vs|
  {
    if vs != [] {
      DelimiterIndependence(vs[1..], p[1..], q[1..]);
      var num := LongToString(vs[0]);
      var s := num + [Marks[p[0]]] + Frame(vs[1..], p[1..]);
      var t := num + [Marks[q[0]]] + Frame(vs[1..], q[1..]);
      assert Frame(vs, p) == s && Frame(vs, q) == t;
      forall i | 0 <= i < |s|
        ensures s[i] == t[i] || (IsMark(s[i]) && IsMark(t[i]))
      {
        if i > |num| {
          assert s[i] == Frame(vs[1..], p[1..])[i - |num| - 1];
          assert t[i] == Frame(vs[1..], q[1..])[i - |num| - 1];
        }
      }
    }
    SameUpToMarksStrip(Frame(vs, p), Frame(vs, q));
  }

  /** Closes the current run of non-delimiter characters as a token, unless
      it is empty. */
  function Flush(run: string): seq<string> {
    if run == [] then [] else [run]
  }

  /** Splits `s` on the delimiter characters, `run` being the token read so
      far. Tokens are the maximal runs between delimiters; empty ones are
      dropped. */
  function Tokens(s: string, run: string): (ts: seq<string>)
    requires NoMarks(run)
    ensures forall i :: 0 <= i < |ts| ==> 0 < |ts[i]| && NoMarks(ts[i])
    decreases |s|
  {
    if s == [] then Flush(run)
    else if IsMark(s[0]) then Flush(run) + Tokens(s[1..], [])
    else Tokens(s[1..], run + [s[0]])
  }

  function Split(s: string): (ts: seq<string>)
    ensures forall i :: 0 <= i < |ts| ==> 0 < |ts[i]| && NoMarks(ts[i])
  {
    Tokens(s, [])
  }

  /** Reads every token as a decimal number; fails on a token that is not
      all digits. */
  function ParseTokens(ts: seq<string>): (r: Option<seq<nat>>)
    ensures r.Some? <==> forall i :: 0 <= i < |ts| ==> AllDigits(ts[i])
    ensures r.Some? ==> (|r.value| == |ts| &&
              forall i :: 0 <= i < |ts| ==> AllDigits(ts[i]) && r.value[i] == Parse(ts[i]))
    decreases |ts|
  {
    if ts == [] then Some([])
    else if !AllDigits(ts[0]) then None
    else match ParseTokens(ts[1..])
      case None => None
      case Some(ns) => Some([Parse(ts[0])] + ns)
  }

  /** Reads a ciphertext text back into its numbers. */
  function Decode(s: string): Option<seq<nat>> {
    ParseTokens(Split(s))
  }

  /** A run of non-delimiters followed by a delimiter closes one token. */
  lemma {:induction false} TokensThroughMark(run: string, d: string, m: char, rest: string)
    requires NoMarks(run) && NoMarks(d) && 0 < |run + d| && IsMark(m)
    ensures Tokens(d + [m] + rest, run) == [run + d] + Tokens(rest, [])
    decreases |d|
  {
    if d == [] {
      assert d + [m] + rest == [m] + rest;
      assert run + d == run;
    } else {
      assert (d + [m] + rest)[1..] == d[1..] + [m] + rest;
      assert run + d == (run + [d[0]]) + d[1..];
      TokensThroughMark(run + [d[0]], d[1..], m, rest);
    }
  }

  /** Splitting the text on the delimiters gives back the decimal text of
      each value, in order, with no empty tokens. */
  lemma {:induction false} SplitFrame(vs: seq<Long>, picks: seq<Pick>)
    requires |picks| == |vs| && NonNegative(vs)
    ensures Split(Frame(vs, picks)) == RenderAll(vs)
    decreases |vs|
  {
    if vs != [] {
      var num := LongToString(vs[0]);
      var rest := Frame(vs[1..], picks[1..]);
      assert Split(Frame(vs, picks)) == [num] + Split(rest) by {
        DigitsAreNotMarks(num);
        TokensThroughMark([], num, Marks[picks[0]], rest);
        assert [] + num == num;
      }
      assert RenderAll(vs) == [num] + RenderAll(vs[1..]) by {
        assert forall i :: 0 < i < |vs| ==> RenderAll(vs)[i] == RenderAll(vs[1..])[i - 1];
      }
      SplitFrame(vs[1..], picks[1..]);
    }
  }

  /** The format round-trips: decoding the text gives back exactly the
      values it was written from. */
  lemma DecodeFrame(vs: seq<Long>, picks: seq<Pick>)
    requires |picks| == |vs| && NonNegative(vs)
    ensures var r := Decode(Frame(vs, picks));
              r.Some? && |r.value| == |vs| && forall i :: 0 <= i < |vs| ==> r.value[i] == vs[i]
  {
    SplitFrame(vs, picks);
    forall i | 0 <= i < |vs|
      ensures AllDigits(RenderAll(vs)[i]) && Parse(RenderAll(vs)[i]) == vs[i]
    {
      ParseRender(vs[i]);
    }
  }
}
