/**
 * `parseAmount`: the amount a free-text total stands for. Numbers are read as decimals; a
 * range stands for the mean of its two ends; 万 scales by ten thousand; the result is rounded
 * half up.
 */
module Amounts {
  import opened Text

  /** One match of `\d+(?:\.\d+)?`: the digits before the point and the digits after it. */
  datatype NumberToken = NumberToken(whole: string, fraction: string)

  predicate WellFormed(t: NumberToken) {
    t.whole != [] && AllDigits(t.whole) && AllDigits(t.fraction)
  }

  function Pow10(n: nat): (p: nat)
    ensures p >= 1
  {
    if n == 0 then 1 else 10 * Pow10(n - 1)
  }

  /** `parseFloat` of a token. */
  function TokenValue(t: NumberToken): (v: real)
    requires WellFormed(t)
    ensures v >= 0.0
  {
    (DigitsValue(t.whole) as real) + (DigitsValue(t.fraction) as real) / (Pow10(|t.fraction|) as real)
  }

  /** The digits after the point are worth less than one: `n` digits stay below `10^n`. */
  lemma {:induction false} FractionBelowPower(f: string)
    requires AllDigits(f)
    ensures DigitsValue(f) < Pow10(|f|)
    decreases |f|
  {
    if f != [] {
      var g := f[..|f| - 1];
      FractionBelowPower(g);
      assert |g| == |f| - 1;
      assert Pow10(|f|) == 10 * Pow10(|g|);
      assert DigitsValue(f) == DigitsValue(g) * 10 + DigitValue(f[|f| - 1]);
      assert DigitsValue(g) * 10 <= (Pow10(|g|) - 1) * 10;
    }
  }

  /** `parseFloat` of a token is its whole part plus a fraction below one. */
  lemma TokenValueBounds(t: NumberToken)
    requires WellFormed(t)
    ensures DigitsValue(t.whole) as real <= TokenValue(t) < (DigitsValue(t.whole) + 1) as real
  {
    FractionBelowPower(t.fraction);
    QuotientBelowOne(DigitsValue(t.fraction) as real, Pow10(|t.fraction|) as real);
  }

  lemma QuotientBelowOne(q: real, p: real)
    requires 0.0 <= q < p
    ensures 0.0 <= q / p < 1.0
  {
    assert q / p * p == q;
  }

  /** The matches of `/\d+(?:\.\d+)?/g` in `s`, left to right. */
  function Tokens(s: string): (r: seq<NumberToken>)
    ensures forall k :: 0 <= k < |r| ==> WellFormed(r[k])
    decreases |s|
  {
    if s == [] then []
    else if !IsDigit(s[0]) then Tokens(s[1..])
    else
      var w := LeadingDigits(s);
      assert w[0] == s[0];
      var rest := s[|w|..];
      if |rest| >= 2 && rest[0] == '.' && IsDigit(rest[1]) then
        var f := LeadingDigits(rest[1..]);
        assert f[0] == rest[1];
        [NumberToken(w, f)] + Tokens(rest[1 + |f|..])
      else [NumberToken(w, "")] + Tokens(rest)
  }

  /** `Math.round` on a non-negative number: halves go up. */
  function Round(x: real): (n: int)
    ensures (n as real) - 0.5 <= x < (n as real) + 0.5
  {
    (x + 0.5).Floor
  }

  /** The unrounded amount: the one number, or the mean of the first two (a zero second end counts as the first). */
  function RawAmount(tokens: seq<NumberToken>): (v: real)
    requires forall k :: 0 <= k < |tokens| ==> WellFormed(tokens[k])
    ensures v >= 0.0
  {
    if tokens == [] then 0.0
    else if |tokens| == 1 then TokenValue(tokens[0])
    else
      var first := TokenValue(tokens[0]);
      var second := if TokenValue(tokens[1]) != 0.0 then TokenValue(tokens[1]) else first;
      (first + second) / 2.0
  }

  /** The amount `parseAmount` gives. */
  function AmountOf(value: string): (n: nat)
  {
    if value == "" then 0
    else
      var tokens := Tokens(value);
      if tokens == [] then 0
      else
        var amount := RawAmount(tokens);
        Round(if Contains(value, "万") then amount * 10000.0 else amount)
  }

  /** `parseAmount`, updating the running amount as the source does. */
  method ParseAmount(value: string) returns (r: int)
    ensures r == AmountOf(value)
  {
    if value == "" {
      return 0;
    }
    var matches := Tokens(value);
    if matches == [] {
      return 0;
    }
    var amount := 0.0;
    if |matches| == 1 {
      amount := TokenValue(matches[0]);
    } else {
      var first := TokenValue(matches[0]);
      var second := TokenValue(matches[1]);
      if second == 0.0 {
        second := first;
      }
      amount := (first + second) / 2.0;
    }
    if Contains(value, "万") {
      amount := amount * 10000.0;
    }
    r := Round(amount);
  }

  lemma {:induction false} NoDigitsNoTokens(s: string)
    requires forall k :: 0 <= k < |s| ==> !IsDigit(s[k])
    ensures Tokens(s) == []
    decreases |s|
  {
    if s != [] {
      NoDigitsNoTokens(s[1..]);
    }
  }

  /** Empty text, and text without a digit, is an amount of 0. */
  lemma AmountWithoutDigits(value: string)
    requires forall k :: 0 <= k < |value| ==> !IsDigit(value[k])
    ensures AmountOf(value) == 0
  {
    NoDigitsNoTokens(value);
  }

  /** The digit run at the front of `a + rest` is `a` when `rest` does not go on with a digit. */
  lemma {:induction false} LeadingDigitsOf(a: string, rest: string)
    requires AllDigits(a)
    requires rest == [] || !IsDigit(rest[0])
    ensures LeadingDigits(a + rest) == a
    decreases |a|
  {
    if a == [] {
      assert a + rest == rest;
    } else {
      LeadingDigitsOf(a[1..], rest);
      assert (a + rest)[1..] == a[1..] + rest;
      assert (a + rest)[0] == a[0];
    }
  }

  /** A digit run followed by a character that continues no number is one whole-number token. */
  lemma WholeToken(a: string, rest: string)
    requires a != [] && AllDigits(a)
    requires rest == [] || (!IsDigit(rest[0]) && rest[0] != '.')
    ensures Tokens(a + rest) == [NumberToken(a, "")] + Tokens(rest)
  {
    var s := a + rest;
    LeadingDigitsOf(a, rest);
    assert s[0] == a[0];
    assert s[|a|..] == rest;
  }

  /** A character that is no digit is skipped. */
  lemma SkipNonDigit(c: char, rest: string)
    requires !IsDigit(c)
    ensures Tokens([c] + rest) == Tokens(rest)
  {
    assert ([c] + rest)[1..] == rest;
  }

  lemma NoManInDigits(s: string)
    requires AllDigits(s)
    ensures '万' !in s
  {
  }

  lemma NotContainsChar(s: string, c: char)
    requires c !in s
    ensures !Contains(s, [c])
  {
    forall i | 0 <= i <= |s| - 1
      ensures !OccursAt(s, [c], i)
    {
      assert s[i] != c;
      assert s[i..i + 1][0] == s[i];
    }
  }

  /** The amount from the tokens found and whether 万 occurs. */
  lemma AmountOfTokens(value: string, tokens: seq<NumberToken>, man: bool)
    requires value != "" && Tokens(value) == tokens && tokens != []
    requires Contains(value, "万") == man
    ensures AmountOf(value) == Round(if man then RawAmount(tokens) * 10000.0 else RawAmount(tokens))
  {
  }

  lemma RoundWhole(k: int)
    ensures Round(k as real) == k
  {
  }

  lemma WholeAmount(a: string)
    requires a != [] && AllDigits(a)
    ensures RawAmount([NumberToken(a, "")]) == DigitsValue(a) as real
  {
  }

  /** A plain whole number is that amount. */
  lemma AmountOfNumber(n: nat)
    ensures AmountOf(NatToString(n)) == n
  {
    var s := NatToString(n);
    WholeToken(s, "");
    assert s + "" == s;
    NoManInDigits(s);
    NotContainsChar(s, '万');
    assert "万" == ['万'];
    AmountOfTokens(s, [NumberToken(s, "")], false);
    WholeAmount(s);
    RoundWhole(n);
  }

  /** A whole number followed by 万 is ten thousand times that number. */
  lemma AmountOfMan(n: nat)
    ensures AmountOf(NatToString(n) + "万") == n * 10000
  {
    var a := NatToString(n);
    var s := a + "万";
    WholeToken(a, "万");
    NoDigitsNoTokens("万");
    assert [NumberToken(a, "")] + [] == [NumberToken(a, "")];
    assert OccursAt(s, "万", |a|) by {
      assert s[|a|..|a| + 1] == "万";
    }
    AmountOfTokens(s, [NumberToken(a, "")], true);
    WholeAmount(a);
    assert (n as real) * 10000.0 == (n * 10000) as real;
    RoundWhole(n * 10000);
  }

  /**
   * A range `a〜b` (any separator that is not a digit, a point or 万) is the mean of its ends,
   * rounded half up; a zero upper end counts as the lower one.
   */
  lemma AmountOfRange(a: nat, sep: char, b: nat)
    requires !IsDigit(sep) && sep != '.' && sep != '万'
    ensures AmountOf(NatToString(a) + [sep] + NatToString(b)) == Round(((a + (if b == 0 then a else b)) as real) / 2.0)
  {
    var s := NatToString(a) + [sep] + NatToString(b);
    var tokens := [NumberToken(NatToString(a), ""), NumberToken(NatToString(b), "")];
    RangeTokens(a, sep, b);
    AmountOfTokens(s, tokens, false);
    WholeTokenValue(a);
    WholeTokenValue(b);
  }

  /** The two ends of a range are its only number tokens, and it has no 万. */
  lemma RangeTokens(a: nat, sep: char, b: nat)
    requires !IsDigit(sep) && sep != '.' && sep != '万'
    ensures Tokens(NatToString(a) + [sep] + NatToString(b)) == [NumberToken(NatToString(a), ""), NumberToken(NatToString(b), "")]
    ensures !Contains(NatToString(a) + [sep] + NatToString(b), "万")
  {
    DigitRunsTokens(NatToString(a), sep, NatToString(b));
    DigitRunsNoMan(NatToString(a), sep, NatToString(b));
  }

  lemma DigitRunsTokens(x: string, sep: char, y: string)
    requires x != [] && AllDigits(x) && y != [] && AllDigits(y)
    requires !IsDigit(sep) && sep != '.'
    ensures Tokens(x + [sep] + y) == [NumberToken(x, ""), NumberToken(y, "")]
  {
    assert x + [sep] + y == x + ([sep] + y);
    WholeToken(x, [sep] + y);
    SkipNonDigit(sep, y);
    WholeToken(y, "");
    assert y + "" == y;
  }

  lemma DigitRunsNoMan(x: string, sep: char, y: string)
    requires AllDigits(x) && AllDigits(y) && sep != '万'
    ensures !Contains(x + [sep] + y, "万")
  {
    NoManInDigits(x);
    NoManInDigits(y);
    NotContainsChar(x + [sep] + y, '万');
    assert "万" == ['万'];
  }

  lemma WholeTokenValue(n: nat)
    ensures TokenValue(NumberToken(NatToString(n), "")) == n as real
  {
    var t := NumberToken(NatToString(n), "");
    assert DigitsValue(t.fraction) == 0 && Pow10(0) == 1;
  }

  /** A decimal `w.f` is read with its fraction. */
  lemma AmountOfDecimal(w: string, f: string)
    requires w != [] && AllDigits(w) && f != [] && AllDigits(f)
    ensures AmountOf(w + "." + f) == Round(TokenValue(NumberToken(w, f)))
  {
    var s := w + ("." + f);
    assert w + "." + f == s;
    DecimalTokens(w, f);
    NoManInDigits(w);
    NoManInDigits(f);
    NotContainsChar(s, '万');
    assert "万" == ['万'];
    AmountOfTokens(s, [NumberToken(w, f)], false);
  }

  lemma DecimalTokens(w: string, f: string)
    requires w != [] && AllDigits(w) && f != [] && AllDigits(f)
    ensures Tokens(w + ("." + f)) == [NumberToken(w, f)]
  {
    var s := w + ("." + f);
    LeadingDigitsOf(w, "." + f);
    assert s[0] == w[0];
    var rest := s[|w|..];
    assert rest == "." + f;
    assert rest[1..] == f;
    LeadingDigitsAll(f);
    assert rest[1 + |f|..] == [];
  }
}
