/** Reading back a printed sign, mantissa and exponent, in either base, with or without a point. */
module AtofRoundTrip {
  import opened Numerals
  import opened FloatText
  import opened AtofTheorems
  import Atof
  import AtofValue

  /**
   * The ways to write a number: with a plus sign, with capital letters, with a plus sign on the exponent, without
   * an exponent, and with an underscore behind so many digits of the mantissa or of the exponent.
   */
  datatype Style = Style(plus: bool, capital: bool, ePlus: bool, bare: bool, gap: nat, eGap: nat)

  function DigitChar(d: nat, capital: bool): char
    requires d < 16
  {
    if capital then UPPER_DIGITS[d] else LOWER_DIGITS[d]
  }

  /** The shortest text of `n` in the given base. */
  function Numeral(n: nat, hex: bool, capital: bool): string {
    if hex then
      if n < 16 then [DigitChar(n, capital)] else Numeral(n / 16, hex, capital) + [DigitChar(n % 16, capital)]
    else if n < 10 then [DigitChar(n, capital)]
    else Numeral(n / 10, hex, capital) + [DigitChar(n % 10, capital)]
  }

  /** An underscore behind the first `gap` digits, if there are digits on both sides of it. */
  function Spaced(t: string, gap: nat): string { if 0 < gap < |t| then t[..gap] + "_" + t[gap..] else t }

  /** A numeral with a point in front of its last `frac` digits; with a negative `frac`, without a point. */
  function WithPoint(t: string, frac: int, gap: nat): string
    requires frac <= |t|
  {
    if frac < 0 then Spaced(t, gap) else Spaced(t[..|t| - frac], gap) + "." + t[|t| - frac..]
  }

  function Mark(hex: bool, capital: bool): string {
    if hex then (if capital then "P" else "p") else if capital then "E" else "e"
  }

  function Sign(neg: bool, plus: bool): string { if neg then "-" else if plus then "+" else "" }

  function Tail(e: int, hex: bool, style: Style): string {
    if style.bare then ""
    else
      Mark(hex, style.capital) + Sign(e < 0, style.ePlus)
      + Spaced(Numeral(if e < 0 then -e else e, false, style.capital), style.eGap)
  }

  function Prefix(hex: bool, capital: bool): string { if hex then (if capital then "0X" else "0x") else "" }

  function Print(neg: bool, hex: bool, m: nat, frac: int, e: int, style: Style): string
    requires frac <= |Numeral(m, hex, style.capital)|
  {
    Sign(neg, style.plus) + Prefix(hex, style.capital)
    + WithPoint(Numeral(m, hex, style.capital), frac, style.gap) + Tail(e, hex, style)
  }

  ghost predicate AllDigits(t: string, hex: bool) { forall k :: 0 <= k < |t| ==> IsDigit(t[k], hex) }

  lemma LastDigitIs(d: nat, hex: bool, capital: bool)
    requires d < if hex then 16 else 10
    ensures var c := DigitChar(d, capital);
      IsDigit(c, hex) && IsDigit(c, true) && DigitOf(c) == d && Digits([c], hex) == [d] && Val([d], hex) == d
  {
    DigitValue(d);
    AtofValue.SingleDigit(DigitChar(d, capital), hex);
    assert [d][..0] == [];
  }

  /** A numeral is its last digit behind the numeral of the rest, if there is one. */
  lemma NumeralStep(n: nat, hex: bool, capital: bool) returns (q: nat, d: nat)
    ensures n == Shift(q, hex) + d && d < (if hex then 16 else 10)
    ensures Numeral(n, hex, capital) == (if q > 0 then Numeral(q, hex, capital) else "") + [DigitChar(d, capital)]
    ensures q < n || q == n == 0
    ensures q == 0 ==> n == d
  {
    d, q := if hex then n % 16 else n % 10, if hex then n / 16 else n / 10;
    assert "" + [DigitChar(d, capital)] == [DigitChar(d, capital)];
  }

  lemma AllDigitsSnoc(t: string, c: char, hex: bool)
    ensures AllDigits(t + [c], hex) <==> AllDigits(t, hex) && IsDigit(c, hex)
    ensures AllDigits("", hex)
  {
    var u := t + [c];
    assert u[|t|] == c && forall k :: 0 <= k < |t| ==> u[k] == t[k];
  }

  lemma {:induction false} NumeralIs(n: nat, hex: bool, capital: bool)
    ensures var t := Numeral(n, hex, capital);
      && AllDigits(t, hex) && |t| > 0 && |Digits(t, hex)| == |t| && Val(Digits(t, hex), hex) == n
      && (n > 0 ==> Digits(t, hex)[0] != 0)
  {
    hide DigitOf, IsDigit, Digits, Val, Numeral, Shift, AllDigits, DigitChar;
    var q, d := NumeralStep(n, hex, capital);
    var c := DigitChar(d, capital);
    LastDigitIs(d, hex, capital);
    assert "" + [c] == [c];
    AllDigitsSnoc(if q > 0 then Numeral(q, hex, capital) else "", c, hex);
    if q > 0 {
      var t := Numeral(q, hex, capital);
      NumeralIs(q, hex, capital);
      Atof.DigitsSnoc(t, c, hex);
      ValSnoc(Digits(t, hex), d, hex);
    }
  }

  lemma {:induction false} NumeralLength(n: nat, k: nat, hex: bool, capital: bool)
    requires k > 0 && n < Pow(k, hex)
    ensures |Numeral(n, hex, capital)| <= k
  {
    var q := if hex then n / 16 else n / 10;
    if q > 0 {
      assert k > 1 by { assert Pow(1, hex) == if hex then 16 else 10; }
      NumeralLength(q, k - 1, hex, capital);
    }
  }

  lemma {:induction false} AllSignificant(ds: seq<nat>)
    requires ds != [] && ds[0] != 0
    ensures Significant(ds) == ds
  {
    if |ds| > 1 {
      AllSignificant(ds[..|ds| - 1]);
    } else {
      assert Significant(ds[..0]) == [];
    }
    assert ds == ds[..|ds| - 1] + [ds[|ds| - 1]];
  }

  lemma {:induction false} AllDigitsCount(t: string, hex: bool)
    requires AllDigits(t, hex)
    ensures |Digits(t, hex)| == |t|
  {
    if t != "" { AllDigitsCount(t[..|t| - 1], hex); }
  }

  lemma DigitsAreNoMarks(t: string, hex: bool)
    requires AllDigits(t, hex)
    ensures '.' !in t && '_' !in t
  {}

  lemma {:induction false} NoDotNoFraction(t: string, hex: bool)
    requires '.' !in t
    ensures FracCount(t, hex) == 0
  {
    if t != "" { NoDotNoFraction(t[..|t| - 1], hex); }
  }

  /** An underscore changes no digit. */
  lemma SpacedReads(t: string, gap: nat, hex: bool)
    requires AllDigits(t, hex)
    ensures var u := Spaced(t, gap);
      Digits(u, hex) == Digits(t, hex) && '.' !in u && (u == "" <==> t == "") && IsRow(u, hex)
  {
    hide Digits, IsDigit;
    var u := Spaced(t, gap);
    NoMarks(hex);
    if 0 < gap < |t| {
      AtofValue.DigitsConcat(t[..gap], t[gap..], hex);
      AtofValue.DigitsConcat(t[..gap], "_" + t[gap..], hex);
      AtofValue.DigitsConcat("_", t[gap..], hex);
      AtofValue.SingleDigit('_', hex);
      assert t == t[..gap] + t[gap..] && u == t[..gap] + ("_" + t[gap..]);
    }
  }

  lemma NoMarks(hex: bool)
    ensures !IsDigit('.', hex) && !IsDigit('_', hex)
  {}

  /** Every underscore stands between two digits. */
  ghost predicate Fit(u: string, hex: bool) {
    forall k :: 0 <= k < |u| && u[k] == '_' ==>
      0 < k && k + 1 < |u| && IsDigit(u[k - 1], hex) && IsDigit(u[k + 1], hex)
  }

  lemma FitConcat(a: string, b: string, hex: bool)
    requires Fit(a, hex) && Fit(b, hex)
    ensures Fit(a + b, hex)
  {
    var u := a + b;
    forall k | 0 <= k < |u| && u[k] == '_'
      ensures 0 < k && k + 1 < |u| && IsDigit(u[k - 1], hex) && IsDigit(u[k + 1], hex)
    {
      if k < |a| {
        assert a[k] == '_';
        assert u[k - 1] == a[k - 1] && u[k + 1] == a[k + 1];
      } else {
        assert b[k - |a|] == '_';
        assert u[k - 1] == b[k - |a| - 1] && u[k + 1] == b[k - |a| + 1];
      }
    }
  }

  lemma FitSeparates(t: string, hex: bool)
    requires Fit(t, hex) && HasHexPrefix(t) == hex
    ensures SeparatesDigits(t)
  {}

  /** A point changes no digit either, and counts the digits behind it. */
  lemma PointReads(t: string, frac: int, gap: nat, hex: bool)
    requires AllDigits(t, hex) && t != "" && frac <= |t|
    ensures var u := WithPoint(t, frac, gap);
      && Digits(u, hex) == Digits(t, hex) && FracCount(u, hex) == (if frac < 0 then 0 else frac)
      && MantissaText(u, hex) && Fit(u, hex) && u != ""
  {
    hide FracCount, Digits, IsDigit, Fit, Spaced;
    var u := WithPoint(t, frac, gap);
    if frac < 0 {
      SpacedReads(t, gap, hex);
      NoDotNoFraction(u, hex);
      assert IsDigit(u[0], hex);
    } else {
      var a, b := t[..|t| - frac], t[|t| - frac..];
      SpacedReads(a, gap, hex);
      PointIsText(Spaced(a, gap), b, hex);
      PointCounts(Spaced(a, gap), b, hex);
      AtofValue.DigitsConcat(a, b, hex);
      AtofValue.DigitsConcat(Spaced(a, gap), b, hex);
      assert t == a + b;
    }
  }

  /** Digits and underscores. */
  ghost predicate IsRow(a: string, hex: bool) {
    && (forall k :: 0 <= k < |a| ==> a[k] == '_' || IsDigit(a[k], hex)) && Fit(a, hex)
    && (a != "" ==> IsDigit(a[0], hex))
  }

  lemma PointIsText(a: string, b: string, hex: bool)
    requires IsRow(a, hex) && AllDigits(b, hex) && a + b != ""
    ensures MantissaText(a + "." + b, hex) && Fit(a + "." + b, hex)
  {
    hide Fit;
    var u := a + "." + b;
    DigitsAreNoMarks(b, hex);
    NoMarks(hex);
    PlainIsFit(".", hex);
    PlainIsFit(b, hex);
    FitConcat(a, ".", hex);
    FitConcat(a + ".", b, hex);
    assert forall k :: 0 <= k < |u| ==> u[k] == if k < |a| then a[k] else if k == |a| then '.' else b[k - |a| - 1];
    assert IsDigit(u[if a != "" then 0 else 1], hex);
  }

  lemma PlainIsFit(u: string, hex: bool)
    requires '_' !in u
    ensures Fit(u, hex)
  {}

  lemma PointCounts(a: string, b: string, hex: bool)
    requires IsRow(a, hex) && AllDigits(b, hex)
    ensures var u := a + "." + b; Digits(u, hex) == Digits(a + b, hex) && FracCount(u, hex) == |b|
  {
    hide FracCount, Digits, IsDigit, AllDigits, IsRow, AtofValue.DotAt;
    var u := a + "." + b;
    AtofValue.DigitsConcat(a, b, hex);
    AtofValue.DigitsConcat(a, "." + b, hex);
    AtofValue.DigitsConcat(".", b, hex);
    AtofValue.SingleDigit('.', hex);
    NoMarks(hex);
    assert u == a + ("." + b);
    PointIsAt(a, b, hex);
    assert u[|a|..] == "." + b;
    AtofValue.FracCountIs(u, hex);
    AllDigitsCount(b, hex);
  }

  lemma PointIsAt(a: string, b: string, hex: bool)
    requires IsRow(a, hex) && AllDigits(b, hex)
    ensures AtofValue.DotAt(a + "." + b) == |a|
  {
    hide AtofValue.DotAt, Fit;
    var u := a + "." + b;
    NoMarks(hex);
    AtofValue.DotAtIs(u);
    assert u[|a|] == '.';
    assert forall k :: 0 <= k < |a| ==> u[k] == a[k];
    assert forall k :: |a| < k < |u| ==> u[k] == b[k - |a| - 1];
  }

  /** Every mantissa of at most 19 decimal or 16 hexadecimal digits is kept whole. */
  predicate Fits(m: nat, hex: bool) {
    0 < m < (if hex then 0x1_0000_0000_0000_0000 else 10_000_000_000_000_000_000)
  }

  lemma FitsIsPow(m: nat, hex: bool)
    requires Fits(m, hex)
    ensures m < Pow(MaxKept(hex), hex)
  {
    hide Pow;
    Atof.MaxPow();
  }

  lemma MantissaReadsBack(m: nat, hex: bool, capital: bool)
    requires Fits(m, hex)
    ensures var ds := Digits(Numeral(m, hex, capital), hex);
      && ds != [] && Significant(ds) == ds && Kept(ds, hex) == ds && !LosesDigits(ds, hex) && Val(ds, hex) == m
  {
    hide Significant, Val, Digits, Pow;
    NumeralIs(m, hex, capital);
    FitsIsPow(m, hex);
    NumeralLength(m, MaxKept(hex), hex, capital);
    AllSignificant(Digits(Numeral(m, hex, capital), hex));
  }

  lemma RunReadsBack(s: string, d: nat, n: nat, capital: bool, gap: nat)
    requires n < 100000 && d <= |s| && s[d..] == Spaced(Numeral(n, false, capital), gap)
    ensures d < |s| && IsDecimal(s[d]) && DigitRunEnd(s, d) == |s| && Accumulated(s[d..|s|]) == n
  {
    hide Numeral, Accumulated, DigitRunEnd, Spaced, Fit;
    var t := Numeral(n, false, capital);
    NumeralIs(n, false, capital);
    SpacedReads(t, gap, false);
    var u := Spaced(t, gap);
    AtofValue.AccumulatorIsExactBelow100000(u);
    assert IsDigit(u[0], false) && s[d] == u[0];
    forall k | d <= k < |s| ensures s[k] == '_' || IsDecimal(s[k]) { assert u[k - d] == s[k]; }
    RunSpanEnds(s, d, |s|);
    assert s[d..|s|] == s[d..];
  }

  lemma TailReadsBack(s: string, m: nat, e: int, hex: bool, style: Style)
    requires -100000 < e < 100000 && m <= |s| && s[m..] == Tail(e, hex, style) && (style.bare ==> !hex && e == 0)
    ensures m < |s| ==> IsExpMark(s[m], hex)
    ensures ExponentAt(s, m, hex) == Exponent(|s|, true, e)
  {
    hide Numeral, Accumulated, DigitRunEnd, Spaced;
    if !style.bare {
      var n: nat, sign := if e < 0 then -e else e, Sign(e < 0, style.ePlus);
      var run := Spaced(Numeral(n, false, style.capital), style.eGap);
      assert Tail(e, hex, style) == Mark(hex, style.capital) + (sign + run);
      assert s[m] == Tail(e, hex, style)[0];
      assert s[m + 1..] == sign + run;
      var d := m + 1 + |sign|;
      assert s[d..] == run;
      RunReadsBack(s, d, n, style.capital, style.eGap);
      assert s[m + 1] == (sign + run)[0];
    }
  }

  lemma TailIsFit(e: int, hex: bool, style: Style)
    ensures Fit(Tail(e, hex, style), hex)
    ensures Tail(e, hex, style) == "" || (|Tail(e, hex, style)| > 1 && IsExpMark(Tail(e, hex, style)[0], hex))
  {
    hide Numeral, Spaced, Fit;
    if style.bare {
      PlainIsFit("", hex);
    } else {
      var n: nat, head := if e < 0 then -e else e, Mark(hex, style.capital) + Sign(e < 0, style.ePlus);
      NumeralIs(n, false, style.capital);
      var run := Spaced(Numeral(n, false, style.capital), style.eGap);
      SpacedReads(Numeral(n, false, style.capital), style.eGap, false);
      FitInEitherBase(run, hex);
      PlainIsFit(head, hex);
      FitConcat(head, run, hex);
    }
  }

  lemma FitInEitherBase(u: string, hex: bool)
    requires Fit(u, false)
    ensures Fit(u, hex)
  {}

  lemma Behind(sign: string, rest: string, k: nat)
    requires k < |rest|
    ensures (sign + rest)[|sign| + k] == rest[k]
  {}

  lemma FirstChars(u: string, hex: bool)
    requires MantissaText(u, hex)
    ensures u != "" && !IsSign(u[0]) && u[0] != 'x' && u[0] != 'X'
    ensures |u| > 1 ==> u[1] != 'x' && u[1] != 'X'
  {
    assert IsMantissaChar(u[0], hex);
    assert |u| > 1 ==> IsMantissaChar(u[1], hex);
  }

  /** A prefix, a mantissa and a tail: the base, and the underscores. */
  lemma RestIs(prefix: string, hex: bool, u: string, tail: string)
    requires prefix == if hex then prefix else ""
    requires hex ==> prefix == "0x" || prefix == "0X"
    requires MantissaText(u, hex) && Fit(u, hex) && Fit(tail, hex)
    requires tail == "" || (|tail| > 1 && IsExpMark(tail[0], hex))
    ensures var rest := prefix + (u + tail);
      && rest != "" && !IsSign(rest[0]) && HasHexPrefix(rest) == hex && (hex ==> |rest| > 2) && SeparatesDigits(rest)
  {
    hide Fit, MantissaText, SeparatesDigits;
    var rest := prefix + (u + tail);
    FirstChars(u, hex);
    PlainIsFit(prefix, hex);
    FitConcat(u, tail, hex);
    FitConcat(prefix, u + tail, hex);
    assert !hex ==> rest == u + tail;
    FitSeparates(rest, hex);
  }

  /** How a printed text is laid out. */
  lemma Layout(sign: string, prefix: string, hex: bool, u: string, tail: string, s: string)
    requires s == sign + prefix + u + tail
    requires sign == "" || sign == "-" || sign == "+"
    requires if hex then prefix == "0x" || prefix == "0X" else prefix == ""
    requires MantissaText(u, hex) && Fit(u, hex) && Fit(tail, hex)
    requires tail == "" || (|tail| > 1 && IsExpMark(tail[0], hex))
    ensures var b := |sign| + |prefix|;
      && s != "" && SignLen(s) == |sign| && (s[0] == '-' <==> sign == "-") && HexAt(s, SignLen(s)) == hex
      && s[b..b + |u|] == u && s[b + |u|..] == tail && UnderscoresFit(s)
  {
    hide SeparatesDigits, MantissaText, Fit;
    var rest := prefix + (u + tail);
    RestIs(prefix, hex, u, tail);
    assert s == sign + rest;
    Behind(sign, rest, 0);
    if |rest| > 1 { Behind(sign, rest, 1); }
    assert s[|sign|..] == rest;
  }

  lemma AssembleReadsBack(s: string, neg: bool, hex: bool, m: nat, frac: int, stop: nat, e: int, style: Style)
    requires Fits(m, hex) && stop <= |s| && UnderscoresFit(s) && frac <= |Numeral(m, hex, style.capital)|
    ensures var u := WithPoint(Numeral(m, hex, style.capital), frac, style.gap);
      Assemble(s, neg, hex, stop, u, Exponent(|s|, true, e)) ==
      Reading(m, e - Places(if frac < 0 then 0 else frac, hex), neg, false, hex, |s|, true)
  {
    hide Significant, Digits, Val, Kept, LosesDigits, FracCount, MantissaText, Numeral, WithPoint, UnderscoresFit, Fit;
    NumeralIs(m, hex, style.capital);
    MantissaReadsBack(m, hex, style.capital);
    PointReads(Numeral(m, hex, style.capital), frac, style.gap, hex);
    assert s[..|s|] == s;
  }

  /**
   * Printing a sign, a mantissa in either base with or without a point, and an exponent, in any style, and reading
   * the text gives them back, all of it consumed; every digit behind the point takes one place off the exponent.
   */
  lemma PrintedReadsBack(neg: bool, hex: bool, m: nat, frac: int, e: int, style: Style)
    requires Fits(m, hex) && frac <= |Numeral(m, hex, style.capital)| && -100000 < e < 100000
    requires style.bare ==> !hex && e == 0
    ensures var s := Print(neg, hex, m, frac, e, style);
      var digits := if frac < 0 then 0 else frac;
      Scan(s) == Reading(m, e - (if hex then 4 * digits else digits), neg, false, hex, |s|, true)
  {
    hide ExponentAt, Assemble, Numeral, UnderscoresFit, MantissaText, MantissaEnd, Tail, WithPoint, Digits, FracCount,
      Fit;
    var s, t := Print(neg, hex, m, frac, e, style), Numeral(m, hex, style.capital);
    var u, tail := WithPoint(t, frac, style.gap), Tail(e, hex, style);
    var sign, prefix := Sign(neg, style.plus), Prefix(hex, style.capital);
    NumeralIs(m, hex, style.capital);
    PointReads(t, frac, style.gap, hex);
    TailIsFit(e, hex, style);
    Layout(sign, prefix, hex, u, tail, s);
    var b := |sign| + |prefix|;
    var stop := b + |u|;
    TailReadsBack(s, stop, e, hex, style);
    StopsAt(s, b, stop, hex);
    AssembleReadsBack(s, neg, hex, m, frac, stop, e, style);
  }
}
