/** The value of a literal, and how closely the scanner's mantissa and exponent give it. */
module AtofValue {
  import opened Numerals
  import opened FloatText
  import opened AtofTheorems
  import Atof

  /** A literal taken apart: its digits before and after the dot, and its exponent as read. */
  datatype Parts = Parts(whole: seq<nat>, frac: seq<nat>, exponent: int, hex: bool)

  /** The index of the first dot, or the end of the text. */
  function DotAt(t: string): (d: nat)
    ensures d <= |t|
  {
    if t == "" then 0
    else
      var d := DotAt(t[..|t| - 1]);
      if d < |t| - 1 || t[|t| - 1] == '.' then d else |t|
  }

  function PartsOf(s: string): Parts {
    var hex, m := HexAt(s, SignLen(s)), MantissaStop(s);
    var t := s[MantissaStart(s)..m];
    Parts(Digits(t[..DotAt(t)], hex), Digits(t[DotAt(t)..], hex), ExponentAt(s, m, hex).e, hex)
  }

  /** The magnitude a literal denotes: (whole + frac / base^|frac|) times a power of ten or of two. */
  ghost function Value(p: Parts): real {
    PowMonotone(0, |p.frac|, p.hex);
    Magnitude(Val(p.whole, p.hex), Val(p.frac, p.hex), Pow(|p.frac|, p.hex), Scale(p.exponent, p.hex))
  }

  ghost function Magnitude(whole: nat, frac: nat, unit: nat, scale: real): real
    requires unit > 0
  {
    (whole as real + frac as real / unit as real) * scale
  }

  // ---------------------------------------------------------------- splitting at the dot

  lemma {:induction false} DigitsConcat(t: string, u: string, hex: bool)
    ensures Digits(t + u, hex) == Digits(t, hex) + Digits(u, hex)
  {
    if u == "" {
      assert t + u == t;
    } else {
      var u' := u[..|u| - 1];
      assert (t + u)[..|t + u| - 1] == t + u';
      DigitsConcat(t, u', hex);
    }
  }

  lemma {:induction false} DotAtIs(t: string)
    ensures DotAt(t) < |t| ==> t[DotAt(t)] == '.'
    ensures DotAt(t) == |t| <==> '.' !in t
  {
    if t != "" {
      var init := t[..|t| - 1];
      DotAtIs(init);
      assert t == init + [t[|t| - 1]];
    }
  }

  lemma {:induction false} FracCountIs(t: string, hex: bool)
    ensures FracCount(t, hex) == |Digits(t[DotAt(t)..], hex)|
  {
    if t == "" {
      assert t[DotAt(t)..] == "";
    } else {
      var init, c, d := t[..|t| - 1], t[|t| - 1], DotAt(t);
      FracCountIs(init, hex);
      DotAtIs(init);
      if '.' in init {
        assert t[d..] == init[d..] + [c];
        DigitsConcat(init[d..], [c], hex);
        SingleDigit(c, hex);
      } else {
        assert init[DotAt(init)..] == "";
        if c == '.' {
          assert t[d..] == ".";
          SingleDigit(c, hex);
        } else {
          assert t[d..] == "";
        }
      }
    }
  }

  lemma SingleDigit(c: char, hex: bool)
    ensures Digits([c], hex) == if IsDigit(c, hex) then [DigitOf(c)] else []
  {
    assert [c][..0] == "";
  }

  // ---------------------------------------------------------------- the value as one integer and one power

  lemma Regroup(w: nat, f: nat, p: nat, s: real, t: real, n: nat)
    requires p > 0 && t == Product(p, s) && n == w * p + f
    ensures Magnitude(w, f, p, t) == Product(n, s)
  {
    var q := f as real / p as real;
    assert q * p as real == f as real;
    assert (w * p) as real == w as real * p as real;
    assert (w as real + q) * p as real == n as real;
    RealAssoc(w as real + q, p as real, s);
  }

  lemma RealAssoc(a: real, b: real, c: real)
    ensures a * (b * c) == (a * b) * c
  {}

  lemma ValueIs(p: Parts)
    ensures Value(p) == Product(Val(p.whole + p.frac, p.hex), Scale(p.exponent - Places(|p.frac|, p.hex), p.hex))
  {
    hide Val, Pow, Scale, Product, Magnitude, Places;
    var n := |p.frac|;
    var e := p.exponent - Places(n, p.hex);
    PowMonotone(0, n, p.hex);
    ScaleShift(e, n, p.hex);
    ValConcat(p.whole, p.frac, p.hex);
    Regroup(Val(p.whole, p.hex), Val(p.frac, p.hex), Pow(n, p.hex), Scale(e, p.hex), Scale(p.exponent, p.hex),
            Val(p.whole + p.frac, p.hex));
  }

  // ---------------------------------------------------------------- kept and dropped digits

  lemma {:induction false} SignificantValue(ds: seq<nat>, hex: bool)
    ensures Val(Significant(ds), hex) == Val(ds, hex)
    ensures Significant(ds) != [] ==> Significant(ds)[0] != 0
    ensures Significant(ds) == [] ==> Val(ds, hex) == 0
  {
    if ds != [] {
      var init, d := ds[..|ds| - 1], ds[|ds| - 1];
      SignificantValue(init, hex);
      ValSnoc(Significant(init), d, hex);
    }
  }

  ghost predicate Brackets(kept: nat, unit: nat, v: nat, tight: bool) {
    kept * unit <= v < (kept + 1) * unit && (kept * unit == v <==> tight)
  }

  lemma BracketsSum(kept: nat, unit: nat, dropped: nat, v: nat)
    requires v == kept * unit + dropped && dropped < unit
    ensures Brackets(kept, unit, v, dropped == 0)
  {
    assert (kept + 1) * unit == kept * unit + unit;
  }

  /** The kept digits bracket the value of all significant digits; the bracket is tight unless digits were lost. */
  lemma KeptBrackets(sig: seq<nat>, hex: bool)
    requires DigitsBelow(sig, hex)
    ensures Brackets(
              Val(Kept(sig, hex), hex), Pow(|sig| - |Kept(sig, hex)|, hex), Val(sig, hex), !LosesDigits(sig, hex))
  {
    hide Val, Pow, Brackets;
    var kept := Kept(sig, hex);
    var dropped := sig[|kept|..];
    assert sig == kept + dropped;
    ValConcat(kept, dropped, hex);
    ValBound(dropped, hex);
    BracketsSum(Val(kept, hex), Pow(|dropped|, hex), Val(dropped, hex), Val(sig, hex));
    if LosesDigits(sig, hex) {
      var k :| MaxKept(hex) <= k < |sig| && sig[k] != 0;
      ValPositive(dropped, k - |kept|, hex);
    } else {
      ValZero(dropped, hex);
    }
  }

  lemma ProductOfTimes(k: nat, p: nat, s: real)
    ensures k as real * Product(p, s) == Product(k * p, s)
  {
    assert (k * p) as real == k as real * p as real;
    RealAssoc(k as real, p as real, s);
  }

  /** The same bracket after multiplying by a positive scale. */
  lemma BracketScales(kept: nat, p: nat, v: nat, s: real, tight: bool)
    requires s > 0.0 && Brackets(kept, p, v, tight)
    ensures RealBrackets(kept, Product(p, s), Product(v, s), tight)
  {
    hide Product;
    ProductOfTimes(kept, p, s);
    ProductOfTimes(kept + 1, p, s);
    Compare(kept * p, v, s);
    Compare(v, (kept + 1) * p, s);
  }

  /** `kept` units are at most `v`, one unit more is too much, and `kept` units are `v` exactly when `tight`. */
  ghost predicate RealBrackets(kept: nat, unit: real, v: real, tight: bool) {
    && kept as real * unit <= v < (kept + 1) as real * unit
    && (kept as real * unit == v <==> tight)
  }

  lemma Compare(a: nat, b: nat, s: real)
    requires s > 0.0
    ensures a < b ==> Product(a, s) < Product(b, s)
    ensures a == b <==> Product(a, s) == Product(b, s)
  {
    if a < b { assert (b as real - a as real) * s > 0.0; }
    if a > b { assert (a as real - b as real) * s > 0.0; }
  }

  // ---------------------------------------------------------------- the value theorem

  /** Mantissa zero means that the literal is zero: the first significant digit is always kept. */
  lemma ZeroMantissa(ds: seq<nat>, hex: bool)
    requires Val(Kept(Significant(ds), hex), hex) == 0
    ensures Significant(ds) == [] && Val(ds, hex) == 0
  {
    SignificantValue(ds, hex);
    var sig := Significant(ds);
    if sig != [] {
      assert Kept(sig, hex)[0] == sig[0];
      ValPositive(Kept(sig, hex), 0, hex);
    }
  }

  lemma ZeroBrackets(hex: bool, s: real)
    ensures RealBrackets(0, Scale(0, hex), Product(0, s), true)
  {}

  lemma PlacesAdd(a: int, b: int, hex: bool)
    ensures Places(a - b, hex) == Places(a, hex) - Places(b, hex)
  {}

  /** From the digits and the exponent of a literal to the bracket around its value. */
  lemma DigitsBracket(ds: seq<nat>, frac: nat, x: int, hex: bool)
    requires DigitsBelow(ds, hex)
    ensures var sig := Significant(ds);
      var kept := Kept(sig, hex);
      var exp := if Val(kept, hex) == 0 then 0 else Places(|sig| - frac - |kept|, hex) + x;
      RealBrackets(Val(kept, hex), Scale(exp, hex), Product(Val(ds, hex), Scale(x - Places(frac, hex), hex)),
                   !LosesDigits(sig, hex))
  {
    hide Val, Pow, Scale, Product, Places, RealBrackets, Brackets, Significant, DigitsBelow;
    var sig := Significant(ds);
    var e := x - Places(frac, hex);
    if Val(Kept(sig, hex), hex) == 0 {
      ZeroMantissa(ds, hex);
      ZeroBrackets(hex, Scale(e, hex));
    } else {
      var k := |sig| - |Kept(sig, hex)|;
      Atof.SignificantBelow(ds, hex);
      SignificantValue(ds, hex);
      KeptBrackets(sig, hex);
      ScalePositive(e, hex);
      BracketScales(Val(Kept(sig, hex), hex), Pow(k, hex), Val(sig, hex), Scale(e, hex), !LosesDigits(sig, hex));
      ScaleShift(e, k, hex);
      PlacesAdd(k, frac, hex);
    }
  }

  lemma PartsDigits(s: string)
    ensures var t, p := s[MantissaStart(s)..MantissaStop(s)], PartsOf(s);
      && p.whole + p.frac == Digits(t, p.hex)
      && |p.frac| == FracCount(t, p.hex)
  {
    hide MantissaStop, MantissaStart, ExponentAt;
    var t := s[MantissaStart(s)..MantissaStop(s)];
    assert t == t[..DotAt(t)] + t[DotAt(t)..];
    DigitsConcat(t[..DotAt(t)], t[DotAt(t)..], PartsOf(s).hex);
    FracCountIs(t, PartsOf(s).hex);
  }

  lemma AssembleBrackets(s: string, neg: bool, hex: bool, m: nat, t: string, x: Exponent)
    requires m <= x.i <= |s| && Assemble(s, neg, hex, m, t, x).ok
    ensures var r := Assemble(s, neg, hex, m, t, x);
      RealBrackets(
        r.mantissa, Scale(r.exp, hex),
        Product(Val(Digits(t, hex), hex), Scale(x.e - Places(FracCount(t, hex), hex), hex)),
                   !r.trunc)
  {
    hide Val, Scale, Product, Places, RealBrackets, Significant, Kept, Digits, FracCount, LosesDigits, UnderscoresFit;
    Atof.DigitsAreBelow(t, hex);
    DigitsBracket(Digits(t, hex), FracCount(t, hex), x.e, hex);
  }

  /**
   * The mantissa and exponent read bracket the value of the literal consumed, under the exponent as read:
   * mantissa * B^exp <= V < (mantissa + 1) * B^exp, with equality exactly when nothing was truncated.
   */
  lemma ReadingBracketsValue(s: string)
    requires Scan(s).ok
    ensures var r := Scan(s);
      && r.i <= |s| && var V, unit := Value(PartsOf(s[..r.i])), Scale(r.exp, r.hex);
      && r.mantissa as real * unit <= V < (r.mantissa + 1) as real * unit
      && (r.mantissa as real * unit == V <==> !r.trunc)
  {
    hide Scan, Scale, Value, PartsOf;
    ConsumedPrefixReadsAlike(s);
    var p := s[..Scan(s).i];
    WholeBracketsValue(p);
  }

  lemma WholeBracketsValue(s: string)
    requires Scan(s).ok
    ensures RealBrackets(Scan(s).mantissa, Scale(Scan(s).exp, Scan(s).hex), Value(PartsOf(s)), !Scan(s).trunc)
  {
    hide Scale, Value, Product, Places, Digits, FracCount, MantissaStart, MantissaStop, ExponentAt, Assemble,
      RealBrackets, Val;
    var hex, b, m := HexAt(s, SignLen(s)), MantissaStart(s), MantissaStop(s);
    AssembleBrackets(s, s[0] == '-', hex, m, s[b..m], ExponentAt(s, m, hex));
    AssembleHex(s, s[0] == '-', hex, m, s[b..m], ExponentAt(s, m, hex));
    PartsDigits(s);
    ValueIs(PartsOf(s));
  }

  lemma AssembleHex(s: string, neg: bool, hex: bool, m: nat, t: string, x: Exponent)
    requires m <= x.i <= |s|
    ensures Assemble(s, neg, hex, m, t, x).hex == hex
  {}

  // ---------------------------------------------------------------- the exponent accumulator

  /** The accumulator gives the exponent written, as long as that is below 100000; beyond, it stays in 10000..99999. */
  lemma {:induction false} AccumulatorIsExactBelow100000(t: string)
    ensures var x := Val(Digits(t, false), false);
      && (x < 100000 ==> Accumulated(t) == x)
      && (x >= 100000 ==> 10000 <= Accumulated(t) <= 99999)
  {
    if t != "" {
      var init, c := t[..|t| - 1], t[|t| - 1];
      AccumulatorIsExactBelow100000(init);
      if IsDigit(c, false) { ValSnoc(Digits(init, false), DigitOf(c), false); }
    }
  }

  /** The exponent as written, however large. */
  function ExponentWritten(s: string): int {
    var m, hex := MantissaStop(s), HexAt(s, SignLen(s));
    if m == |s| || !IsExpMark(s[m], hex) || m + 1 == |s| then 0
    else
      var d := if IsSign(s[m + 1]) then m + 2 else m + 1;
      var x: int := Val(Digits(s[d..DigitRunEnd(s, d)], false), false);
      if s[m + 1] == '-' then -x else x
  }

  /** An exponent below 100000 is read as written; a larger one keeps its sign and is read as 10000..99999. */
  lemma ExponentReadAsWritten(s: string)
    requires Scan(s).ok
    ensures var w, e := ExponentWritten(s), PartsOf(s).exponent;
      && (-100000 < w < 100000 ==> e == w)
      && (w >= 100000 ==> 10000 <= e <= 99999)
      && (w <= -100000 ==> -99999 <= e <= -10000)
  {
    hide Digits, Val, Accumulated, DigitRunEnd, UnderscoresFit, MantissaStop, MantissaStart, Significant, FracCount,
      LosesDigits, Kept;
    var m, hex := MantissaStop(s), HexAt(s, SignLen(s));
    if m + 1 < |s| && IsExpMark(s[m], hex) {
      var d := if IsSign(s[m + 1]) then m + 2 else m + 1;
      if d < |s| { AccumulatorIsExactBelow100000(s[d..DigitRunEnd(s, d)]); }
    }
  }

  /** For exponents below 100000 in magnitude the bracket is around the true value of the literal. */
  lemma ReadingBracketsTrueValue(s: string)
    requires Scan(s).ok && -100000 < ExponentWritten(s[..Scan(s).i]) < 100000
    ensures var r, p := Scan(s), s[..Scan(s).i];
      var V, unit := Value(PartsOf(p).(exponent := ExponentWritten(p))), Scale(r.exp, r.hex);
      && r.mantissa as real * unit <= V < (r.mantissa + 1) as real * unit
      && (r.mantissa as real * unit == V <==> !r.trunc)
  {
    hide Scale, Value, PartsOf, ExponentWritten, MantissaStart, MantissaStop, ExponentAt, Digits, FracCount;
    ConsumedPrefixReadsAlike(s);
    ExponentReadAsWritten(s[..Scan(s).i]);
    ReadingBracketsValue(s);
  }
}
