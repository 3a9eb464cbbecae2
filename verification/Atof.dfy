/** The scanner of util/atof/atof.go, loop by loop. */
module Atof {
  import opened Numerals
  import opened FloatText

  /** Bitwise or with 0x20, written arithmetically: bit 5 is set exactly when `c / 32` is odd. */
  function Lower(c: char): char {
    if c as int / 32 % 2 == 1 then c else (c as int + 32) as char
  }

  lemma LowerIs(c: char, letter: char)
    requires 'a' <= letter <= 'z'
    ensures Lower(c) == letter <==> c == letter || c == (letter as int - 32) as char
  {}

  lemma LowerHexLetter(c: char)
    ensures 'a' <= Lower(c) <= 'f' <==> IsHexLetter(c)
    ensures IsHexLetter(c) ==> Lower(c) as int - 'a' as int + 10 == DigitOf(c)
  {}

  lemma LowerPrefix(t: string)
    requires |t| >= 2
    ensures t[0] == '0' && Lower(t[1]) == 'x' <==> HasHexPrefix(t)
    ensures t[0] == '0' && (Lower(t[1]) == 'b' || Lower(t[1]) == 'o' || Lower(t[1]) == 'x') <==> HasBasePrefix(t)
  {
    LowerIs(t[1], 'b');
    LowerIs(t[1], 'o');
    LowerIs(t[1], 'x');
  }

  lemma DigitTest(c: char, hex: bool)
    ensures '0' <= c <= '9' || (hex && 'a' <= Lower(c) <= 'f') <==> IsDigit(c, hex)
    ensures IsDigit(c, hex) ==> IsDigit(c, true) && c != '_' && c != '.' && !IsSign(c)
    ensures '0' <= c <= '9' ==> IsDigit(c, true) && DigitOf(c) == c as int - '0' as int
  {
    LowerHexLetter(c);
  }

  /** The last character class seen: `^` at the beginning, `0` digit or prefix, `_`, and `!` for any other. */
  datatype Saw = Beginning | Digit | Underscore | Other

  /** The positions before `i` are in order, as far as the characters before `i` tell. */
  ghost predicate InOrder(t: string, i: nat)
    requires i <= |t|
  {
    forall k {:trigger FollowsDigit(t, k)} :: 0 <= k < i && t[k] == '_' ==>
      FollowsDigit(t, k) && (k + 1 < i ==> PrecedesDigit(t, k))
  }

  lemma InOrderAtStart(t: string, i: nat)
    requires i == if HasBasePrefix(t) then 2 else 0
    ensures InOrder(t, i) && FollowsDigit(t, i) == (i == 2)
    ensures i == 2 ==> t[1] != '_'
  {}

  lemma InOrderStep(t: string, i: nat)
    requires i < |t| && InOrder(t, i)
    requires t[i] == '_' ==> FollowsDigit(t, i)
    requires i > 0 && t[i - 1] == '_' ==> IsDigit(t[i], HasHexPrefix(t))
    ensures InOrder(t, i + 1)
  {}

  lemma OutOfOrder(t: string, k: nat)
    requires k < |t| && t[k] == '_' && !(FollowsDigit(t, k) && PrecedesDigit(t, k))
    ensures !SeparatesDigits(t)
  {}

  lemma AllInOrder(t: string)
    requires InOrder(t, |t|) && (|t| > 0 ==> t[|t| - 1] != '_')
    ensures SeparatesDigits(t)
  {}

  method UnderscoreOK(s: string) returns (ok: bool)
    ensures ok == UnderscoresFit(s)
  {
    if |s| >= 1 && (s[0] == '-' || s[0] == '+') {
      ok := UnsignedUnderscoreOK(s[1..]);
    } else {
      ok := UnsignedUnderscoreOK(s);
      assert s[0..] == s;
    }
  }

  method UnsignedUnderscoreOK(s: string) returns (ok: bool)
    ensures ok == SeparatesDigits(s)
  {
    hide Lower, InOrder, SeparatesDigits, IsDigit;
    if |s| >= 2 { LowerPrefix(s); }
    var saw := Beginning;
    var i := 0;
    var hex := false;
    if |s| >= 2 && s[0] == '0' && (Lower(s[1]) == 'b' || Lower(s[1]) == 'o' || Lower(s[1]) == 'x') {
      i := 2;
      saw := Digit;
      hex := Lower(s[1]) == 'x';
    }
    InOrderAtStart(s, i);
    while i < |s|
      invariant i <= |s| && hex == HasHexPrefix(s) && (HasBasePrefix(s) ==> i >= 2)
      invariant (saw == Digit) == FollowsDigit(s, i)
      invariant saw == Underscore <==> i > 0 && s[i - 1] == '_'
      invariant InOrder(s, i)
    {
      DigitTest(s[i], hex);
      if '0' <= s[i] <= '9' || (hex && 'a' <= Lower(s[i]) <= 'f') {
        saw := Digit;
      } else if s[i] == '_' {
        if saw != Digit {
          OutOfOrder(s, i);
          return false;
        }
        saw := Underscore;
      } else {
        if saw == Underscore {
          OutOfOrder(s, i - 1);
          return false;
        }
        saw := Other;
      }
      InOrderStep(s, i);
      i := i + 1;
    }
    if saw == Underscore {
      OutOfOrder(s, i - 1);
    } else {
      AllInOrder(s);
    }
    return saw != Underscore;
  }

  // ---------------------------------------------------------------- one more character

  lemma DigitsSnoc(t: string, c: char, hex: bool)
    ensures Digits(t + [c], hex) == if IsDigit(c, hex) then Digits(t, hex) + [DigitOf(c)] else Digits(t, hex)
    ensures FracCount(t + [c], hex) == FracCount(t, hex) + (if '.' in t && IsDigit(c, hex) then 1 else 0)
  {
    assert (t + [c])[..|t|] == t;
  }

  lemma SignificantSnoc(ds: seq<nat>, d: nat)
    ensures Significant(ds + [d]) == if Significant(ds) == [] && d == 0 then [] else Significant(ds) + [d]
  {
    assert (ds + [d])[..|ds|] == ds;
  }

  lemma KeptSnoc(sig: seq<nat>, d: nat, hex: bool)
    ensures Kept(sig + [d], hex) == if |sig| < MaxKept(hex) then Kept(sig, hex) + [d] else Kept(sig, hex)
    ensures LosesDigits(sig + [d], hex) == (LosesDigits(sig, hex) || (|sig| >= MaxKept(hex) && d != 0))
  {
    if |sig| >= MaxKept(hex) {
      assert (sig + [d])[..MaxKept(hex)] == sig[..MaxKept(hex)];
      if LosesDigits(sig, hex) {
        var k :| MaxKept(hex) <= k < |sig| && sig[k] != 0;
        assert (sig + [d])[k] != 0;
      }
      assert (sig + [d])[|sig|] == d;
    }
  }

  lemma MaxPow()
    ensures Pow(19, false) == 10_000_000_000_000_000_000 < TWO_TO_THE_64 && Pow(16, true) == TWO_TO_THE_64
  {
    assert Pow(4, false) == 10000 && Pow(4, true) == 0x1_0000;
    assert Pow(8, false) == 100000000 && Pow(8, true) == 0x1_0000_0000;
    assert Pow(12, false) == 1000000000000 && Pow(12, true) == 0x1_0000_0000_0000;
    assert Pow(16, false) == 10000000000000000;
  }

  lemma KeptFits(sig: seq<nat>, hex: bool)
    requires DigitsBelow(sig, hex)
    ensures Val(Kept(sig, hex), hex) < TWO_TO_THE_64
  {
    ValBound(Kept(sig, hex), hex);
    PowMonotone(|Kept(sig, hex)|, MaxKept(hex), hex);
    MaxPow();
  }

  lemma NoUnderscoreFits(s: string)
    requires '_' !in s
    ensures UnderscoresFit(s)
  {}

  /** What the loop variables hold once the mantissa text `t` has been passed. */
  ghost predicate Holds(t: string, hex: bool, mantissa: nat, trunc: bool, nd: nat, ndMant: nat) {
    var sig := Significant(Digits(t, hex));
    && nd == |sig|
    && ndMant == |Kept(sig, hex)|
    && mantissa == Val(Kept(sig, hex), hex)
    && trunc == LosesDigits(sig, hex)
  }

  /** Where the decimal point is: `dp` counts from the first significant digit once the dot was seen. */
  ghost predicate Points(t: string, hex: bool, nd: nat, dp: int, sawdot: bool) {
    && sawdot == ('.' in t)
    && (sawdot ==> dp == nd - FracCount(t, hex))
    && (!sawdot ==> FracCount(t, hex) == 0)
  }

  lemma HoldsSkip(t: string, c: char, hex: bool, mantissa: nat, trunc: bool, nd: nat, ndMant: nat)
    requires Holds(t, hex, mantissa, trunc, nd, ndMant)
    requires !IsDigit(c, hex) || (c == '0' && nd == 0)
    ensures Holds(t + [c], hex, mantissa, trunc, nd, ndMant)
  {
    hide Val;
    DigitsSnoc(t, c, hex);
    if IsDigit(c, hex) { SignificantSnoc(Digits(t, hex), DigitOf(c)); }
  }

  /** `mantissa *= base; mantissa += d` on 64 bits, wrapping at each of the two steps. */
  function Push64(mantissa: nat, base: nat, d: nat): nat {
    (mantissa * base % TWO_TO_THE_64 + d) % TWO_TO_THE_64
  }

  lemma Push64Exact(mantissa: nat, hex: bool, d: nat)
    requires Shift(mantissa, hex) + d < TWO_TO_THE_64
    ensures Push64(mantissa, if hex then 16 else 10, d) == Shift(mantissa, hex) + d
  {}

  lemma {:induction false} SignificantBelow(ds: seq<nat>, hex: bool)
    requires DigitsBelow(ds, hex)
    ensures DigitsBelow(Significant(ds), hex)
  {
    if ds != [] { SignificantBelow(ds[..|ds| - 1], hex); }
  }

  lemma {:induction false} DigitsAreBelow(t: string, hex: bool)
    ensures DigitsBelow(Digits(t, hex), hex)
  {
    if t != "" { DigitsAreBelow(t[..|t| - 1], hex); }
  }

  lemma HoldsKeep(t: string, c: char, hex: bool, mantissa: nat, trunc: bool, nd: nat, ndMant: nat)
    requires Holds(t, hex, mantissa, trunc, nd, ndMant)
    requires IsDigit(c, hex) && !(c == '0' && nd == 0) && ndMant < MaxKept(hex)
    ensures Holds(t + [c], hex, Push64(mantissa, if hex then 16 else 10, DigitOf(c)), trunc, nd + 1, ndMant + 1)
  {
    hide Push64, Val, Shift, Digits, Significant, DigitsBelow, LosesDigits;
    var ds, sig, d := Digits(t, hex), Significant(Digits(t, hex)), DigitOf(c);
    DigitsSnoc(t, c, hex);
    SignificantSnoc(ds, d);
    KeptSnoc(sig, d, hex);
    DigitsAreBelow(t + [c], hex);
    SignificantBelow(ds + [d], hex);
    KeptFits(sig + [d], hex);
    ValSnoc(Kept(sig, hex), d, hex);
    Push64Exact(mantissa, hex, d);
  }

  lemma HoldsDrop(t: string, c: char, hex: bool, mantissa: nat, trunc: bool, nd: nat, ndMant: nat)
    requires Holds(t, hex, mantissa, trunc, nd, ndMant)
    requires IsDigit(c, hex) && !(c == '0' && nd == 0) && ndMant >= MaxKept(hex)
    ensures Holds(t + [c], hex, mantissa, trunc || c != '0', nd + 1, ndMant)
  {
    hide Val, Digits, Significant, LosesDigits;
    DigitsSnoc(t, c, hex);
    SignificantSnoc(Digits(t, hex), DigitOf(c));
    KeptSnoc(Significant(Digits(t, hex)), DigitOf(c), hex);
  }

  lemma PointsStep(t: string, c: char, hex: bool, nd: nat, dp: int, sawdot: bool)
    requires Points(t, hex, nd, dp, sawdot)
    ensures c == '.' && !sawdot ==> Points(t + [c], hex, nd, nd, true)
    ensures c != '.' && !IsDigit(c, hex) ==> Points(t + [c], hex, nd, dp, sawdot)
    ensures IsDigit(c, hex) ==> Points(t + [c], hex, nd, dp - 1, sawdot) && Points(t + [c], hex, nd + 1, dp, sawdot)
  {
    DigitsSnoc(t, c, hex);
  }

  lemma HoldsNothing(hex: bool)
    ensures Holds("", hex, 0, false, 0, 0) && Points("", hex, 0, 0, false) && Digits("", hex) == []
  {}

  ghost predicate IsSlice(s: string, i: nat, j: nat, t: string) {
    i <= j <= |s| && t == s[i..j]
  }

  lemma SliceStep(s: string, i: nat, j: nat, t: string)
    requires IsSlice(s, i, j, t) && j < |s|
    ensures IsSlice(s, i, j + 1, t + [s[j]])
  {}

  /** The variables of the digits loop. */
  datatype Loop = Loop(mantissa: nat, trunc: bool, nd: nat, ndMant: nat, dp: int,
                       sawdot: bool, sawdigits: bool, underscores: bool)

  /** The loop invariant: at `i`, having passed the text `t`, the variables hold `v`. */
  ghost predicate At(s: string, start: nat, hex: bool, i: nat, t: string, v: Loop) {
    && IsSlice(s, start, i, t)
    && MantissaEnd(s, start, hex, false) == MantissaEnd(s, i, hex, v.sawdot)
    && v.sawdigits == (Digits(t, hex) != [])
    && v.underscores == ('_' in t)
    && Holds(t, hex, v.mantissa, v.trunc, v.nd, v.ndMant)
    && Points(t, hex, v.nd, v.dp, v.sawdot)
  }

  lemma AtStart(s: string, start: nat, hex: bool)
    requires start <= |s|
    ensures At(s, start, hex, start, "", Loop(0, false, 0, 0, 0, false, false, false))
  {
    HoldsNothing(hex);
  }

  lemma MantissaEndStep(s: string, i: nat, hex: bool, dot: bool)
    requires i < |s|
    ensures s[i] == '_' || IsDigit(s[i], hex) ==> MantissaEnd(s, i, hex, dot) == MantissaEnd(s, i + 1, hex, dot)
    ensures s[i] == '.' && !dot ==> MantissaEnd(s, i, hex, dot) == MantissaEnd(s, i + 1, hex, true)
  {}

  lemma AtMark(s: string, start: nat, hex: bool, i: nat, t: string, v: Loop)
    requires At(s, start, hex, i, t, v) && i < |s|
    ensures s[i] == '_' ==> At(s, start, hex, i + 1, t + [s[i]], v.(underscores := true))
    ensures s[i] == '.' && !v.sawdot ==> At(s, start, hex, i + 1, t + [s[i]], v.(sawdot := true, dp := v.nd))
  {
    hide Holds, Points, Digits, FracCount, IsDigit, Significant, Kept, LosesDigits, Val, IsSlice, MantissaEnd;
    var c := s[i];
    MantissaEndStep(s, i, hex, v.sawdot);
    SliceStep(s, start, i, t);
    DigitTest(c, hex);
    DigitsSnoc(t, c, hex);
    PointsStep(t, c, hex, v.nd, v.dp, v.sawdot);
    if !IsDigit(c, hex) { HoldsSkip(t, c, hex, v.mantissa, v.trunc, v.nd, v.ndMant); }
  }

  /** What every digit does, whatever becomes of it. */
  lemma AnyDigit(s: string, start: nat, hex: bool, i: nat, t: string, v: Loop)
    requires At(s, start, hex, i, t, v) && i < |s| && IsDigit(s[i], hex)
    ensures IsSlice(s, start, i + 1, t + [s[i]])
    ensures MantissaEnd(s, start, hex, false) == MantissaEnd(s, i + 1, hex, v.sawdot)
    ensures Digits(t + [s[i]], hex) != []
    ensures v.underscores == ('_' in t + [s[i]])
    ensures Points(t + [s[i]], hex, v.nd, v.dp - 1, v.sawdot) && Points(t + [s[i]], hex, v.nd + 1, v.dp, v.sawdot)
  {
    hide Holds, Points, Digits, FracCount, MaxKept, Significant, Kept, LosesDigits, Val, IsSlice, DigitOf,
      MantissaEnd, IsDigit;
    DigitTest(s[i], hex);
    MantissaEndStep(s, i, hex, v.sawdot);
    SliceStep(s, start, i, t);
    DigitsSnoc(t, s[i], hex);
    PointsStep(t, s[i], hex, v.nd, v.dp, v.sawdot);
  }

  lemma AtDigit(s: string, start: nat, hex: bool, i: nat, t: string, v: Loop)
    requires At(s, start, hex, i, t, v) && i < |s| && IsDigit(s[i], hex)
    ensures s[i] == '0' && v.nd == 0 ==>
      At(s, start, hex, i + 1, t + [s[i]], v.(dp := v.dp - 1, sawdigits := true))
    ensures !(s[i] == '0' && v.nd == 0) && v.ndMant < MaxKept(hex) ==>
      At(s, start, hex, i + 1, t + [s[i]],
         v.(mantissa := Push64(v.mantissa, if hex then 16 else 10, DigitOf(s[i])),
            nd := v.nd + 1, ndMant := v.ndMant + 1, sawdigits := true))
    ensures !(s[i] == '0' && v.nd == 0) && v.ndMant >= MaxKept(hex) ==>
      At(s, start, hex, i + 1, t + [s[i]],
         v.(trunc := v.trunc || s[i] != '0', nd := v.nd + 1, sawdigits := true))
  {
    hide Holds, Points, Digits, FracCount, Push64, MaxKept, Significant, Kept, LosesDigits, Val, IsSlice, DigitOf,
      MantissaEnd, IsDigit;
    var c := s[i];
    AnyDigit(s, start, hex, i, t, v);
    DigitTest(c, hex);
    if c == '0' && v.nd == 0 {
      HoldsSkip(t, c, hex, v.mantissa, v.trunc, v.nd, v.ndMant);
    } else if v.ndMant < MaxKept(hex) {
      HoldsKeep(t, c, hex, v.mantissa, v.trunc, v.nd, v.ndMant);
    } else {
      HoldsDrop(t, c, hex, v.mantissa, v.trunc, v.nd, v.ndMant);
    }
  }

  lemma AtStop(s: string, start: nat, hex: bool, i: nat, t: string, v: Loop)
    requires At(s, start, hex, i, t, v)
    requires i == |s| || (s[i] != '_' && !IsDigit(s[i], hex) && (s[i] == '.' ==> v.sawdot))
    ensures i == MantissaEnd(s, start, hex, false)
  {}

  /** The digits loop from `start`: it passes the text `t` and stops at `i`. */
  method ReadMantissa(s: string, start: nat, hex: bool)
    returns (mantissa: nat, trunc: bool, i: nat, nd: nat, ndMant: nat, dp: int,
             sawdot: bool, sawdigits: bool, underscores: bool, ghost t: string)
    requires start <= |s|
    ensures start <= i <= |s| && i == MantissaEnd(s, start, hex, false)
    ensures At(s, start, hex, i, t, Loop(mantissa, trunc, nd, ndMant, dp, sawdot, sawdigits, underscores))
  {
    hide At, IsSlice, Holds, Points, Digits, Significant, FracCount, Kept, LosesDigits, Val, Push64, Lower, IsDigit,
      IsHexLetter, MantissaEnd, DigitOf;
    var base := if hex then 16 else 10;
    var maxMantDigits := if hex then 16 else 19;
    mantissa, trunc, underscores := 0, false, false;
    sawdot, sawdigits := false, false;
    nd, ndMant, dp := 0, 0, 0;
    i, t := start, "";
    AtStart(s, start, hex);
    while i < |s|
      invariant start <= i <= |s|
      invariant At(s, start, hex, i, t, Loop(mantissa, trunc, nd, ndMant, dp, sawdot, sawdigits, underscores))
    {
      var c := s[i];
      ghost var v := Loop(mantissa, trunc, nd, ndMant, dp, sawdot, sawdigits, underscores);
      DigitTest(c, hex);
      AtMark(s, start, hex, i, t, v);
      if IsDigit(c, hex) { AtDigit(s, start, hex, i, t, v); }
      if c == '_' {
        underscores := true;
      } else if c == '.' {
        if sawdot {
          break;
        }
        sawdot := true;
        dp := nd;
      } else if '0' <= c <= '9' {
        sawdigits := true;
        if c == '0' && nd == 0 {
          dp := dp - 1;
        } else {
          nd := nd + 1;
          if ndMant < maxMantDigits {
            mantissa := Push64(mantissa, base, c as int - '0' as int);
            ndMant := ndMant + 1;
          } else if c != '0' {
            trunc := true;
          }
        }
      } else if base == 16 && 'a' <= Lower(c) <= 'f' {
        sawdigits := true;
        nd := nd + 1;
        LowerHexLetter(c);
        if ndMant < maxMantDigits {
          mantissa := Push64(mantissa, 16, Lower(c) as int - 'a' as int + 10);
          ndMant := ndMant + 1;
        } else {
          trunc := true;
        }
      } else {
        break;
      }
      t := t + [c];
      i := i + 1;
    }
    AtStop(s, start, hex, i, t, Loop(mantissa, trunc, nd, ndMant, dp, sawdot, sawdigits, underscores));
  }

  // ---------------------------------------------------------------- the exponent

  predicate Plain(s: string, a: nat, b: nat) {
    forall k :: a <= k < b && k < |s| ==> s[k] != '_'
  }

  lemma {:induction false} RunStep(s: string, d: nat, i: nat, t: string)
    requires IsSlice(s, d, i, t) && i < |s| && (s[i] == '_' || IsDecimal(s[i]))
    ensures IsSlice(s, d, i + 1, t + [s[i]])
    ensures DigitRunEnd(s, i) == DigitRunEnd(s, i + 1)
    ensures s[i] == '_' ==> Accumulated(t + [s[i]]) == Accumulated(t)
    ensures s[i] != '_' ==> Accumulated(t + [s[i]]) ==
                            if Accumulated(t) < 10000 then Accumulated(t) * 10 + (s[i] as int - '0' as int)
                            else Accumulated(t)
  {
    SliceStep(s, d, i, t);
    assert (t + [s[i]])[..|t|] == t;
  }

  lemma RunIsSlice(s: string, d: nat, i: nat, t: string)
    requires IsSlice(s, d, i, t)
    requires i == |s| || (s[i] != '_' && !IsDecimal(s[i]))
    ensures DigitRunEnd(s, i) == i && t == s[d..i]
  {}

  /** The digits of an exponent, from `d` on. */
  method ReadExponentDigits(s: string, d: nat) returns (i: nat, e: nat, underscores: bool)
    requires d <= |s|
    ensures i == DigitRunEnd(s, d) && d <= i <= |s| && e == Accumulated(s[d..i])
    ensures underscores == !Plain(s, d, i)
  {
    hide IsSlice, Accumulated, DigitRunEnd, IsDecimal;
    ghost var t := "";
    e, i, underscores := 0, d, false;
    RunAtStart(s, d);
    while i < |s| && ('0' <= s[i] <= '9' || s[i] == '_')
      invariant d <= i <= |s| && IsSlice(s, d, i, t) && DigitRunEnd(s, d) == DigitRunEnd(s, i)
      invariant e == Accumulated(t) && underscores == !Plain(s, d, i)
    {
      DecimalTest(s[i]);
      RunStep(s, d, i, t);
      t := t + [s[i]];
      if s[i] == '_' {
        underscores := true;
      } else if e < 10000 {
        e := e * 10 + (s[i] as int - '0' as int);
      }
      i := i + 1;
    }
    if i < |s| { DecimalTest(s[i]); }
    RunIsSlice(s, d, i, t);
  }

  lemma RunAtStart(s: string, d: nat)
    requires d <= |s|
    ensures IsSlice(s, d, d, "") && Accumulated("") == 0
  {}

  lemma DecimalTest(c: char)
    ensures IsDecimal(c) == ('0' <= c <= '9')
  {}

  /** The exponent part at `m`, if there is one. */
  method ReadExponent(s: string, m: nat, hex: bool) returns (i: nat, ok: bool, e: int, underscores: bool)
    requires m <= |s|
    ensures Exponent(i, ok, e) == ExponentAt(s, m, hex)
    ensures underscores == !Plain(s, m, i)
  {
    hide Lower, Accumulated, DigitRunEnd;
    var expChar := if hex then 'p' else 'e';
    i, e, underscores := m, 0, false;
    if i < |s| { LowerIs(s[i], expChar); }
    if i < |s| && Lower(s[i]) == expChar {
      i := i + 1;
      if i >= |s| {
        return i, false, 0, false;
      }
      var esign := 1;
      if s[i] == '+' {
        i := i + 1;
      } else if s[i] == '-' {
        i := i + 1;
        esign := -1;
      }
      if i >= |s| || s[i] < '0' || s[i] > '9' {
        return i, false, 0, false;
      }
      var magnitude: nat;
      i, magnitude, underscores := ReadExponentDigits(s, i);
      return i, true, magnitude * esign, underscores;
    } else if hex {
      return i, false, 0, false;
    }
    return i, true, 0, false;
  }

  // ---------------------------------------------------------------- the whole scanner

  lemma SliceHasUnderscore(s: string, a: nat, b: nat, t: string)
    requires IsSlice(s, a, b, t)
    ensures ('_' in t) == !Plain(s, a, b)
  {
    if !Plain(s, a, b) {
      var k :| a <= k < b && s[k] == '_';
      assert t[k - a] == '_';
    }
  }

  lemma PlainFits(s: string, b: nat, m: nat, i: nat)
    requires b <= m <= i <= |s| && Plain(s, 0, b) && Plain(s, b, m) && Plain(s, m, i)
    ensures UnderscoresFit(s[..i])
  {
    assert '_' !in s[..i];
    NoUnderscoreFits(s[..i]);
  }

  lemma StartIs(s: string, a: nat, b: nat, hex: bool)
    requires |s| > 0 && a == SignLen(s)
    requires hex == (a + 2 < |s| && s[a] == '0' && Lower(s[a + 1]) == 'x')
    requires b == if hex then a + 2 else a
    ensures hex == HexAt(s, SignLen(s)) && b == MantissaStart(s) && Plain(s, 0, b)
  {
    if a + 1 < |s| { LowerIs(s[a + 1], 'x'); }
  }

  lemma ScanIs(s: string, m: nat, t: string)
    requires |s| > 0 && m == MantissaStop(s) && IsSlice(s, MantissaStart(s), m, t)
    ensures var hex := HexAt(s, SignLen(s));
      Scan(s) == Assemble(s, s[0] == '-', hex, m, t, ExponentAt(s, m, hex))
  {}

  method ReadFloat(s: string) returns (mantissa: nat, exp: int, neg: bool, trunc: bool, hex: bool, i: nat, ok: bool)
    ensures Reading(mantissa, exp, neg, trunc, hex, i, ok) == Scan(s)
    ensures neg <==> s != "" && s[0] == '-'
  {
    hide Lower, Scan, At, IsSlice, Plain, ExponentAt, UnderscoresFit, MantissaStart, LosesDigits, Kept, Significant,
      Digits, Val;
    mantissa, exp, neg, trunc, hex, i, ok := 0, 0, false, false, false, 0, false;
    if i >= |s| {
      ScanEmpty();
      return;
    }
    if s[i] == '+' {
      i := i + 1;
    } else if s[i] == '-' {
      neg := true;
      i := i + 1;
    }
    ghost var a := i;
    if i + 2 < |s| && s[i] == '0' && Lower(s[i + 1]) == 'x' {
      i := i + 2;
      hex := true;
    }
    ghost var b := i;
    StartIs(s, a, b, hex);
    var nd, ndMant, dp, sawdot, sawdigits, underscores;
    ghost var t;
    mantissa, trunc, i, nd, ndMant, dp, sawdot, sawdigits, underscores, t := ReadMantissa(s, i, hex);
    ghost var m := i;
    AtMeans(s, b, hex, i, t, Loop(mantissa, trunc, nd, ndMant, dp, sawdot, sawdigits, underscores));
    ScanIs(s, m, t);
    if !sawdigits {
      return;
    }
    if !sawdot {
      dp := nd;
    }
    if hex {
      dp := dp * 4;
      ndMant := ndMant * 4;
    }
    var readable, e, more;
    i, readable, e, more := ReadExponent(s, i, hex);
    if !readable {
      return;
    }
    dp := dp + e;
    if mantissa != 0 {
      exp := dp - ndMant;
    }
    underscores := underscores || more;
    if underscores {
      var fit := UnderscoreOK(s[..i]);
      if !fit {
        return;
      }
    } else {
      PlainFits(s, b, m, i);
    }
    ok := true;
  }

  lemma ScanEmpty()
    ensures Scan("") == Reading(0, 0, false, false, false, 0, false)
  {}

  lemma AtMeans(s: string, b: nat, hex: bool, m: nat, t: string, v: Loop)
    requires At(s, b, hex, m, t, v)
    ensures var sig := Significant(Digits(t, hex));
      && IsSlice(s, b, m, t)
      && v.sawdigits == (Digits(t, hex) != [])
      && v.underscores == !Plain(s, b, m)
      && v.nd == |sig| && v.ndMant == |Kept(sig, hex)|
      && v.mantissa == Val(Kept(sig, hex), hex) && v.trunc == LosesDigits(sig, hex)
      && (if v.sawdot then v.dp else v.nd) == v.nd - FracCount(t, hex)
  {
    SliceHasUnderscore(s, b, m, t);
  }
}
