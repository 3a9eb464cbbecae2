/** What the float scanner promises: the grammar it accepts, the value it returns, and reading back. */
module AtofTheorems {
  import opened Numerals
  import opened FloatText

  // ---------------------------------------------------------------- where a mantissa stops

  predicate IsMantissaChar(c: char, hex: bool) { c == '_' || c == '.' || IsDigit(c, hex) }

  /** Mantissa characters only, with at most one dot. */
  ghost predicate MantissaSpan(s: string, i: nat, m: nat, hex: bool) {
    && i <= m <= |s|
    && (forall k :: i <= k < m ==> IsMantissaChar(s[k], hex))
    && (forall j, k :: i <= j < k < m && s[j] == '.' ==> s[k] != '.')
  }

  lemma {:induction false} MantissaEndSpan(s: string, i: nat, hex: bool, dot: bool)
    requires i <= |s|
    ensures var m := MantissaEnd(s, i, hex, dot);
      && MantissaSpan(s, i, m, hex)
      && (dot ==> forall k :: i <= k < m ==> s[k] != '.')
    decreases |s| - i
  {
    if i < |s| {
      if s[i] == '_' || IsDigit(s[i], hex) { MantissaEndSpan(s, i + 1, hex, dot); }
      else if s[i] == '.' && !dot { MantissaEndSpan(s, i + 1, hex, true); }
    }
  }

  lemma {:induction false} MantissaSpanEnds(s: string, i: nat, m: nat, hex: bool, dot: bool)
    requires MantissaSpan(s, i, m, hex)
    requires dot ==> forall k :: i <= k < m ==> s[k] != '.'
    requires m < |s| ==> !IsMantissaChar(s[m], hex)
    ensures MantissaEnd(s, i, hex, dot) == m
    decreases m - i
  {
    if i < m {
      assert IsMantissaChar(s[i], hex);
      if s[i] == '_' || IsDigit(s[i], hex) { MantissaSpanEnds(s, i + 1, m, hex, dot); }
      else { MantissaSpanEnds(s, i + 1, m, hex, true); }
    }
  }

  lemma {:induction false} MantissaEndPrefix(s: string, i: nat, hex: bool, dot: bool, p: string)
    requires i <= |s| && MantissaEnd(s, i, hex, dot) <= |p| <= |s| && p == s[..|p|]
    ensures MantissaEnd(p, i, hex, dot) == MantissaEnd(s, i, hex, dot)
    decreases |s| - i
  {
    if i < |p| {
      assert p[i] == s[i];
      if s[i] == '_' || IsDigit(s[i], hex) { MantissaEndPrefix(s, i + 1, hex, dot, p); }
      else if s[i] == '.' && !dot { MantissaEndPrefix(s, i + 1, hex, true, p); }
    }
  }

  ghost predicate RunSpan(s: string, d: nat, e: nat) {
    d <= e <= |s| && forall k :: d <= k < e ==> s[k] == '_' || IsDecimal(s[k])
  }

  lemma {:induction false} DigitRunSpan(s: string, d: nat)
    requires d <= |s|
    ensures RunSpan(s, d, DigitRunEnd(s, d))
    decreases |s| - d
  {
    if d < |s| && (s[d] == '_' || IsDecimal(s[d])) { DigitRunSpan(s, d + 1); }
  }

  lemma {:induction false} RunSpanEnds(s: string, d: nat, e: nat)
    requires RunSpan(s, d, e) && (e < |s| ==> s[e] != '_' && !IsDecimal(s[e]))
    ensures DigitRunEnd(s, d) == e
    decreases e - d
  {
    if d < e { RunSpanEnds(s, d + 1, e); }
  }

  lemma DigitRunPrefix(s: string, d: nat, p: string)
    requires d <= |s| && p == s[..DigitRunEnd(s, d)]
    ensures DigitRunEnd(p, d) == |p|
  {
    DigitRunSpan(s, d);
    forall k | d <= k < |p| ensures p[k] == '_' || IsDecimal(p[k]) { assert p[k] == s[k]; }
    RunSpanEnds(p, d, |p|);
  }

  // ---------------------------------------------------------------- a mantissa has a digit

  lemma {:induction false} SomeDigit(t: string, hex: bool)
    ensures Digits(t, hex) != [] <==> exists k :: 0 <= k < |t| && IsDigit(t[k], hex)
  {
    if t != "" {
      var init := t[..|t| - 1];
      SomeDigit(init, hex);
      if Digits(init, hex) != [] {
        var k :| 0 <= k < |init| && IsDigit(init[k], hex);
        assert IsDigit(t[k], hex);
      }
      if k :| 0 <= k < |t| && IsDigit(t[k], hex) && !IsDigit(t[|t| - 1], hex) {
        assert IsDigit(init[k], hex);
      }
    }
  }

  lemma MantissaTextSpan(s: string, b: nat, m: nat, hex: bool)
    requires b <= m <= |s|
    ensures MantissaText(s[b..m], hex) <==> MantissaSpan(s, b, m, hex) && Digits(s[b..m], hex) != []
  {
    var t := s[b..m];
    SomeDigit(t, hex);
    assert forall k :: 0 <= k < |t| ==> t[k] == s[b + k];
    assert forall k :: b <= k < m ==> s[k] == t[k - b];
  }

  // ---------------------------------------------------------------- an exponent part

  /** An exponent part ends the text exactly when it is one of the grammar. */
  lemma ExponentTextRead(s: string, m: nat, hex: bool)
    requires m <= |s|
    ensures (m == |s| && !hex) || (m < |s| && ExponentText(s[m..], hex)) <==>
            ExponentAt(s, m, hex).ok && ExponentAt(s, m, hex).i == |s|
  {
    hide Accumulated, DigitRunEnd;
    if m < |s| {
      var t := s[m..];
      assert t[0] == s[m] && (|t| > 1 ==> t[1] == s[m + 1]);
      if m + 1 < |s| {
        var d := if IsSign(s[m + 1]) then m + 2 else m + 1;
        if d < |s| {
          assert t[d - m] == s[d];
          RunRead(s, m, d);
        }
      }
    }
  }

  lemma RunRead(s: string, m: nat, d: nat)
    requires m <= d <= |s|
    ensures DigitRunEnd(s, d) == |s| <==> forall k :: d - m <= k < |s| - m ==> s[m..][k] == '_' || IsDecimal(s[m..][k])
  {
    var t := s[m..];
    assert forall k :: 0 <= k < |t| ==> t[k] == s[m + k];
    DigitRunSpan(s, d);
    if forall k :: d - m <= k < |s| - m ==> t[k] == '_' || IsDecimal(t[k]) {
      forall k | d <= k < |s| ensures s[k] == '_' || IsDecimal(s[k]) { assert t[k - m] == s[k]; }
      RunSpanEnds(s, d, |s|);
    }
  }

  // ---------------------------------------------------------------- acceptance is the grammar

  /** Reading a literal of the grammar stops its mantissa where the grammar does. */
  lemma StopsAt(s: string, b: nat, m: nat, hex: bool)
    requires b <= m <= |s| && MantissaText(s[b..m], hex)
    requires m == |s| || IsExpMark(s[m], hex)
    ensures MantissaEnd(s, b, hex, false) == m
  {
    MantissaTextSpan(s, b, m, hex);
    MantissaSpanEnds(s, b, m, hex, false);
  }

  /** A decimal literal is never taken for a hexadecimal one. */
  lemma DecimalIsNotHex(s: string, m: nat)
    requires DecimalLiteral(s, m)
    ensures !HexAt(s, SignLen(s))
  {
    var a := SignLen(s);
    MantissaTextSpan(s, a, m, false);
    assert m < |s| ==> s[m..][0] == s[m];
  }

  lemma LiteralIsAccepted(s: string, m: nat)
    requires UnderscoresFit(s) && (DecimalLiteral(s, m) || HexLiteral(s, m))
    ensures Scan(s).ok && Scan(s).i == |s|
  {
    hide ExponentAt, UnderscoresFit, LosesDigits, Kept, Significant, Val, FracCount;
    if DecimalLiteral(s, m) { DecimalIsNotHex(s, m); }
    var hex, b := HexAt(s, SignLen(s)), MantissaStart(s);
    assert b <= m && MantissaText(s[b..m], hex);
    if m < |s| {
      assert ExponentText(s[m..], hex) && s[m..][0] == s[m];
    }
    StopsAt(s, b, m, hex);
    MantissaTextSpan(s, b, m, hex);
    ExponentTextRead(s, m, hex);
    assert s[..|s|] == s;
    assert s != "";
  }

  lemma AcceptedIsLiteral(s: string)
    requires Scan(s).ok && Scan(s).i == |s|
    ensures IsLiteral(s)
  {
    hide ExponentAt, UnderscoresFit, LosesDigits, Kept, Significant, Val, FracCount;
    var hex, b, m := HexAt(s, SignLen(s)), MantissaStart(s), MantissaStop(s);
    MantissaEndSpan(s, b, hex, false);
    MantissaTextSpan(s, b, m, hex);
    ExponentTextRead(s, m, hex);
    assert s[..|s|] == s;
    if hex {
      assert HexLiteral(s, m);
    } else {
      assert DecimalLiteral(s, m);
    }
  }

  /** `readFloat` accepts and consumes the whole string exactly when it is a literal of the grammar. */
  lemma AcceptsExactlyLiterals(s: string)
    ensures Scan(s).ok && Scan(s).i == |s| <==> IsLiteral(s)
  {
    if IsLiteral(s) {
      var m :| DecimalLiteral(s, m) || HexLiteral(s, m);
      LiteralIsAccepted(s, m);
    } else if Scan(s).ok && Scan(s).i == |s| {
      AcceptedIsLiteral(s);
    }
  }

  // ---------------------------------------------------------------- signs, bases and digits

  /** Whatever is read, it is negative exactly behind a minus, and hexadecimal exactly behind 0x and something. */
  lemma SignAndBase(s: string)
    ensures Scan(s).neg <==> s != "" && s[0] == '-'
    ensures var a := if s != "" && (s[0] == '-' || s[0] == '+') then 1 else 0;
      Scan(s).hex <==> a + 2 < |s| && s[a] == '0' && (s[a + 1] == 'x' || s[a + 1] == 'X')
  {
    hide Digits, Significant, Val, Kept, LosesDigits, FracCount, UnderscoresFit, ExponentAt, MantissaStop;
  }

  const LOWER_DIGITS := "0123456789abcdef"
  const UPPER_DIGITS := "0123456789ABCDEF"

  /** Zero has no exponent, however it is written. */
  lemma ZeroHasNoExponent(s: string)
    ensures Scan(s).mantissa == 0 ==> Scan(s).exp == 0
  {
    hide Digits, Significant, Val, Kept, LosesDigits, FracCount, UnderscoresFit, ExponentAt, MantissaStop;
  }

  /** The sixteen digits and their values, in either case of the letters; ten of them are decimal. */
  lemma DigitValue(d: nat)
    requires d < 16
    ensures IsDigit(LOWER_DIGITS[d], true) && DigitOf(LOWER_DIGITS[d]) == d
    ensures IsDigit(UPPER_DIGITS[d], true) && DigitOf(UPPER_DIGITS[d]) == d
    ensures (IsDigit(LOWER_DIGITS[d], false) <==> d < 10) && (IsDigit(UPPER_DIGITS[d], false) <==> d < 10)
  {}

  /** There are no other digits. */
  lemma NoOtherDigits(c: char)
    requires IsDigit(c, true)
    ensures DigitOf(c) < 16 && (c == LOWER_DIGITS[DigitOf(c)] || c == UPPER_DIGITS[DigitOf(c)])
    ensures IsDigit(c, false) <==> DigitOf(c) < 10
  {}

  // ---------------------------------------------------------------- the rule for underscores, in characters

  /** What may stand before an underscore, spelled out: a digit of the base, or the base prefix. */
  lemma BeforeUnderscore(t: string, k: nat)
    requires k < |t|
    ensures var hex := |t| >= 2 && t[0] == '0' && (t[1] == 'x' || t[1] == 'X');
      var other := |t| >= 2 && t[0] == '0' && (t[1] == 'b' || t[1] == 'B' || t[1] == 'o' || t[1] == 'O');
      FollowsDigit(t, k) <==> (k > 0 && IsDigit(t[k - 1], hex)) || (k == 2 && (hex || other))
  {}

  /** The underscore rule, spelled out: before every underscore that, and behind it a digit. */
  lemma UnderscoreRule(t: string)
    ensures var hex := |t| >= 2 && t[0] == '0' && (t[1] == 'x' || t[1] == 'X');
      SeparatesDigits(t) <==> forall k :: 0 <= k < |t| && t[k] == '_' ==>
        FollowsDigit(t, k) && k + 1 < |t| && IsDigit(t[k + 1], hex)
  {
    var hex := |t| >= 2 && t[0] == '0' && (t[1] == 'x' || t[1] == 'X');
    assert hex == HasHexPrefix(t);
    if SeparatesDigits(t) {
      forall k | 0 <= k < |t| && t[k] == '_'
        ensures FollowsDigit(t, k) && k + 1 < |t| && IsDigit(t[k + 1], hex)
      {
        assert FollowsDigit(t, k);
      }
    }
  }

  // ---------------------------------------------------------------- the consumed prefix

  lemma ExponentPrefix(s: string, m: nat, hex: bool, p: string)
    requires m <= |s| && ExponentAt(s, m, hex).ok && p == s[..ExponentAt(s, m, hex).i]
    ensures ExponentAt(p, m, hex) == ExponentAt(s, m, hex)
  {
    hide Accumulated, DigitRunEnd;
    if m < |p| {
      var d := if IsSign(s[m + 1]) then m + 2 else m + 1;
      DigitRunPrefix(s, d, p);
      DigitRunSpan(s, d);
      DigitRunGrows(s, d);
      assert p[d..|p|] == s[d..|p|];
      assert p[m] == s[m] && p[m + 1] == s[m + 1] && p[d] == s[d];
    }
  }

  lemma DigitRunGrows(s: string, d: nat)
    requires d < |s| && IsDecimal(s[d])
    ensures DigitRunEnd(s, d) > d
  {}

  lemma EmptySlice(s: string, b: nat, hex: bool)
    requires b <= |s|
    ensures Digits(s[b..b], hex) == []
  {
    assert s[b..b] == "";
  }

  lemma SliceOfPrefix(s: string, i: nat, b: nat, m: nat)
    requires b <= m <= i <= |s|
    ensures s[..i][b..m] == s[b..m]
  {}

  /** A prefix that reaches into the mantissa begins the same way. */
  lemma PrefixStarts(s: string, i: nat)
    requires MantissaStart(s) < i <= |s|
    ensures var p := s[..i];
      && SignLen(p) == SignLen(s) && HexAt(p, SignLen(p)) == HexAt(s, SignLen(s))
      && MantissaStart(p) == MantissaStart(s)
  {
    var p, a := s[..i], SignLen(s);
    assert p[0] == s[0] && p[a] == s[a];
    assert a + 1 < |p| ==> p[a + 1] == s[a + 1];
  }

  lemma ScanInside(s: string)
    ensures Scan(s).i <= |s|
    ensures Scan(s).ok ==> MantissaStart(s) < MantissaStop(s) <= Scan(s).i
  {
    hide ExponentAt, UnderscoresFit, LosesDigits, Kept, Significant, Val, FracCount, Digits;
    EmptySlice(s, MantissaStart(s), HexAt(s, SignLen(s)));
  }

  /** Scanning again only what was consumed gives the same results: what follows the literal has no say. */
  lemma ConsumedPrefixReadsAlike(s: string)
    requires Scan(s).ok
    ensures Scan(s).i <= |s| && Scan(s[..Scan(s).i]) == Scan(s)
  {
    hide ExponentAt, UnderscoresFit, LosesDigits, Kept, Significant, Val, FracCount, Digits, MantissaStart, HexAt,
      SignLen, MantissaEnd;
    ScanInside(s);
    var hex, b, m := HexAt(s, SignLen(s)), MantissaStart(s), MantissaStop(s);
    var p := s[..Scan(s).i];
    PrefixStarts(s, Scan(s).i);
    MantissaEndPrefix(s, b, hex, false, p);
    SliceOfPrefix(s, Scan(s).i, b, m);
    ExponentPrefix(s, m, hex, p);
    assert p[..|p|] == p && p[0] == s[0];
  }

  /** An accepted text always begins with a literal: the part consumed. */
  lemma AcceptedPrefixIsLiteral(s: string)
    requires Scan(s).ok
    ensures IsLiteral(s[..Scan(s).i])
  {
    ConsumedPrefixReadsAlike(s);
    AcceptsExactlyLiterals(s[..Scan(s).i]);
  }

  /**
   * What is read before the scanner gives up: the mantissa and what it lost are those of the mantissa's text alone,
   * and there is no exponent, unless only underscores were out of place.
   */
  lemma RejectedReading(s: string)
    requires !Scan(s).ok && MantissaStart(s) < MantissaStop(s)
    ensures Scan(s).exp == 0 || !UnderscoresFit(s[..Scan(s).i])
    ensures var p := Scan(s[..MantissaStop(s)]);
      Scan(s).mantissa == p.mantissa && Scan(s).trunc == p.trunc && Scan(s).neg == p.neg && Scan(s).hex == p.hex
  {
    hide ExponentAt, UnderscoresFit, LosesDigits, Kept, Significant, Val, FracCount, Digits, MantissaStart, HexAt,
      SignLen, MantissaEnd;
    var hex, b, m := HexAt(s, SignLen(s)), MantissaStart(s), MantissaStop(s);
    var p := s[..m];
    PrefixStarts(s, m);
    MantissaEndPrefix(s, b, hex, false, p);
    SliceOfPrefix(s, m, b, m);
    assert p[0] == s[0];
  }

  /** Behind a mantissa, an exponent mark without digits is rejected, and reading stops behind the mark and its sign. */
  lemma BrokenExponent(s: string)
    requires MantissaStop(s) < |s| && Digits(s[MantissaStart(s)..MantissaStop(s)], HexAt(s, SignLen(s))) != []
    requires var c, m := s[MantissaStop(s)], MantissaStop(s);
      && (if HexAt(s, SignLen(s)) then c == 'p' || c == 'P' else c == 'e' || c == 'E')
      && var d := if m + 1 < |s| && (s[m + 1] == '+' || s[m + 1] == '-') then m + 2 else m + 1;
         d < |s| ==> !('0' <= s[d] <= '9')
    ensures !Scan(s).ok && Scan(s).exp == 0
    ensures var m := MantissaStop(s);
      Scan(s).i == if m + 1 < |s| && (s[m + 1] == '+' || s[m + 1] == '-') then m + 2 else m + 1
  {
    hide Digits, Significant, Val, Kept, LosesDigits, FracCount, UnderscoresFit, Accumulated, DigitRunEnd, MantissaEnd;
  }

  /** Without a digit, or without the exponent that a hexadecimal mantissa must have, reading stops at once. */
  lemma NothingBehindMantissa(s: string)
    requires s != ""
    ensures var hex, m := HexAt(s, SignLen(s)), MantissaStop(s);
      Digits(s[MantissaStart(s)..m], hex) == [] || (hex && (m == |s| || (s[m] != 'p' && s[m] != 'P'))) ==>
        !Scan(s).ok && Scan(s).exp == 0 && Scan(s).i == m
  {
    hide Digits, Significant, Val, Kept, LosesDigits, FracCount, UnderscoresFit, Accumulated, DigitRunEnd, MantissaEnd;
  }

  // ---------------------------------------------------------------- the longest literal, and what may follow it

  /** An exponent that stops inside a prefix stops at the same place when only the prefix is read. */
  lemma ExponentStopsAlike(s: string, m: nat, hex: bool, p: string)
    requires m < |p| <= |s| && p == s[..|p|]
    requires ExponentAt(s, m, hex).ok && ExponentAt(s, m, hex).i < |p|
    ensures ExponentAt(p, m, hex).i == ExponentAt(s, m, hex).i
  {
    hide Accumulated, DigitRunEnd;
    assert p[m] == s[m];
    if IsExpMark(s[m], hex) {
      var d, i := if IsSign(s[m + 1]) then m + 2 else m + 1, ExponentAt(s, m, hex).i;
      assert DigitRunEnd(s, d) == i;
      DigitRunSpan(s, d);
      DigitRunGrows(s, d);
      DigitRunStops(s, d);
      assert p[m + 1] == s[m + 1] && p[d] == s[d] && p[i] == s[i];
      forall k | d <= k < i ensures p[k] == '_' || IsDecimal(p[k]) { assert p[k] == s[k]; }
      RunSpanEnds(p, d, i);
    }
  }

  lemma {:induction false} DigitRunStops(s: string, d: nat)
    requires d <= |s|
    ensures var e := DigitRunEnd(s, d); e < |s| ==> s[e] != '_' && !IsDecimal(s[e])
    decreases |s| - d
  {
    if d < |s| && (s[d] == '_' || IsDecimal(s[d])) { DigitRunStops(s, d + 1); }
  }

  /** The part consumed is the longest literal that the text begins with. */
  lemma AcceptedPrefixIsLongest(s: string, j: nat)
    requires Scan(s).ok && Scan(s).i < j <= |s|
    ensures !IsLiteral(s[..j])
  {
    hide ExponentAt, UnderscoresFit, LosesDigits, Kept, Significant, Val, FracCount, Digits, MantissaStart, HexAt,
      SignLen, MantissaEnd, IsLiteral;
    ScanInside(s);
    var hex, b, m, p := HexAt(s, SignLen(s)), MantissaStart(s), MantissaStop(s), s[..j];
    PrefixStarts(s, j);
    MantissaEndPrefix(s, b, hex, false, p);
    ExponentStopsAlike(s, m, hex, p);
    AcceptsExactlyLiterals(p);
  }

  /** A character that cannot go on with a literal. */
  predicate Delimits(c: char) {
    !IsDigit(c, true) && c != '_' && c != '.' && c != 'p' && c != 'P' && c != 'x' && c != 'X'
  }

  lemma LiteralStarts(t: string, u: string)
    requires IsLiteral(t) && (u == "" || Delimits(u[0]))
    ensures var s := t + u;
      && SignLen(s) == SignLen(t) && HexAt(s, SignLen(s)) == HexAt(t, SignLen(t))
      && MantissaStart(s) == MantissaStart(t)
  {
    hide UnderscoresFit, ExponentText, MantissaText;
    var s, a := t + u, SignLen(t);
    AcceptsExactlyLiterals(t);
    ScanInside(t);
    assert s[0] == t[0] && s[a] == t[a];
    if a + 1 < |t| {
      assert s[a + 1] == t[a + 1];
      if |t| == a + 2 { TwoCharsAreNoHex(t); }
    } else if u != "" {
      assert s[a + 1] == u[0];
    }
  }

  /** Behind the sign, `0x` alone is no literal. */
  lemma TwoCharsAreNoHex(t: string)
    requires IsLiteral(t) && |t| == SignLen(t) + 2
    ensures t[SignLen(t) + 1] != 'x' && t[SignLen(t) + 1] != 'X'
  {
    hide UnderscoresFit;
    var a := SignLen(t);
    assert !HexAt(t, a);
    var m: nat :| DecimalLiteral(t, m);
    assert a + 1 < m ==> t[a..m][1] == t[a + 1];
  }

  lemma ExponentBehind(t: string, u: string, m: nat, hex: bool)
    requires m <= |t| && ExponentAt(t, m, hex).ok && ExponentAt(t, m, hex).i == |t| && (u == "" || Delimits(u[0]))
    ensures ExponentAt(t + u, m, hex) == ExponentAt(t, m, hex)
  {
    hide Accumulated, DigitRunEnd;
    var s := t + u;
    if m < |t| {
      assert s[m] == t[m];
      var d := if IsSign(t[m + 1]) then m + 2 else m + 1;
      assert s[m + 1] == t[m + 1] && s[d] == t[d];
      DigitRunSpan(t, d);
      forall k | d <= k < |t| ensures s[k] == '_' || IsDecimal(s[k]) { assert s[k] == t[k]; }
      RunSpanEnds(s, d, |t|);
      assert s[d..|t|] == t[d..|t|];
    } else if u != "" {
      assert s[m] == u[0];
    }
  }

  lemma MantissaBehind(t: string, u: string, b: nat, hex: bool)
    requires b <= |t| && (u == "" || Delimits(u[0]))
    requires var m := MantissaEnd(t, b, hex, false); m < |t| ==> IsExpMark(t[m], hex)
    ensures MantissaEnd(t + u, b, hex, false) == MantissaEnd(t, b, hex, false)
  {
    hide MantissaEnd;
    var s, m := t + u, MantissaEnd(t, b, hex, false);
    MantissaEndSpan(t, b, hex, false);
    assert forall k :: b <= k < m ==> s[k] == t[k];
    assert m < |t| ==> s[m] == t[m];
    assert m == |t| && u != "" ==> s[m] == u[0];
    MantissaSpanEnds(s, b, m, hex, false);
  }

  /** The mantissa and the exponent of a literal end where they do, whatever delimiter follows. */
  lemma LiteralStops(t: string, u: string)
    requires Scan(t).ok && Scan(t).i == |t| && (u == "" || Delimits(u[0]))
    ensures var s, b, m, hex := t + u, MantissaStart(t), MantissaStop(t), HexAt(t, SignLen(t));
      && MantissaEnd(s, b, hex, false) == m
      && ExponentAt(s, m, hex) == ExponentAt(t, m, hex)
  {
    hide UnderscoresFit, LosesDigits, Kept, Significant, Val, FracCount, Digits, MantissaStart, HexAt, SignLen,
      MantissaEnd, DigitRunEnd, Accumulated;
    MantissaBehind(t, u, MantissaStart(t), HexAt(t, SignLen(t)));
    ExponentBehind(t, u, MantissaStop(t), HexAt(t, SignLen(t)));
  }

  /** A literal is read to its end, with the same results, in front of any delimiter. */
  lemma LiteralThenDelimiter(t: string, u: string)
    requires IsLiteral(t) && (u == "" || Delimits(u[0]))
    ensures Scan(t + u) == Scan(t) && Scan(t).ok && Scan(t).i == |t|
  {
    hide ExponentAt, UnderscoresFit, LosesDigits, Kept, Significant, Val, FracCount, Digits, MantissaStart, HexAt,
      SignLen, MantissaEnd, IsLiteral;
    AcceptsExactlyLiterals(t);
    LiteralStarts(t, u);
    LiteralStops(t, u);
    var s, b, m := t + u, MantissaStart(t), MantissaStop(t);
    ScanInside(t);
    assert s[b..m] == t[b..m] && s[..|t|] == t == t[..|t|] && s[0] == t[0];
  }
}
