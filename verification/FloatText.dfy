/**
 * The text of a floating-point literal: character classes, the grammar, and what a literal means.
 * Everything here is declarative; the loops of util/atof/atof.go are in module Atof.
 */
module FloatText {
  import opened Numerals

  const TWO_TO_THE_64: nat := 0x1_0000_0000_0000_0000

  predicate IsDecimal(c: char) { '0' <= c <= '9' }

  predicate IsHexLetter(c: char) { 'a' <= c <= 'f' || 'A' <= c <= 'F' }

  predicate IsDigit(c: char, hex: bool) { IsDecimal(c) || (hex && IsHexLetter(c)) }

  function DigitOf(c: char): nat
    requires IsDigit(c, true)
  {
    if IsDecimal(c) then c as int - '0' as int
    else if c >= 'a' then c as int - 'a' as int + 10
    else c as int - 'A' as int + 10
  }

  /** How many mantissa digits are kept: 10^19 and 16^16 both fit 64 bits. */
  function MaxKept(hex: bool): nat { if hex then 16 else 19 }

  predicate IsExpMark(c: char, hex: bool) {
    if hex then c == 'p' || c == 'P' else c == 'e' || c == 'E'
  }

  predicate IsSign(c: char) { c == '+' || c == '-' }

  function SignLen(s: string): nat { if |s| > 0 && IsSign(s[0]) then 1 else 0 }

  /** A hex prefix counts only with at least one character after it. */
  predicate HexAt(s: string, a: nat) {
    a + 2 < |s| && s[a] == '0' && (s[a + 1] == 'x' || s[a + 1] == 'X')
  }

  // ---------------------------------------------------------------- underscores

  predicate HasBasePrefix(t: string) {
    HasHexPrefix(t) || (|t| >= 2 && t[0] == '0' && (t[1] == 'b' || t[1] == 'B' || t[1] == 'o' || t[1] == 'O'))
  }

  predicate HasHexPrefix(t: string) { |t| >= 2 && t[0] == '0' && (t[1] == 'x' || t[1] == 'X') }

  predicate FollowsDigit(t: string, k: nat)
    requires k <= |t|
  {
    (k > 0 && IsDigit(t[k - 1], HasHexPrefix(t))) || (k == 2 && HasBasePrefix(t))
  }

  predicate PrecedesDigit(t: string, k: nat) {
    k + 1 < |t| && IsDigit(t[k + 1], HasHexPrefix(t))
  }

  /** Every underscore of an unsigned text follows a digit or the base prefix and precedes a digit. */
  predicate SeparatesDigits(t: string) {
    forall k {:trigger FollowsDigit(t, k)} :: 0 <= k < |t| && t[k] == '_' ==> FollowsDigit(t, k) && PrecedesDigit(t, k)
  }

  predicate UnderscoresFit(s: string) { SeparatesDigits(s[SignLen(s)..]) }

  // ---------------------------------------------------------------- the grammar

  /** Digits with optional underscores and at most one dot; at least one digit. */
  predicate MantissaText(t: string, hex: bool) {
    && (forall k :: 0 <= k < |t| ==> t[k] == '_' || t[k] == '.' || IsDigit(t[k], hex))
    && (forall j, k :: 0 <= j < k < |t| && t[j] == '.' ==> t[k] != '.')
    && (exists k :: 0 <= k < |t| && IsDigit(t[k], hex))
  }

  /** The exponent mark, an optional sign, a digit, then digits and underscores. */
  predicate ExponentText(t: string, hex: bool) {
    && |t| > 0 && IsExpMark(t[0], hex)
    && |t| > 1
    && var d := if IsSign(t[1]) then 2 else 1;
    && d < |t| && IsDecimal(t[d])
    && forall k :: d <= k < |t| ==> t[k] == '_' || IsDecimal(t[k])
  }

  predicate DecimalLiteral(s: string, m: nat) {
    && SignLen(s) <= m <= |s|
    && MantissaText(s[SignLen(s)..m], false)
    && (m == |s| || ExponentText(s[m..], false))
  }

  predicate HexLiteral(s: string, m: nat) {
    && HexAt(s, SignLen(s)) && SignLen(s) + 2 <= m <= |s|
    && MantissaText(s[SignLen(s) + 2..m], true)
    && ExponentText(s[m..], true)
  }

  /** An optional sign, then a decimal literal, or a hexadecimal one with its mandatory exponent. */
  ghost predicate IsLiteral(s: string) {
    && UnderscoresFit(s)
    && ((exists m :: DecimalLiteral(s, m)) || (exists m :: HexLiteral(s, m)))
  }

  // ---------------------------------------------------------------- reading digits

  /** The digits of a mantissa text, most significant first, dot and underscores dropped. */
  function Digits(t: string, hex: bool): seq<nat> {
    if t == "" then []
    else
      var init := Digits(t[..|t| - 1], hex);
      var c := t[|t| - 1];
      if IsDigit(c, hex) then init + [DigitOf(c)] else init
  }

  /** The digits from the first nonzero one on. */
  function Significant(ds: seq<nat>): seq<nat> {
    if ds == [] then []
    else
      var init := Significant(ds[..|ds| - 1]);
      var d := ds[|ds| - 1];
      if init == [] && d == 0 then [] else init + [d]
  }

  /** The number of digits after the first dot. */
  function FracCount(t: string, hex: bool): nat {
    if t == "" then 0
    else
      var init := t[..|t| - 1];
      FracCount(init, hex) + (if '.' in init && IsDigit(t[|t| - 1], hex) then 1 else 0)
  }

  /** Where a mantissa beginning at `i` stops; `dot` says that a dot was passed already. */
  function MantissaEnd(s: string, i: nat, hex: bool, dot: bool): (m: nat)
    requires i <= |s|
    ensures i <= m <= |s|
    decreases |s| - i
  {
    if i == |s| then i
    else if s[i] == '_' || IsDigit(s[i], hex) then MantissaEnd(s, i + 1, hex, dot)
    else if s[i] == '.' && !dot then MantissaEnd(s, i + 1, hex, true)
    else i
  }

  /** Where a run of decimal digits and underscores beginning at `i` stops. */
  function DigitRunEnd(s: string, i: nat): (m: nat)
    requires i <= |s|
    ensures i <= m <= |s|
    decreases |s| - i
  {
    if i < |s| && (s[i] == '_' || IsDecimal(s[i])) then DigitRunEnd(s, i + 1) else i
  }

  /** The exponent accumulator: it stops taking digits once it has reached 10000. */
  function Accumulated(t: string): nat {
    if t == "" then 0
    else
      var e := Accumulated(t[..|t| - 1]);
      var c := t[|t| - 1];
      if IsDecimal(c) && e < 10000 then e * 10 + DigitOf(c) else e
  }

  // ---------------------------------------------------------------- one reading of a text

  datatype Reading = Reading(mantissa: nat, exp: int, neg: bool, trunc: bool, hex: bool, i: nat, ok: bool)

  datatype Exponent = Exponent(i: nat, ok: bool, e: int)

  /** The exponent part at `m`: where reading stops, whether it may stop there, and the exponent read. */
  function ExponentAt(s: string, m: nat, hex: bool): (x: Exponent)
    requires m <= |s|
    ensures m <= x.i <= |s|
  {
    if m == |s| || !IsExpMark(s[m], hex) then Exponent(m, !hex, 0)
    else if m + 1 == |s| then Exponent(m + 1, false, 0)
    else
      var d := if IsSign(s[m + 1]) then m + 2 else m + 1;
      if d == |s| || !IsDecimal(s[d]) then Exponent(d, false, 0)
      else
        var end := DigitRunEnd(s, d);
        var e: int := Accumulated(s[d..end]);
        Exponent(end, true, if s[m + 1] == '-' then -e else e)
  }

  function MantissaStart(s: string): (b: nat)
    ensures b <= |s|
  {
    var a := SignLen(s);
    if HexAt(s, a) then a + 2 else a
  }

  function MantissaStop(s: string): (m: nat)
    ensures MantissaStart(s) <= m <= |s|
  {
    MantissaEnd(s, MantissaStart(s), HexAt(s, SignLen(s)), false)
  }

  function Kept(sig: seq<nat>, hex: bool): seq<nat> {
    if |sig| <= MaxKept(hex) then sig else sig[..MaxKept(hex)]
  }

  predicate LosesDigits(sig: seq<nat>, hex: bool) {
    exists k :: MaxKept(hex) <= k < |sig| && sig[k] != 0
  }

  /** The results for a text whose mantissa part is `text` and whose exponent part was read as `x`. */
  function Assemble(s: string, neg: bool, hex: bool, m: nat, text: string, x: Exponent): (r: Reading)
    requires m <= x.i <= |s|
  {
    var ds := Digits(text, hex);
    var sig := Significant(ds);
    var mantissa, trunc := Val(Kept(sig, hex), hex), LosesDigits(sig, hex);
    if ds == [] then Reading(mantissa, 0, neg, trunc, hex, m, false)
    else if !x.ok then Reading(mantissa, 0, neg, trunc, hex, x.i, false)
    else
      var point := |sig| - FracCount(text, hex) - |Kept(sig, hex)|;
      Reading(mantissa, if mantissa == 0 then 0 else Places(point, hex) + x.e, neg, trunc, hex, x.i,
              UnderscoresFit(s[..x.i]))
  }

  /** What reading `s` yields, field by field; the results of `readFloat` in one value. */
  function Scan(s: string): Reading {
    if s == "" then Reading(0, 0, false, false, false, 0, false)
    else
      var hex, b, m := HexAt(s, SignLen(s)), MantissaStart(s), MantissaStop(s);
      Assemble(s, s[0] == '-', hex, m, s[b..m], ExponentAt(s, m, hex))
  }
}
