/**
 * Positional numerals in base ten and base sixteen, and integer powers of ten and of two.
 * The base is always given by `hex`, so that every single step multiplies by a literal.
 */
module Numerals {

  function Shift(n: nat, hex: bool): nat { if hex then 16 * n else 10 * n }

  /** 16^n or 10^n. */
  function Pow(n: nat, hex: bool): nat {
    if n == 0 then 1 else Shift(Pow(n - 1, hex), hex)
  }

  /** The number written by the digits `ds`, most significant first. */
  function Val(ds: seq<nat>, hex: bool): nat {
    if ds == [] then 0 else Shift(Val(ds[..|ds| - 1], hex), hex) + ds[|ds| - 1]
  }

  ghost predicate DigitsBelow(ds: seq<nat>, hex: bool) {
    forall k :: 0 <= k < |ds| ==> ds[k] < (if hex then 16 else 10)
  }

  lemma ValSnoc(ds: seq<nat>, d: nat, hex: bool)
    ensures Val(ds + [d], hex) == Shift(Val(ds, hex), hex) + d
  {
    assert (ds + [d])[..|ds|] == ds;
  }

  lemma {:induction false} PowMonotone(m: nat, n: nat, hex: bool)
    requires m <= n
    ensures 0 < Pow(m, hex) <= Pow(n, hex)
    decreases n
  {
    if m < n {
      PowMonotone(m, n - 1, hex);
    } else if 0 < n {
      PowMonotone(n - 1, n - 1, hex);
    }
  }

  /** One more digit: the facts about products, kept away from the digit sequences. */
  lemma ConcatStep(x: nat, p: nat, y: nat, p': nat, v: nat, v': nat, d: nat, y': nat, hex: bool)
    requires v == x * p + y && p' == Shift(p, hex)
    requires v' == Shift(v, hex) + d && y' == Shift(y, hex) + d
    ensures v' == x * p' + y'
  {}

  lemma {:induction false} ValConcat(a: seq<nat>, c: seq<nat>, hex: bool)
    ensures Val(a + c, hex) == Val(a, hex) * Pow(|c|, hex) + Val(c, hex)
  {
    if c == [] {
      assert a + c == a;
    } else {
      var c' := c[..|c| - 1];
      assert (a + c)[..|a + c| - 1] == a + c';
      ValConcat(a, c', hex);
      hide Shift;
      ConcatStep(Val(a, hex), Pow(|c'|, hex), Val(c', hex), Pow(|c|, hex),
                 Val(a + c', hex), Val(a + c, hex), c[|c| - 1], Val(c, hex), hex);
    }
  }

  lemma {:induction false} ValBound(ds: seq<nat>, hex: bool)
    requires DigitsBelow(ds, hex)
    ensures Val(ds, hex) < Pow(|ds|, hex)
  {
    if ds != [] { ValBound(ds[..|ds| - 1], hex); }
  }

  lemma {:induction false} ValPositive(ds: seq<nat>, k: nat, hex: bool)
    requires k < |ds| && ds[k] > 0
    ensures Val(ds, hex) > 0
  {
    if k < |ds| - 1 { ValPositive(ds[..|ds| - 1], k, hex); }
  }

  lemma {:induction false} ValZero(ds: seq<nat>, hex: bool)
    requires forall k :: 0 <= k < |ds| ==> ds[k] == 0
    ensures Val(ds, hex) == 0
  {
    if ds != [] { ValZero(ds[..|ds| - 1], hex); }
  }

  // ---------------------------------------------------------------- powers of ten and of two

  /** 2^e for hexadecimal literals, 10^e for decimal ones; `e` may be negative. */
  ghost function Scale(e: int, hex: bool): real
    decreases if e < 0 then -e else e
  {
    if e == 0 then 1.0
    else if e > 0 then (if hex then 2.0 * Scale(e - 1, hex) else 10.0 * Scale(e - 1, hex))
    else (if hex then Scale(e + 1, hex) / 2.0 else Scale(e + 1, hex) / 10.0)
  }

  lemma {:induction false} ScalePositive(e: int, hex: bool)
    ensures Scale(e, hex) > 0.0
    decreases if e < 0 then -e else e
  {
    if e > 0 { ScalePositive(e - 1, hex); }
    else if e < 0 { ScalePositive(e + 1, hex); }
  }

  lemma ScaleSucc(e: int, hex: bool)
    ensures Scale(e + 1, hex) == if hex then 2.0 * Scale(e, hex) else 10.0 * Scale(e, hex)
  {}

  /** One digit position is worth four powers of two, or one power of ten. */
  function Places(n: int, hex: bool): int { if hex then 4 * n else n }

  lemma ScalePlace(e: int, hex: bool)
    ensures Scale(e + Places(1, hex), hex) == if hex then 16.0 * Scale(e, hex) else 10.0 * Scale(e, hex)
  {
    ScaleSucc(e, hex);
    if hex {
      ScaleSucc(e + 1, hex);
      ScaleSucc(e + 2, hex);
      ScaleSucc(e + 3, hex);
    }
  }

  ghost function Product(p: nat, s: real): real { p as real * s }

  lemma ShiftStep(p: nat, p': nat, s: real, t: real, t': real, hex: bool)
    requires p' == Shift(p, hex) && t == Product(p, s)
    requires t' == if hex then 16.0 * t else 10.0 * t
    ensures t' == Product(p', s)
  {
    if hex {
      assert p' as real == 16.0 * p as real;
    } else {
      assert p' as real == 10.0 * p as real;
    }
  }

  lemma ProductOne(s: real)
    ensures Product(1, s) == s
  {}

  /** Moving the point by `n` digit positions multiplies by 16^n or 10^n. */
  lemma {:induction false} ScaleShift(e: int, n: nat, hex: bool)
    ensures Scale(e + Places(n, hex), hex) == Product(Pow(n, hex), Scale(e, hex))
  {
    hide Shift, Product;
    if n == 0 {
      ProductOne(Scale(e, hex));
    } else {
      ScaleShift(e, n - 1, hex);
      var f := e + Places(n - 1, hex);
      ScalePlace(f, hex);
      assert f + Places(1, hex) == e + Places(n, hex);
      ShiftStep(Pow(n - 1, hex), Pow(n, hex), Scale(e, hex), Scale(f, hex), Scale(e + Places(n, hex), hex), hex);
    }
  }
}
