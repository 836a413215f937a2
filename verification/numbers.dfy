/** Ruby's conversions between numbers and decimal text, as the probes use
    them: `Integer#to_s`, `String#to_i`, `String#to_f` and `Float#round`.
    Values are exact: a decimal string denotes the rational number it
    spells, not the nearest binary double. */
module Numbers {

  predicate IsDigit(c: char) {
    '0' <= c <= '9'
  }

  predicate AllDigits(s: string) {
    forall i | 0 <= i < |s| :: IsDigit(s[i])
  }

  function DigitValue(c: char): (d: nat)
    requires IsDigit(c)
    ensures d < 10
  {
    c as int - '0' as int
  }

  function DigitChar(d: nat): (c: char)
    requires d < 10
    ensures IsDigit(c) && DigitValue(c) == d
  {
    ('0' as int + d) as char
  }

  function Pow10(n: nat): (p: nat)
    ensures p >= 1
  {
    if n == 0 then 1 else 10 * Pow10(n - 1)
  }

  /** The number a string of decimal digits spells; the empty string spells 0. */
  function DigitsValue(s: string): (v: nat)
    requires AllDigits(s)
    ensures v < Pow10(|s|)
    decreases |s|
  {
    if s == [] then 0
    else
      var p := DigitsValue(s[..|s| - 1]);
      assert p * 10 <= (Pow10(|s| - 1) - 1) * 10;
      p * 10 + DigitValue(s[|s| - 1])
  }

  /** Digits are positional: the value of `a + b` shifts `a` by the length of `b`. */
  lemma {:induction false} DigitsValueAppend(a: string, b: string)
    requires AllDigits(a) && AllDigits(b)
    ensures DigitsValue(a + b) == DigitsValue(a) * Pow10(|b|) + DigitsValue(b)
    decreases |b|
  {
    if b == [] {
      assert a + b == a;
    } else {
      var b' := b[..|b| - 1];
      assert (a + b)[..|a + b| - 1] == a + b';
      assert (a + b)[|a + b| - 1] == b[|b| - 1];
      DigitsValueAppend(a, b');
      ShiftDigit(DigitsValue(a), DigitsValue(b'), Pow10(|b'|), DigitValue(b[|b| - 1]));
    }
  }

  lemma ShiftDigit(x: int, y: int, p: int, d: int)
    ensures (x * p + y) * 10 + d == x * (10 * p) + (y * 10 + d)
  {
  }

  /** Length of the longest prefix of `s` made of digits. */
  function DigitRun(s: string): (k: nat)
    ensures k <= |s|
    ensures AllDigits(s[..k])
    ensures k < |s| ==> !IsDigit(s[k])
  {
    if s == [] || !IsDigit(s[0]) then 0
    else
      var k := 1 + DigitRun(s[1..]);
      assert s[..k] == [s[0]] + s[1..][..k - 1];
      k
  }

  /** A digit run ends where the digits end. */
  lemma {:induction false} DigitRunOf(a: string, b: string)
    requires AllDigits(a)
    requires b == [] || !IsDigit(b[0])
    ensures DigitRun(a + b) == |a|
    decreases |a|
  {
    if a == [] {
      assert a + b == b;
    } else {
      assert (a + b)[1..] == a[1..] + b;
      DigitRunOf(a[1..], b);
    }
  }

  // ---------------------------------------------------------------------
  // Integer#to_s
  // ---------------------------------------------------------------------

  /** Decimal text of a natural number, without leading zeros. */
  function ShowNat(n: nat): (s: string)
    ensures s != [] && AllDigits(s)
    ensures s[0] != '0' || s == "0"
    ensures DigitsValue(s) == n
  {
    if n < 10 then [DigitChar(n)]
    else
      var s := ShowNat(n / 10) + [DigitChar(n % 10)];
      assert s[..|s| - 1] == ShowNat(n / 10);
      s
  }

  /** Ruby's `Integer#to_s`. */
  function ShowInt(n: int): (s: string)
    ensures s != []
  {
    if n < 0 then "-" + ShowNat(-n) else ShowNat(n)
  }

  // ---------------------------------------------------------------------
  // String#to_i and String#to_f
  // ---------------------------------------------------------------------

  /** Splits an optional leading sign off the text of a number. */
  function Signed(s: string): (bool, string)
  {
    if |s| > 0 && s[0] == '-' then (true, s[1..])
    else if |s| > 0 && s[0] == '+' then (false, s[1..])
    else (false, s)
  }

  /** Ruby's `String#to_i`: an optional sign and the leading digits; 0 when
      there are none. */
  function ToI(s: string): int
  {
    var (neg, body) := Signed(s);
    var v: int := DigitsValue(body[..DigitRun(body)]);
    if neg then -v else v
  }

  /** `to_i` reads back what `to_s` writes. */
  lemma ToIShowInt(n: int)
    ensures ToI(ShowInt(n)) == n
  {
    var digits := ShowNat(if n < 0 then -n else n);
    DigitRunOf(digits, "");
    assert digits + "" == digits;
    assert digits[..|digits|] == digits;
    if n < 0 {
      assert ("-" + digits)[1..] == digits;
    }
  }

  /** The fraction a string of decimal digits spells after the decimal point. */
  function Fraction(f: string): (x: real)
    requires AllDigits(f)
    ensures 0.0 <= x < 1.0
  {
    var v := DigitsValue(f) as real;
    var p := Pow10(|f|) as real;
    BelowOne(v, p);
    v / p
  }

  lemma BelowOne(v: real, p: real)
    requires 0.0 <= v < p
    ensures 0.0 <= v / p < 1.0
  {
  }

  function UnsignedToF(s: string): (x: real)
    ensures x >= 0.0
  {
    var k := DigitRun(s);
    var whole := DigitsValue(s[..k]) as real;
    if k + 1 < |s| && s[k] == '.' && IsDigit(s[k + 1]) then
      var f := s[k + 1..];
      whole + Fraction(f[..DigitRun(f)])
    else whole
  }

  /** Ruby's `String#to_f`: an optional sign, leading digits, and a fraction
      when a point is followed by a digit; reading stops at anything else,
      a decimal comma included. */
  function ToF(s: string): real
  {
    var (neg, body) := Signed(s);
    var v := UnsignedToF(body);
    if neg then -v else v
  }

  /** Reading `whole` + separator + `frac` yields the fraction only when the
      separator is a point: `"83,7".to_f` is 83.0. */
  lemma ToFDecimal(whole: string, sep: char, frac: string)
    requires whole != [] && AllDigits(whole)
    requires frac != [] && AllDigits(frac)
    requires sep == '.' || sep == ','
    ensures ToF(whole + [sep] + frac)
         == DigitsValue(whole) as real + (if sep == '.' then Fraction(frac) else 0.0)
  {
    var s := whole + [sep] + frac;
    assert s[0] == whole[0];
    assert Signed(s) == (false, s);
    DigitRunOf(whole, [sep] + frac);
    assert s == whole + ([sep] + frac);
    assert s[..|whole|] == whole;
    assert s[|whole|] == sep;
    if sep == '.' {
      assert s[|whole| + 1..] == frac;
      DigitRunOf(frac, "");
      assert frac + "" == frac;
      assert frac[..|frac|] == frac;
    }
  }

  // ---------------------------------------------------------------------
  // Float#round
  // ---------------------------------------------------------------------

  /** Ruby's `Float#round` with no digits: the nearest integer, ties away
      from zero. */
  function RoundHalfAway(x: real): (r: int)
    ensures r as real - x <= 0.5 && x - r as real <= 0.5
    ensures r as real - x == 0.5 ==> x > 0.0
    ensures x - r as real == 0.5 ==> x < 0.0
  {
    if x >= 0.0 then (x + 0.5).Floor else -((-x + 0.5).Floor)
  }

  /** The first fractional digit decides whether a fraction reaches one half. */
  lemma {:induction false} FractionHalf(frac: string)
    requires frac != [] && AllDigits(frac)
    ensures Fraction(frac) >= 0.5 <==> DigitValue(frac[0]) >= 5
  {
    var d := DigitValue(frac[0]);
    var rest := frac[1..];
    assert frac == [frac[0]] + rest;
    assert DigitsValue([frac[0]]) == d by {
      assert [frac[0]][..0] == [];
    }
    DigitsValueAppend([frac[0]], rest);
    var p' := Pow10(|rest|);
    assert Pow10(|frac|) == 10 * p';
    LeadingDigitHalf(d, p', DigitsValue(rest));
    HalfOf(DigitsValue(frac) as real, Pow10(|frac|) as real);
  }

  lemma LeadingDigitHalf(d: nat, p': nat, r: nat)
    requires d < 10 && r < p'
    ensures 2 * (d * p' + r) >= 10 * p' <==> d >= 5
  {
    if d >= 5 {
      assert d * p' >= 5 * p';
    } else {
      assert d * p' <= 4 * p';
    }
  }

  lemma HalfOf(v: real, p: real)
    requires p > 0.0
    ensures v / p >= 0.5 <==> 2.0 * v >= p
  {
    assert (v / p) * p == v;
  }

  /** A whole number plus a fraction rounds up exactly when the fraction is
      at least one half. */
  lemma RoundWithFraction(w: nat, y: real)
    requires 0.0 <= y < 1.0
    ensures RoundHalfAway(w as real + y) == w + (if y >= 0.5 then 1 else 0)
  {
  }

  /** A non-negative decimal rounds up exactly when its first fractional
      digit is 5 or more. */
  lemma RoundDecimal(whole: string, frac: string)
    requires AllDigits(whole)
    requires frac != [] && AllDigits(frac)
    ensures RoundHalfAway(DigitsValue(whole) as real + Fraction(frac))
         == DigitsValue(whole) + (if DigitValue(frac[0]) >= 5 then 1 else 0)
  {
    FractionHalf(frac);
    RoundWithFraction(DigitsValue(whole), Fraction(frac));
  }

  // ---------------------------------------------------------------------
  // Float#to_s
  // ---------------------------------------------------------------------

  /** `f` without its trailing zeros. */
  function StripZeros(f: string): (r: string)
    requires AllDigits(f)
    ensures AllDigits(r) && |r| <= |f|
    ensures r == [] || r[|r| - 1] != '0'
    decreases |f|
  {
    if f != [] && f[|f| - 1] == '0' then StripZeros(f[..|f| - 1]) else f
  }

  /** The digits Ruby prints after the point: the fraction without trailing
      zeros, or a single `0` when nothing is left. */
  function FractionText(f: string): (r: string)
    requires AllDigits(f)
    ensures r != [] && AllDigits(r)
  {
    var r := StripZeros(f);
    if r == [] then "0" else r
  }

  /** Ruby's `Float#to_s` for the non-negative number `w.f` in fixed-point
      notation: the whole part without leading zeros, a point, and the
      fraction without trailing zeros but with at least one digit. */
  function ShowDecimal(w: nat, f: string): string
    requires AllDigits(f)
  {
    ShowNat(w) + "." + FractionText(f)
  }

  /** Trailing zeros do not change a fraction. */
  lemma FractionTrailingZero(f: string)
    requires AllDigits(f)
    ensures AllDigits(f + "0") && Fraction(f + "0") == Fraction(f)
  {
    var g := f + "0";
    assert g[..|g| - 1] == f;
    var v, p := DigitsValue(f) as real, Pow10(|f|) as real;
    assert DigitsValue(g) as real == 10.0 * v;
    assert Pow10(|g|) as real == 10.0 * p;
    ScaleFraction(v, p);
  }

  lemma ScaleFraction(v: real, p: real)
    requires p > 0.0
    ensures (10.0 * v) / (10.0 * p) == v / p
  {
  }

  lemma {:induction false} StripZerosFraction(f: string)
    requires AllDigits(f)
    ensures Fraction(StripZeros(f)) == Fraction(f)
    decreases |f|
  {
    if f != [] && f[|f| - 1] == '0' {
      var init := f[..|f| - 1];
      StripZerosFraction(init);
      assert f == init + "0";
      FractionTrailingZero(init);
    }
  }

  /** `to_f` reads back what `to_s` writes: the printed decimal denotes the
      same number. */
  lemma ToFShowDecimal(w: nat, f: string)
    requires AllDigits(f)
    ensures ToF(ShowDecimal(w, f)) == w as real + Fraction(f)
  {
    var r := FractionText(f);
    ToFDecimal(ShowNat(w), '.', r);
    assert ShowDecimal(w, f) == ShowNat(w) + ['.'] + r;
    StripZerosFraction(f);
    if StripZeros(f) == [] {
      assert Fraction("0") == 0.0 by {
        assert "0"[..0] == [];
      }
    }
  }

  /** The printed decimal is digits around one point. */
  lemma ShowDecimalShape(w: nat, f: string)
    requires AllDigits(f)
    ensures var s := ShowDecimal(w, f);
      forall i | 0 <= i < |s| :: IsDigit(s[i]) || s[i] == '.'
  {
  }

  /** The same with an optional minus sign in front. */
  lemma ToFSignedDecimal(negative: bool, w: nat, f: string)
    requires AllDigits(f)
    ensures var v := w as real + Fraction(f);
      ToF((if negative then "-" else "") + ShowDecimal(w, f)) == if negative then -v else v
  {
    var d := ShowDecimal(w, f);
    ToFShowDecimal(w, f);
    assert d[0] == ShowNat(w)[0];
    assert Signed(d) == (false, d);
    if negative {
      assert ("-" + d)[1..] == d;
    } else {
      assert "" + d == d;
    }
  }
}
