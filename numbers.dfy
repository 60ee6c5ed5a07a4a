/** Decimal numbers as `float(...)` reads them from a `value` attribute, in the
    decimal subset the model covers: an optional sign, digits, and at most one
    decimal point with at least one digit around it ("72", "-3", "12.5", ".5", "5."). */
module Numbers {
  import opened Wrappers
  import opened Digits

  /** The number mantissa / 10^scale. */
  datatype Decimal = Decimal(mantissa: int, scale: nat)

  /** The one representation of each number: no trailing zero in the
      mantissa unless the scale is already 0. */
  predicate Canonical(d: Decimal) {
    d.scale == 0 || d.mantissa % 10 != 0
  }

  /** a and b denote the same number. */
  predicate SameValue(a: Decimal, b: Decimal) {
    a.mantissa * Pow10(b.scale) == b.mantissa * Pow10(a.scale)
  }

  /** Strips trailing zeros from the mantissa while there is scale left. */
  function Normalize(d: Decimal): (r: Decimal)
    ensures Canonical(r)
    ensures (r.mantissa < 0) == (d.mantissa < 0)
    decreases d.scale
  {
    if d.scale > 0 && d.mantissa % 10 == 0 then Normalize(Decimal(d.mantissa / 10, d.scale - 1))
    else d
  }

  /** Normalizing keeps the number a decimal denotes. */
  lemma {:induction false} NormalizeSameValue(d: Decimal)
    ensures SameValue(Normalize(d), d)
    decreases d.scale
  {
    if d.scale > 0 && d.mantissa % 10 == 0 {
      var r := Normalize(Decimal(d.mantissa / 10, d.scale - 1));
      NormalizeSameValue(Decimal(d.mantissa / 10, d.scale - 1));
      NormalizeStep(d.mantissa, d.scale, r.mantissa, r.scale);
    }
  }

  /** Dropping a trailing zero and one place of scale keeps the value. */
  lemma NormalizeStep(m: int, scale: nat, rm: int, rs: nat)
    requires scale > 0 && m % 10 == 0
    requires rm * Pow10(scale - 1) == (m / 10) * Pow10(rs)
    ensures rm * Pow10(scale) == m * Pow10(rs)
  {
    var p, q, h := Pow10(scale - 1), Pow10(rs), m / 10;
    assert Pow10(scale) == 10 * p;
    assert m == 10 * h;
    assert rm * (10 * p) == 10 * (rm * p);
    assert (10 * h) * q == 10 * (h * q);
  }

  lemma {:induction false} Pow10Add(a: nat, b: nat)
    ensures Pow10(a + b) == Pow10(a) * Pow10(b)
    decreases b
  {
    if b > 0 {
      Pow10Add(a, b - 1);
      assert Pow10(a + b) == 10 * Pow10(a + b - 1);
    }
  }

  /** Canonical decimals are equal exactly when they denote the same number,
      so comparing cells by structure compares numbers by value (as `1.0 ==
      1.00` does for Python floats). */
  lemma CanonicalUnique(a: Decimal, b: Decimal)
    requires Canonical(a) && Canonical(b) && SameValue(a, b)
    ensures a == b
  {
    if a.scale < b.scale {
      FinerScaleHasTrailingZero(a, b);
      assert false;
    } else if b.scale < a.scale {
      FinerScaleHasTrailingZero(b, a);
      assert false;
    } else {
      assert a.mantissa * Pow10(a.scale) == b.mantissa * Pow10(a.scale);
    }
  }

  /** Of two representations of one number, the one with the larger scale
      ends in a zero. */
  lemma FinerScaleHasTrailingZero(a: Decimal, b: Decimal)
    requires SameValue(a, b) && a.scale < b.scale
    ensures b.mantissa % 10 == 0
  {
    var k := b.scale - a.scale;
    Pow10Add(a.scale, k);
    Shift(a.mantissa, b.mantissa, Pow10(a.scale), Pow10(k));
    assert Pow10(k) == 10 * Pow10(k - 1);
    TimesTen(a.mantissa, Pow10(k - 1));
  }

  lemma Shift(x: int, y: int, p: int, q: int)
    requires p > 0 && x * (p * q) == y * p
    ensures y == x * q
  {
    assert x * (p * q) == (x * q) * p;
    MulCancel(x * q, y, p);
  }

  lemma TimesTen(x: int, r: int)
    ensures (x * (10 * r)) % 10 == 0
  {
    assert x * (10 * r) == 10 * (x * r);
  }

  lemma MulCancel(x: int, y: int, c: int)
    requires c > 0 && x * c == y * c
    ensures x == y
  {
  }

  predicate DigitsOnly(s: string) {
    forall i :: 0 <= i < |s| ==> IsDigit(s[i])
  }

  /** Index of the first occurrence of c in s. */
  function IndexOf(s: string, c: char): (r: Option<nat>)
    ensures r.None? <==> c !in s
    ensures r.Some? ==> r.value < |s| && s[r.value] == c && c !in s[..r.value]
  {
    if s == [] then None
    else if s[0] == c then Some(0)
    else match IndexOf(s[1..], c)
      case None => None
      case Some(k) =>
        assert s[..k + 1] == [s[0]] + s[1..][..k];
        Some(k + 1)
  }

  /** The number whole.frac, e.g. ("12", "50") is 12.5. */
  function FromParts(whole: string, frac: string): (d: Decimal)
    requires DigitsOnly(whole) && DigitsOnly(frac)
    ensures Canonical(d) && d.mantissa >= 0
  {
    assert DigitsOnly(whole + frac) by {
      assert forall i :: 0 <= i < |whole| ==> (whole + frac)[i] == whole[i];
      assert forall i :: |whole| <= i < |whole + frac| ==> (whole + frac)[i] == frac[i - |whole|];
    }
    Normalize(Decimal(Value(whole + frac), |frac|))
  }

  /** An unsigned decimal: digits, optionally one '.', at least one digit. */
  function ParseUnsigned(body: string): (r: Option<Decimal>)
    ensures r.Some? ==> Canonical(r.value) && r.value.mantissa >= 0
  {
    match IndexOf(body, '.')
    case None =>
      if AllDigits(body) then Some(Decimal(Value(body), 0)) else None
    case Some(k) =>
      var whole, frac := body[..k], body[k + 1..];
      if DigitsOnly(whole) && DigitsOnly(frac) && |whole| + |frac| > 0 then
        Some(FromParts(whole, frac))
      else None
  }

  /** Whether s starts with a sign, `-` or `+`. */
  predicate Signed(s: string) {
    |s| > 0 && (s[0] == '-' || s[0] == '+')
  }

  /** `float(s)` on the modelled subset: None where Python raises ValueError. */
  function ParseDecimal(s: string): (r: Option<Decimal>)
    ensures r.Some? ==> Canonical(r.value)
  {
    var body := if Signed(s) then s[1..] else s;
    match ParseUnsigned(body)
    case None => None
    case Some(d) => if s[0] == '-' then Some(Decimal(-d.mantissa, d.scale)) else Some(d)
  }

  /** A canonical decimal written out: "-" for negatives, then the digits with
      the point `scale` places from the right and a leading "0" when needed. */
  function Render(d: Decimal): string
    requires Canonical(d)
  {
    WithSign(d.mantissa < 0, RenderUnsigned(Magnitude(d), d.scale))
  }

  function WithSign(negative: bool, digits: string): string
  {
    if negative then "-" + digits else digits
  }

  function RenderUnsigned(m: nat, scale: nat): (s: string)
    ensures |s| > 0 && IsDigit(s[0])
  {
    if scale == 0 then NatToString(m)
    else
      PointAt(Padded(m, scale), scale)
  }

  function PointAt(digits: string, scale: nat): string
    requires scale < |digits|
  {
    digits[..|digits| - scale] + "." + digits[|digits| - scale..]
  }

  /** The digits of m, zero padded on the left to more than `scale` digits
      so that a digit stands before the point. */
  function Padded(m: nat, scale: nat): (padded: string)
    ensures |padded| > scale && DigitsOnly(padded) && Value(padded) == m
  {
    var digits := NatToString(m);
    ValueOfNatToString(m);
    if |digits| <= scale then
      ValueLeadingZeros(scale + 1 - |digits|, digits);
      Zeros(scale + 1 - |digits|) + digits
    else digits
  }

  /** Reading a written decimal gives the same decimal back. */
  lemma RenderParse(d: Decimal)
    requires Canonical(d)
    ensures ParseDecimal(Render(d)) == Some(d)
  {
    var magnitude := Magnitude(d);
    RenderParseUnsigned(magnitude, d.scale);
    SignedRoundTrip(d, RenderUnsigned(magnitude, d.scale));
  }

  /** The digits of a canonical decimal without its sign, still canonical. */
  function Magnitude(d: Decimal): (m: nat)
    requires Canonical(d)
    ensures d.scale == 0 || m % 10 != 0
    ensures m == d.mantissa || m == -d.mantissa
  {
    if d.mantissa < 0 then
      if d.scale > 0 then NegMod10(d.mantissa); -d.mantissa
      else -d.mantissa
    else d.mantissa
  }

  lemma SignedRoundTrip(d: Decimal, u: string)
    requires Canonical(d)
    requires ParseUnsigned(u) == Some(Decimal(Magnitude(d), d.scale)) && |u| > 0 && IsDigit(u[0])
    ensures ParseDecimal(WithSign(d.mantissa < 0, u)) == Some(d)
  {
    ParseWithSign(d.mantissa < 0, u, Decimal(Magnitude(d), d.scale));
  }

  /** A sign before unsigned decimal text negates the number or leaves it be. */
  lemma ParseWithSign(negative: bool, u: string, r: Decimal)
    requires ParseUnsigned(u) == Some(r) && |u| > 0 && IsDigit(u[0])
    ensures ParseDecimal(WithSign(negative, u)) == Some(if negative then Decimal(-r.mantissa, r.scale) else r)
  {
    if negative {
      ParseNegated(u, r);
    } else {
      ParseUnsignedText(u);
    }
  }

  /** Text that starts with a digit has no sign for `float` to read. */
  lemma ParseUnsignedText(u: string)
    requires |u| > 0 && IsDigit(u[0])
    ensures ParseDecimal(u) == ParseUnsigned(u)
  {
  }

  /** A leading '-' negates the number the rest denotes. */
  lemma ParseNegated(u: string, r: Decimal)
    requires ParseUnsigned(u) == Some(r)
    ensures ParseDecimal("-" + u) == Some(Decimal(-r.mantissa, r.scale))
  {
    assert ("-" + u)[1..] == u;
  }

  lemma NegMod10(x: int)
    requires x % 10 != 0
    ensures (-x) % 10 != 0
  {
    var q, r := x / 10, x % 10;
    assert -x == 10 * (-q - 1) + (10 - r);
  }

  lemma RenderParseUnsigned(m: nat, scale: nat)
    requires scale == 0 || m % 10 != 0
    ensures ParseUnsigned(RenderUnsigned(m, scale)) == Some(Decimal(m, scale))
  {
    if scale == 0 {
      RenderParseWhole(m);
    } else {
      RenderParseScaled(m, scale);
    }
  }

  lemma RenderParseScaled(m: nat, scale: nat)
    requires scale > 0 && m % 10 != 0
    ensures ParseUnsigned(RenderUnsigned(m, scale)) == Some(Decimal(m, scale))
  {
    RenderParseFraction(Padded(m, scale), scale, m);
  }

  lemma RenderParseWhole(m: nat)
    ensures ParseUnsigned(RenderUnsigned(m, 0)) == Some(Decimal(m, 0))
  {
    ValueOfNatToString(m);
    NoDotInDigits(NatToString(m));
  }

  lemma NoDotInDigits(s: string)
    requires DigitsOnly(s)
    ensures IndexOf(s, '.') == None
  {
    assert forall i :: 0 <= i < |s| ==> s[i] != '.';
  }

  lemma {:induction false} DotAfterDigits(whole: string, rest: string)
    requires DigitsOnly(whole)
    ensures IndexOf(whole + "." + rest, '.') == Some(|whole|)
    decreases |whole|
  {
    if whole != [] {
      assert (whole + "." + rest)[1..] == whole[1..] + "." + rest;
      DotAfterDigits(whole[1..], rest);
    }
  }

  lemma RenderParseFraction(padded: string, scale: nat, m: nat)
    requires 0 < scale < |padded| && DigitsOnly(padded) && Value(padded) == m && m % 10 != 0
    ensures ParseUnsigned(PointAt(padded, scale)) == Some(Decimal(m, scale))
  {
    var whole, frac := padded[..|padded| - scale], padded[|padded| - scale..];
    SplitValue(padded, scale, m);
    ParseDotted(whole, frac);
  }

  /** Splitting a digit string `scale` places from the right denotes m / 10^scale. */
  lemma SplitValue(padded: string, scale: nat, m: nat)
    requires 0 < scale < |padded| && DigitsOnly(padded) && Value(padded) == m && m % 10 != 0
    ensures DigitsOnly(padded[..|padded| - scale]) && DigitsOnly(padded[|padded| - scale..])
    ensures FromParts(padded[..|padded| - scale], padded[|padded| - scale..]) == Decimal(m, scale)
  {
    var whole, frac := padded[..|padded| - scale], padded[|padded| - scale..];
    assert whole + frac == padded;
    assert Normalize(Decimal(m, scale)) == Decimal(m, scale);
  }

  /** Digits, a point and digits parse as the number they spell. */
  lemma ParseDotted(whole: string, frac: string)
    requires DigitsOnly(whole) && DigitsOnly(frac) && |frac| > 0
    ensures ParseUnsigned(whole + "." + frac) == Some(FromParts(whole, frac))
  {
    var body := whole + "." + frac;
    DotAfterDigits(whole, frac);
    assert body[..|whole|] == whole;
    assert body[|whole| + 1..] == frac;
  }

  /** `s.replace('.', '', 1)`: s without its first '.'. */
  function RemoveFirstDot(s: string): (r: string)
    ensures '.' in s ==> |r| == |s| - 1
    ensures '.' !in s ==> r == s
    ensures '.' in s ==> exists k :: 0 <= k < |s| && s[k] == '.' && '.' !in s[..k] && r == s[..k] + s[k + 1..]
  {
    match IndexOf(s, '.')
    case None => s
    case Some(k) => s[..k] + s[k + 1..]
  }

  /** The first variant's test `value.replace('.', '', 1).isdigit()`. */
  predicate LegacyNumeric(s: string) {
    AllDigits(RemoveFirstDot(s))
  }

  /** Whatever passes the first variant's test, `float` accepts: the
      `except ValueError` branch after that test is never taken. */
  lemma LegacyNumericParses(s: string)
    requires LegacyNumeric(s)
    ensures ParseDecimal(s).Some?
  {
    var r := RemoveFirstDot(s);
    match IndexOf(s, '.')
    case None =>
      assert r == s;
      assert s[0] != '-' && s[0] != '+' by { assert IsDigit(r[0]); }
    case Some(k) =>
      var whole, frac := s[..k], s[k + 1..];
      assert r == whole + frac;
      assert DigitsOnly(whole) by { assert forall i :: 0 <= i < |whole| ==> whole[i] == r[i]; }
      assert DigitsOnly(frac) by { assert forall i :: 0 <= i < |frac| ==> frac[i] == r[|whole| + i]; }
      assert s[0] != '-' && s[0] != '+' by {
        if k > 0 { assert s[0] == r[0]; }
      }
  }

  /** The first variant's test keeps "12.5" and ".5" numeric. */
  lemma LegacyNumericAccepts()
    ensures LegacyNumeric("12.5") && LegacyNumeric(".5")
  {
    DottedNumeric("12", "5");
    assert "12" + "." + "5" == "12.5";
    DottedNumeric("", "5");
    assert "" + "." + "5" == ".5";
  }

  /** Digits, a point and digits pass the first variant's test. */
  lemma DottedNumeric(whole: string, frac: string)
    requires DigitsOnly(whole) && DigitsOnly(frac) && |whole + frac| > 0
    ensures LegacyNumeric(whole + "." + frac)
  {
    DotAfterDigits(whole, frac);
    var s := whole + "." + frac;
    assert s[..|whole|] == whole && s[|whole| + 1..] == frac;
    assert AllDigits(whole + frac) by {
      assert forall i :: 0 <= i < |whole| ==> (whole + frac)[i] == whole[i];
      assert forall i :: |whole| <= i < |whole + frac| ==> (whole + frac)[i] == frac[i - |whole|];
    }
  }

  /** It leaves "-5", "1e3", "1.2.3" and "" as text, although `float` reads
      "-5" as a number. */
  lemma LegacyNumericRejects()
    ensures !LegacyNumeric("-5") && !LegacyNumeric("1e3") && !LegacyNumeric("1.2.3") && !LegacyNumeric("")
    ensures ParseDecimal("-5") == Some(Decimal(-5, 0))
  {
    NoDotNotNumeric("-5", 0);
    NoDotNotNumeric("1e3", 1);
    SecondDotNotNumeric();
    ParseMinusFive();
  }

  /** Without a point, any character other than a digit makes the test fail. */
  lemma NoDotNotNumeric(s: string, i: nat)
    requires '.' !in s && i < |s| && !IsDigit(s[i])
    ensures !LegacyNumeric(s)
  {
  }

  lemma SecondDotNotNumeric()
    ensures !LegacyNumeric("1.2.3")
  {
    assert IndexOf("1.2.3", '.') == Some(1) by {
      assert "1.2.3" == "1" + "." + "2.3";
      DotAfterDigits("1", "2.3");
    }
    assert RemoveFirstDot("1.2.3") == "12.3";
    assert !IsDigit("12.3"[2]);
  }

  lemma ParseMinusFive()
    ensures ParseDecimal("-5") == Some(Decimal(-5, 0))
  {
    assert ParseUnsigned("5") == Some(Decimal(5, 0)) by {
      NoDotInDigits("5");
      assert Value("5") == 10 * Value("") + DigitValue('5');
    }
    assert "-5"[1..] == "5";
  }
}
