/**
 * Exact non-negative decimal numbers: the values that the connector's amounts
 * denote once binary floating point is set aside. A `Decimal` is mantissa / 10^scale.
 *
 * Also holds the plain literals `digits[.digits]` that `toFixed` writes, and the
 * half-up rescaling and fixed-point rendering behind it.
 */
module Decimals {
  import opened Outcomes
  import opened Digits

  datatype Decimal = Decimal(mantissa: nat, scale: nat) {

    function Value(): real {
      mantissa as real / Pow10(scale) as real
    }

    /** `Math.floor(r) === r`, on the exact value: 10^scale divides the mantissa. */
    predicate IsIntegral() {
      mantissa % Pow10(scale) == 0
    }

    /** `r * 10`, without changing the mantissa while there are fraction digits to absorb. */
    function Times10(): (r: Decimal)
      ensures r.Value() == 10.0 * Value()
    {
      if scale > 0 then
        assert Pow10(scale) == 10 * Pow10(scale - 1);
        Decimal(mantissa, scale - 1)
      else
        Decimal(10 * mantissa, 0)
    }
  }

  lemma PositiveValue(d: Decimal)
    requires d.mantissa > 0
    ensures d.Value() > 0.0
  {
    var m, p := d.mantissa as real, Pow10(d.scale) as real;
    assert m > 0.0 && p > 0.0;
    assert m / p * p == m;
  }

  lemma QuotientTimesDivisor(x: real, y: real)
    requires y > 0.0
    ensures x / y * y == x
  {
  }

  /** Cross-multiplication for quotients of naturals. */
  lemma QuotientsEqual(a: nat, b: nat, c: nat, d: nat)
    requires b > 0 && d > 0
    requires a * d == c * b
    ensures a as real / b as real == c as real / d as real
  {
    assert (a * d) as real == (a as real) * (d as real);
    assert (c * b) as real == (c as real) * (b as real);
  }

  /** The integrality test on the mantissa is exactly `Math.floor(r) === r` on the value. */
  lemma IntegralIsFloorFixed(d: Decimal)
    ensures d.IsIntegral() <==> d.Value().Floor as real == d.Value()
  {
    var p := Pow10(d.scale);
    var q := d.mantissa / p;
    assert d.mantissa == p * q + d.mantissa % p;
    if d.IsIntegral() {
      QuotientsEqual(d.mantissa, p, q, 1);
      assert d.Value() == q as real;
    } else {
      var f := d.Value().Floor;
      if f as real == d.Value() {
        assert d.mantissa as real == f as real * p as real;
        assert d.mantissa == f * p;
        MultipleMod(f, p);
        assert false;
      }
    }
  }

  /** The number of fraction digits that matter: the scale less the mantissa's trailing zeros. */
  function SignificantFractionDigits(d: Decimal): (k: nat)
    ensures k <= d.scale
  {
    if d.mantissa == 0 then 0
    else if TrailingZeros(d.mantissa) >= d.scale then 0
    else d.scale - TrailingZeros(d.mantissa)
  }

  /** Shifting c of the scale's places into the integer part gives an integer exactly when c covers the significant digits. */
  lemma IntegralAfterShift(d: Decimal, c: nat)
    requires c <= d.scale
    ensures Decimal(d.mantissa, d.scale - c).IsIntegral() <==> c >= SignificantFractionDigits(d)
  {
    var j := d.scale - c;
    assert Decimal(d.mantissa, j).IsIntegral() <==> d.mantissa % Pow10(j) == 0;
    if d.mantissa > 0 {
      DivisibleByPow10(d.mantissa, j);
    } else {
      MultipleMod(0, Pow10(j));
    }
  }

  function FirstIndexOf(s: string, c: char): (r: Option<nat>)
    ensures r.Some? ==> r.value < |s| && s[r.value] == c
    ensures r.Some? ==> forall i :: 0 <= i < r.value ==> s[i] != c
    ensures r.None? ==> forall i :: 0 <= i < |s| ==> s[i] != c
  {
    if s == [] then None
    else if s[0] == c then Some(0)
    else match FirstIndexOf(s[1..], c)
      case None => None
      case Some(i) => Some(i + 1)
  }

  /**
   * The plain unsigned decimal literals `ddd`, `ddd.ddd`, `.ddd` and `ddd.` (the form
   * `toFixed` writes), read exactly; `None` for any other string.
   */
  function ParseDecimal(s: string): (r: Option<Decimal>)
    ensures r.Some? ==> s != [] && (IsDigit(s[0]) || s[0] == '.')
    ensures r.Some? ==> forall i :: 0 <= i < |s| ==> IsDigit(s[i]) || s[i] == '.'
    ensures r.Some? ==> forall i, j :: 0 <= i < j < |s| && s[i] == '.' ==> s[j] != '.'
    ensures s != [] && IsDigits(s) ==> r == Some(Decimal(DigitsValue(s), 0))
  {
    match FirstIndexOf(s, '.')
    case None =>
      if s != [] && IsDigits(s) then Some(Decimal(DigitsValue(s), 0)) else None
    case Some(i) =>
      var whole, fraction := s[..i], s[i + 1..];
      if IsDigits(whole) && IsDigits(fraction) && |whole| + |fraction| > 0 then
        assert forall j :: i < j < |s| ==> s[j] == fraction[j - i - 1];
        Some(Decimal(DigitsValue(whole + fraction), |fraction|))
      else None
  }

  /** The digits of q, left-padded with zeros to more than `places` digits. */
  function PaddedDigits(q: nat, places: nat): (padded: string)
    ensures IsDigits(padded) && DigitsValue(padded) == q && |padded| > places
    ensures padded[0] == '0' ==> |padded| == places + 1
  {
    var digits := NatToString(q);
    if |digits| <= places then
      PadLeftValue(places + 1 - |digits|, digits);
      Zeros(places + 1 - |digits|) + digits
    else
      SingleZero(q);
      digits
  }

  /**
   * The digits of q with a decimal point `places` digits from the right, and one
   * digit before it: no leading zero precedes another digit of the whole part.
   */
  function RenderFixed(q: nat, places: nat): (s: string)
    ensures ParseDecimal(s) == Some(Decimal(q, places))
    ensures s[0] == '0' ==> |s| == 1 || s[1] == '.'
    ensures places == 0 ==> IsDigits(s)
    ensures places > 0 ==>
      && |s| >= places + 2 && s[|s| - places - 1] == '.'
      && IsDigits(s[..|s| - places - 1]) && IsDigits(s[|s| - places..])
  {
    var padded := PaddedDigits(q, places);
    if places == 0 then
      padded
    else
      RenderPointed(padded, places);
      padded[..|padded| - places] + "." + padded[|padded| - places..]
  }

  /** Padded digits with the point `places` digits from the right read back at that scale. */
  lemma RenderPointed(padded: string, places: nat)
    requires IsDigits(padded) && |padded| > places > 0
    requires padded[0] == '0' ==> |padded| == places + 1
    ensures var s := padded[..|padded| - places] + "." + padded[|padded| - places..];
      && ParseDecimal(s) == Some(Decimal(DigitsValue(padded), places))
      && (s[0] == '0' ==> s[1] == '.')
      && |s| >= places + 2 && s[|s| - places - 1] == '.'
      && IsDigits(s[..|s| - places - 1]) && IsDigits(s[|s| - places..])
  {
    var whole, fraction := padded[..|padded| - places], padded[|padded| - places..];
    assert whole + fraction == padded && whole[0] == padded[0];
    ParsePointed(whole, fraction);
    PointedShape(whole, fraction);
  }

  /** Zero is written "0", and any other number without a leading zero. */
  lemma SingleZero(q: nat)
    ensures NatToString(q)[0] == '0' ==> NatToString(q) == "0"
  {
  }

  /** A value with exactly `places` digits renders as "0." followed by those digits. */
  lemma RenderBelowOne(q: nat, places: nat)
    requires places > 0 && |NatToString(q)| == places
    ensures RenderFixed(q, places) == "0." + NatToString(q)
  {
    PaddedBelowOne(q, places);
    RenderShape(q, places);
    var padded := PaddedDigits(q, places);
    assert padded[..1] == "0";
    assert padded[1..] == NatToString(q);
  }

  lemma PaddedBelowOne(q: nat, places: nat)
    requires |NatToString(q)| == places
    ensures PaddedDigits(q, places) == "0" + NatToString(q)
  {
    assert Zeros(1) == "0";
  }

  lemma RenderShape(q: nat, places: nat)
    requires places > 0
    ensures var padded := PaddedDigits(q, places);
      RenderFixed(q, places) == padded[..|padded| - places] + "." + padded[|padded| - places..]
  {
  }

  /** In whole "." fraction, the point sits |fraction| + 1 places from the right. */
  lemma PointedShape(whole: string, fraction: string)
    requires |whole| > 0
    ensures var s := whole + "." + fraction;
      && |s| >= |fraction| + 2 && s[|s| - |fraction| - 1] == '.'
      && s[..|s| - |fraction| - 1] == whole && s[|s| - |fraction|..] == fraction
  {
    var s := whole + "." + fraction;
    assert s[..|whole|] == whole && s[|whole| + 1..] == fraction;
  }

  lemma ParsePointed(whole: string, fraction: string)
    requires IsDigits(whole) && IsDigits(fraction) && |whole| > 0
    ensures ParseDecimal(whole + "." + fraction) == Some(Decimal(DigitsValue(whole + fraction), |fraction|))
    ensures (whole + "." + fraction)[0] == whole[0] && (whole + "." + fraction)[|whole|] == '.'
  {
    var s := whole + "." + fraction;
    assert s[|whole|] == '.';
    forall i | 0 <= i < |whole| ensures s[i] != '.' { assert s[i] == whole[i]; }
    FirstIndexIsUnique(s, '.', |whole|);
    assert s[..|whole|] == whole && s[|whole| + 1..] == fraction;
  }

  lemma NoPointInDigits(s: string)
    requires IsDigits(s)
    ensures FirstIndexOf(s, '.') == None
  {
  }

  lemma FirstIndexIsUnique(s: string, c: char, i: nat)
    requires i < |s| && s[i] == c
    requires forall j :: 0 <= j < i ==> s[j] != c
    ensures FirstIndexOf(s, c) == Some(i)
  {
  }

  /**
   * The mantissa of d at `places` fraction digits, rounding half up (decimal.js-light's
   * default rounding mode) when digits are dropped.
   */
  function Rescale(d: Decimal, places: nat): (q: nat)
    ensures d.scale <= places ==> Decimal(q, places).Value() == d.Value()
    ensures d.scale > places ==>
      var p := Pow10(d.scale - places);
      2 * q * p <= 2 * d.mantissa + p < 2 * q * p + 2 * p
  {
    if d.scale <= places then
      ScaleUpExact(d, places);
      d.mantissa * Pow10(places - d.scale)
    else
      var p := Pow10(d.scale - places);
      RoundHalfUpBounds(d.mantissa, p);
      (2 * d.mantissa + p) / (2 * p)
  }

  lemma ScaleUpExact(d: Decimal, places: nat)
    requires d.scale <= places
    ensures Decimal(d.mantissa * Pow10(places - d.scale), places).Value() == d.Value()
  {
    var q := d.mantissa * Pow10(places - d.scale);
    Pow10Add(d.scale, places - d.scale);
    assert q * Pow10(d.scale) == d.mantissa * (Pow10(places - d.scale) * Pow10(d.scale));
    QuotientsEqual(q, Pow10(places), d.mantissa, Pow10(d.scale));
  }

  lemma RoundHalfUpBounds(m: nat, p: nat)
    requires p >= 1
    ensures var q := (2 * m + p) / (2 * p);
      2 * q * p <= 2 * m + p < 2 * q * p + 2 * p
  {
    var n, q := 2 * m + p, (2 * m + p) / (2 * p);
    assert n == (2 * p) * q + n % (2 * p);
    assert 2 * q * p == (2 * p) * q;
  }
}
