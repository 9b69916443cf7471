/**
 * The Jupiter connector's amount codec: `getAmount` turns a human decimal amount into
 * the raw integer string of a quote request, `parseAmount` turns a raw amount back
 * into a number of tokens.
 *
 * Amounts are exact decimals here (see module Decimals): `parseFloat`, `r * 10`,
 * `Math.floor` and number-to-string act on exact values, so binary rounding and
 * exponent notation play no part.
 */
module AmountCodec {
  import opened Outcomes
  import opened Digits
  import opened Decimals
  import opened NumberParsing
  import opened SolanaChain

  /**
   * The raw amount `getAmount` writes for the amount d: with k the number of
   * significant fraction digits of d, the digits of d * 10^k followed by
   * max(decimals - k, 0) zeros.
   */
  function EncodeAmount(decimals: nat, d: Decimal): (raw: string)
    ensures IsDigits(raw) && |raw| >= 1
  {
    var k := SignificantFractionDigits(d);
    var digits, zeros := NatToString(DropDigits(d.mantissa, d.scale - k)), Zeros(if decimals > k then decimals - k else 0);
    DigitsConcat(digits, zeros);
    digits + zeros
  }

  /**
   * What `getAmount(token, amount)` settles to: the encoding of what `parseFloat`
   * reads; an amount it reads as NaN makes the loop run forever.
   */
  function RawAmount(token: TokenInfo, amount: string): (r: Completion<string>)
    ensures r.Hangs? <==> ParseFloat(amount).None?
    ensures !r.Throws?
    ensures r.Returns? ==> IsDigits(r.value) && |r.value| >= 1
  {
    match ParseFloat(amount)
    case None => Hangs
    case Some(d) => Returns(EncodeAmount(token.decimals, d))
  }

  /**
   * `getAmount`: read the amount with `parseFloat`, then shift it (see ShiftToRaw).
   */
  method GetAmount(token: TokenInfo, amount: string) returns (raw: Completion<string>, ghost iterations: nat)
    ensures raw == RawAmount(token, amount)
    ensures ParseFloat(amount).Some? ==> iterations == SignificantFractionDigits(ParseFloat(amount).value)
  {
    var parsed := ParseFloat(amount);
    if parsed.None? {
      // Math.floor(NaN) !== NaN holds forever
      return Hangs, 0;
    }
    RawAmountOfParsed(token, amount, parsed.value);
    var digits, c := ShiftToRaw(token.decimals, parsed.value);
    raw, iterations := Returns(digits), c;
  }

  /**
   * The loop of `getAmount` on a parsed amount d: multiply by 10 until the value is
   * integral, counting the steps, then append as many zeros as the token's decimals
   * exceed the count.
   */
  method ShiftToRaw(decimals: nat, d: Decimal) returns (raw: string, iterations: nat)
    ensures raw == EncodeAmount(decimals, d)
    ensures iterations == SignificantFractionDigits(d)
  {
    var r := d;
    var c: nat := 0;
    while !r.IsIntegral()
      invariant c <= d.scale
      invariant r == Decimal(d.mantissa, d.scale - c)
      invariant c <= SignificantFractionDigits(d)
      decreases r.scale
    {
      IntegralAfterShift(d, c);
      r := r.Times10();
      c := c + 1;
    }
    IntegralAfterShift(d, c);
    var zeros := if decimals - c > 0 then decimals - c else 0;
    raw := NatToString(DropDigits(r.mantissa, r.scale)) + Zeros(zeros);
    iterations := c;
  }

  /**
   * `parseAmount`: `parseInt(amount) / 10^decimals`, kept exact as the signed decimal
   * with that mantissa and scale; `None` stands for NaN.
   */
  function ParseAmount(token: TokenInfo, amount: string): (r: Option<SignedDecimal>)
    ensures r.Some? <==> ParseInt(amount).Some?
    ensures r.Some? ==> r.value.negative == ParseInt(amount).value.negative
    ensures r.Some? ==> r.value.magnitude.Value() == ParseInt(amount).value.magnitude as real / Pow10(token.decimals) as real
    ensures amount != [] && IsDigits(amount) ==> r == Some(SignedDecimal(false, Decimal(DigitsValue(amount), token.decimals)))
  {
    WholeDigitsAreRead(amount);
    match ParseInt(amount)
    case None => None
    case Some(n) => Some(SignedDecimal(n.negative, Decimal(n.magnitude, token.decimals)))
  }

  /**
   * The integer the raw amount denotes: amount * 10^decimals when the amount has at
   * most `decimals` significant fraction digits, amount * 10^k (no zeros appended)
   * when it has k > decimals.
   */
  lemma {:induction false} EncodeAmountValue(decimals: nat, d: Decimal)
    ensures var k := SignificantFractionDigits(d);
      DigitsValue(EncodeAmount(decimals, d)) * Pow10(d.scale)
        == d.mantissa * Pow10(if k <= decimals then decimals else k)
    ensures var k := SignificantFractionDigits(d);
      k > decimals ==> EncodeAmount(decimals, d) == NatToString(DropDigits(d.mantissa, d.scale - k))
  {
    var k := SignificantFractionDigits(d);
    var p := Pow10(d.scale - k);
    var n := DropDigits(d.mantissa, d.scale - k);
    var z := if decimals > k then decimals - k else 0;
    var top := if k <= decimals then decimals else k;
    IntegralAfterShift(d, k);
    DropDigitsExact(d.mantissa, d.scale - k);
    PadRightValue(NatToString(n), z);
    assert z + d.scale == d.scale - k + top;
    Pow10Add(z, d.scale);
    Pow10Add(d.scale - k, top);
    Regroup(n, Pow10(z), Pow10(d.scale), p, Pow10(top), d.mantissa);
    if k > decimals {
      assert EncodeAmount(decimals, d) == NatToString(n) + "";
    }
  }

  lemma Regroup(n: nat, a: nat, b: nat, p: nat, t: nat, m: nat)
    requires a * b == p * t && m == p * n
    ensures n * a * b == m * t
  {
    calc {
      n * a * b;
      n * (a * b);
      n * (p * t);
      (p * n) * t;
    }
  }

  /** What `getAmount` settles to, for an amount `parseFloat` reads as d. */
  lemma RawAmountOfParsed(token: TokenInfo, amount: string, d: Decimal)
    requires ParseFloat(amount) == Some(d)
    ensures RawAmount(token, amount) == Returns(EncodeAmount(token.decimals, d))
  {
  }

  /** Decoding what was encoded gives the amount back when it has at most `decimals` significant fraction digits. */
  lemma RoundTrip(token: TokenInfo, amount: string)
    requires ParseFloat(amount).Some?
    requires SignificantFractionDigits(ParseFloat(amount).value) <= token.decimals
    ensures RawAmount(token, amount).Returns?
    ensures ParseAmount(token, RawAmount(token, amount).value).Some?
    ensures ParseAmount(token, RawAmount(token, amount).value).value.Value() == ParseFloat(amount).value.Value()
  {
    var d := ParseFloat(amount).value;
    RawAmountOfParsed(token, amount, d);
    EncodedRoundTrip(token, d);
  }

  lemma EncodedRoundTrip(token: TokenInfo, d: Decimal)
    requires SignificantFractionDigits(d) <= token.decimals
    ensures ParseAmount(token, EncodeAmount(token.decimals, d)) == Some(SignedDecimal(false, Decimal(DigitsValue(EncodeAmount(token.decimals, d)), token.decimals)))
    ensures Decimal(DigitsValue(EncodeAmount(token.decimals, d)), token.decimals).Value() == d.Value()
  {
    var raw := EncodeAmount(token.decimals, d);
    EncodeAmountValue(token.decimals, d);
    QuotientsEqual(DigitsValue(raw), Pow10(token.decimals), d.mantissa, Pow10(d.scale));
  }

  /**
   * With k > decimals significant fraction digits the raw amount is not truncated:
   * it decodes to the amount scaled up by 10^(k - decimals).
   */
  lemma OverPreciseAmountIsOverScaled(token: TokenInfo, amount: string)
    requires ParseFloat(amount).Some?
    requires SignificantFractionDigits(ParseFloat(amount).value) > token.decimals
    ensures RawAmount(token, amount).Returns?
    ensures ParseAmount(token, RawAmount(token, amount).value).Some?
    ensures var d, k := ParseFloat(amount).value, SignificantFractionDigits(ParseFloat(amount).value);
      ParseAmount(token, RawAmount(token, amount).value).value.Value()
        == Decimal(AppendZeros(d.mantissa, k - token.decimals), d.scale).Value()
  {
    var d := ParseFloat(amount).value;
    RawAmountOfParsed(token, amount, d);
    EncodedOverScaled(token, d);
  }

  lemma EncodedOverScaled(token: TokenInfo, d: Decimal)
    requires SignificantFractionDigits(d) > token.decimals
    ensures var raw, k := EncodeAmount(token.decimals, d), SignificantFractionDigits(d);
      && ParseAmount(token, raw) == Some(SignedDecimal(false, Decimal(DigitsValue(raw), token.decimals)))
      && Decimal(DigitsValue(raw), token.decimals).Value() == Decimal(AppendZeros(d.mantissa, k - token.decimals), d.scale).Value()
  {
    var k, n := SignificantFractionDigits(d), token.decimals;
    EncodeAmountValue(n, d);
    OverScaledQuotient(DigitsValue(EncodeAmount(n, d)), d.mantissa, n, k - n, k, d.scale);
  }

  /** v / 10^n == m * 10^j / 10^s when v * 10^s == m * 10^(j + n). */
  lemma OverScaledQuotient(v: nat, m: nat, n: nat, j: nat, k: nat, s: nat)
    requires k == j + n && v * Pow10(s) == m * Pow10(k)
    ensures Decimal(v, n).Value() == Decimal(AppendZeros(m, j), s).Value()
  {
    var a, b := Pow10(j), Pow10(n);
    Pow10Add(j, n);
    Regroup(m, a, b, 1, Pow10(k), m);
    QuotientsEqual(v, b, m * a, Pow10(s));
  }
}
