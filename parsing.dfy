/**
 * The two readers of an amount string. `parseFloat` (used by the Jupiter connector)
 * skips leading white space and reads the longest numeric prefix, ignoring whatever
 * follows; decimal.js-light's `new Decimal(s)` (used by the route handlers to format
 * the response amount) accepts only a whole-string literal with an optional leading
 * '-' and throws on anything else. Both read exponents. The same amount can
 * therefore be a number to one and an error to the other.
 */
module NumberParsing {
  import opened Outcomes
  import opened Digits
  import opened Decimals

  /** The white space and line terminators that `parseFloat` skips before the number. */
  predicate IsJsSpace(c: char) {
    || c == '\t' || c == '\n' || c == '\U{000B}' || c == '\U{000C}' || c == '\r' || c == ' '
    || c == '\U{00A0}' || c == '\U{1680}' || ('\U{2000}' <= c <= '\U{200A}')
    || c == '\U{2028}' || c == '\U{2029}' || c == '\U{202F}' || c == '\U{205F}'
    || c == '\U{3000}' || c == '\U{FEFF}'
  }

  /** The string without its leading white space. */
  function TrimStart(s: string): (t: string)
    ensures |t| <= |s|
    ensures t == [] || !IsJsSpace(t[0])
    ensures forall i :: 0 <= i < |s| - |t| ==> IsJsSpace(s[i])
  {
    if s != [] && IsJsSpace(s[0]) then TrimStart(s[1..]) else s
  }

  /** What is left after the white space is the end of the string. */
  lemma {:induction false} TrimStartIsSuffix(s: string)
    ensures TrimStart(s) == s[|s| - |TrimStart(s)|..]
  {
    if s != [] && IsJsSpace(s[0]) {
      TrimStartIsSuffix(s[1..]);
    }
  }

  /** The number of digits at the front of s. */
  function DigitRun(s: string): (n: nat)
    ensures n <= |s| && IsDigits(s[..n])
    ensures n < |s| ==> !IsDigit(s[n])
  {
    if s != [] && IsDigit(s[0]) then
      var n := 1 + DigitRun(s[1..]);
      assert s[..n] == [s[0]] + s[1..][..n - 1];
      n
    else 0
  }

  /** An exponent part: 'e' or 'E', an optional sign, at least one digit. */
  datatype Exponent = Exponent(negative: bool, value: nat, length: nat)

  /** The exponent part at the front of s, if there is one. */
  function ScanExponent(s: string): (r: Option<Exponent>)
    ensures r.Some? ==> 2 <= r.value.length <= |s| && (s[0] == 'e' || s[0] == 'E')
    ensures s == [] || (s[0] != 'e' && s[0] != 'E') ==> r.None?
  {
    if s == [] || (s[0] != 'e' && s[0] != 'E') then None
    else
      var signed := |s| > 1 && (s[1] == '+' || s[1] == '-');
      var start := if signed then 2 else 1;
      var n := DigitRun(s[start..]);
      if n == 0 then None
      else Some(Exponent(signed && s[1] == '-', DigitsValue(s[start..][..n]), start + n))
  }

  /** The decimal d scaled by ten to the exponent (see ApplyExponentValue). */
  function ApplyExponent(d: Decimal, e: Exponent): Decimal {
    if e.negative then Decimal(d.mantissa, d.scale + e.value)
    else if e.value <= d.scale then Decimal(d.mantissa, d.scale - e.value)
    else Decimal(d.mantissa * Pow10(e.value - d.scale), 0)
  }

  /** Applying an exponent scales the value by exactly that power of ten. */
  lemma ApplyExponentValue(m: nat, s: nat, e: Exponent)
    ensures e.negative ==> ApplyExponent(Decimal(m, s), e).Value() * Pow10(e.value) as real == Decimal(m, s).Value()
    ensures !e.negative ==> ApplyExponent(Decimal(m, s), e).Value() == Decimal(m, s).Value() * Pow10(e.value) as real
  {
    var n := e.value;
    if e.negative {
      ScaleDown(m, s, n, Pow10(s), Pow10(n), Pow10(s + n));
    } else if n <= s {
      WithinScaleExponent(m, s, e);
    } else {
      BeyondScaleExponent(m, s, e);
    }
  }

  lemma WithinScaleExponent(m: nat, s: nat, e: Exponent)
    requires !e.negative && e.value <= s
    ensures ApplyExponent(Decimal(m, s), e).Value() == Decimal(m, s).Value() * Pow10(e.value) as real
  {
    var n := e.value;
    var t := s - n;
    assert ApplyExponent(Decimal(m, s), e) == Decimal(m, t) && t + n == s;
    ScaleDown(m, t, n, Pow10(t), Pow10(n), Pow10(s));
  }

  lemma BeyondScaleExponent(m: nat, s: nat, e: Exponent)
    requires !e.negative && e.value > s
    ensures ApplyExponent(Decimal(m, s), e).Value() == Decimal(m, s).Value() * Pow10(e.value) as real
  {
    var n := e.value;
    var q := Pow10(n - s);
    assert ApplyExponent(Decimal(m, s), e) == Decimal(m * q, 0);
    assert s + (n - s) == n;
    ScaleUpBeyondScale(m, s, n - s, Pow10(s), q, Pow10(n));
  }

  // The three cases take the powers of ten as parameters, so that the real
  // arithmetic is done on plain variables.

  lemma ScaleDown(m: nat, s: nat, n: nat, a: nat, b: nat, p: nat)
    requires a == Pow10(s) && b == Pow10(n) && p == Pow10(s + n)
    ensures Decimal(m, s + n).Value() * b as real == Decimal(m, s).Value()
  {
    assert p == a * b by { Pow10Add(s, n); }
    ScaledQuotient(m, a, b, p, Decimal(m, s).Value(), Decimal(m, s + n).Value());
  }

  lemma ScaleUpBeyondScale(m: nat, s: nat, k: nat, a: nat, q: nat, p: nat)
    requires a == Pow10(s) && q == Pow10(k) && p == Pow10(s + k)
    ensures Decimal(m * q, 0).Value() == Decimal(m, s).Value() * p as real
  {
    Pow10Add(s, k);
    ProductAsReal(a, q);
    ProductAsReal(m, q);
    DivideByFactor(m as real, a as real, q as real, p as real);
  }

  /** With x == m / a and y == m / (a * b): y * b == x. */
  lemma ScaledQuotient(m: nat, a: nat, b: nat, p: nat, x: real, y: real)
    requires a >= 1 && b >= 1 && p == a * b
    requires x == m as real / a as real && y == m as real / p as real
    ensures y * b as real == x
  {
    ProductAsReal(a, b);
    CancelFactor(m as real, a as real, b as real, p as real);
  }

  lemma ProductAsReal(a: nat, b: nat)
    ensures (a * b) as real == a as real * b as real
  {
  }

  /** x / (y * z) * z == x / y */
  lemma CancelFactor(x: real, y: real, z: real, w: real)
    requires y > 0.0 && z > 0.0 && w == y * z
    ensures x / w * z == x / y
  {
  }

  /** x / y * (y * z) == x * z */
  lemma DivideByFactor(x: real, y: real, z: real, w: real)
    requires y > 0.0 && w == y * z
    ensures x / y * w == x * z
  {
  }

  /** A number read from the front of a string, and how many characters it took. */
  datatype Scanned = Scanned(value: Decimal, length: nat)

  /** The exact value of the digits `whole` `.` `fraction`. */
  function PointedValue(whole: string, fraction: string): (d: Decimal)
    requires IsDigits(whole) && IsDigits(fraction)
    ensures d.scale == |fraction|
  {
    DigitsConcat(whole, fraction);
    Decimal(DigitsValue(whole + fraction), |fraction|)
  }

  /**
   * The longest prefix of s of the form digits, digits '.' digits, digits '.' or
   * '.' digits (at least one digit in all), and its value.
   */
  function ScanMantissa(s: string): (r: Option<Scanned>)
    ensures r.Some? ==> 1 <= r.value.length <= |s| && (IsDigit(s[0]) || s[0] == '.')
  {
    var w := DigitRun(s);
    if w < |s| && s[w] == '.' then
      var f := DigitRun(s[w + 1..]);
      if w + f == 0 then None
      else Some(Scanned(PointedValue(s[..w], s[w + 1..][..f]), w + 1 + f))
    else if w == 0 then None
    else Some(Scanned(Decimal(DigitsValue(s[..w]), 0), w))
  }

  /**
   * The longest prefix of s that is an unsigned decimal literal: the mantissa,
   * then an exponent part if one follows.
   */
  function ScanDecimal(s: string): (r: Option<Scanned>)
    ensures r.Some? ==> 1 <= r.value.length <= |s| && (IsDigit(s[0]) || s[0] == '.')
  {
    match ScanMantissa(s)
    case None => None
    case Some(m) =>
      match ScanExponent(s[m.length..])
      case None => Some(m)
      case Some(e) => Some(Scanned(ApplyExponent(m.value, e), m.length + e.length))
  }

  /**
   * `parseFloat(s)`: leading white space is skipped, an optional '+' is read, then
   * the longest unsigned decimal literal; whatever follows it is ignored. `None`
   * stands for NaN, and also for a '-' sign or `Infinity`, whose negative or
   * infinite values this model does not hold.
   */
  function ParseFloat(s: string): (r: Option<Decimal>)
    ensures r.Some? ==> var t := TrimStart(s); t != [] && (IsDigit(t[0]) || t[0] == '.' || t[0] == '+')
  {
    var t := TrimStart(s);
    if t != [] && t[0] == '-' then None
    else
      var u := if t != [] && t[0] == '+' then t[1..] else t;
      match ScanDecimal(u)
      case None => None
      case Some(n) => Some(n.value)
  }

  /** A decimal.js-light `Decimal`: a sign and an exact magnitude. */
  datatype SignedDecimal = SignedDecimal(negative: bool, magnitude: Decimal) {
    /** The exact value, the magnitude's value negated under the sign. */
    function Value(): real {
      if negative then -magnitude.Value() else magnitude.Value()
    }
  }

  /**
   * decimal.js-light's `new Decimal(s)` on a string: an optional leading '-', then
   * the whole rest must be an unsigned decimal literal with an optional exponent
   * part; `None` where it throws its invalid-argument error.
   */
  function NewDecimal(s: string): (r: Option<SignedDecimal>)
    ensures r.Some? ==> s != [] && (r.value.negative <==> s[0] == '-')
  {
    var negative := s != [] && s[0] == '-';
    var u := if negative then s[1..] else s;
    match ScanDecimal(u)
    case None => None
    case Some(n) =>
      if n.length == |u| then Some(SignedDecimal(negative, n.value)) else None
  }

  /** A digit run followed by a character that is not a digit ends where the digits do. */
  lemma {:induction false} DigitRunOfDigits(a: string, b: string)
    requires IsDigits(a)
    requires b == [] || !IsDigit(b[0])
    ensures DigitRun(a + b) == |a|
    decreases |a|
  {
    if a != [] {
      assert (a + b)[1..] == a[1..] + b;
      DigitRunOfDigits(a[1..], b);
    } else {
      assert a + b == b;
    }
  }

  /** What may follow a literal without extending it. */
  predicate Ends(rest: string) {
    rest == [] || !(IsDigit(rest[0]) || rest[0] == '.' || rest[0] == 'e' || rest[0] == 'E')
  }

  /** A plain literal followed by something that cannot continue a number is read to its end, at its value. */
  lemma PlainLiteralScan(s: string, rest: string)
    requires ParseDecimal(s).Some? && Ends(rest)
    ensures ScanDecimal(s + rest) == Some(Scanned(ParseDecimal(s).value, |s|))
  {
    match FirstIndexOf(s, '.')
    case None => IntegerLiteralScan(s, rest);
    case Some(i) => PointedLiteralScan(s, i, rest);
  }

  lemma IntegerLiteralScan(s: string, rest: string)
    requires s != [] && IsDigits(s) && Ends(rest)
    ensures ScanDecimal(s + rest) == Some(Scanned(Decimal(DigitsValue(s), 0), |s|))
  {
    var t := s + rest;
    DigitRunOfDigits(s, rest);
    assert t[..|s|] == s && t[|s|..] == rest;
  }

  lemma PointedLiteralScan(s: string, i: nat, rest: string)
    requires FirstIndexOf(s, '.') == Some(i) && ParseDecimal(s).Some? && Ends(rest)
    ensures ScanDecimal(s + rest) == Some(Scanned(ParseDecimal(s).value, |s|))
  {
    var whole, fraction := s[..i], s[i + 1..];
    PointedParts(s, i);
    PointedMantissa(s + rest, whole, fraction, rest);
    assert (s + rest)[|s|..] == rest;
  }

  /** A pointed plain literal is its whole part, the point and its fraction part. */
  lemma PointedParts(s: string, i: nat)
    requires FirstIndexOf(s, '.') == Some(i) && ParseDecimal(s).Some?
    ensures i < |s| && IsDigits(s[..i]) && IsDigits(s[i + 1..]) && |s[..i]| + |s[i + 1..]| > 0
    ensures s == s[..i] + "." + s[i + 1..]
    ensures ParseDecimal(s).value == PointedValue(s[..i], s[i + 1..])
  {
    assert s == s[..i] + "." + s[i + 1..];
  }

  /** The mantissa scan of digits, a point, digits and then something other than a digit. */
  lemma PointedMantissa(t: string, whole: string, fraction: string, rest: string)
    requires IsDigits(whole) && IsDigits(fraction) && |whole| + |fraction| > 0
    requires rest == [] || !IsDigit(rest[0])
    requires t == whole + "." + fraction + rest
    ensures ScanMantissa(t) == Some(Scanned(PointedValue(whole, fraction), |whole| + 1 + |fraction|))
  {
    WholeBeforePoint(t, whole, "." + fraction + rest);
    FractionAfterPoint(t[|whole| + 1..], fraction, rest);
    PointedScan(t, whole, fraction);
  }

  /** The digit run of whole followed by text that starts with a point. */
  lemma WholeBeforePoint(t: string, whole: string, after: string)
    requires IsDigits(whole) && after != [] && after[0] == '.'
    requires t == whole + after
    ensures DigitRun(t) == |whole| && t[|whole|] == '.' && t[..|whole|] == whole
    ensures t[|whole| + 1..] == after[1..]
  {
    DigitRunOfDigits(whole, after);
  }

  /** The digit run of fraction followed by something other than a digit. */
  lemma FractionAfterPoint(tail: string, fraction: string, rest: string)
    requires IsDigits(fraction) && (rest == [] || !IsDigit(rest[0]))
    requires tail == fraction + rest
    ensures DigitRun(tail) == |fraction| && tail[..|fraction|] == fraction
  {
    DigitRunOfDigits(fraction, rest);
  }

  /** The mantissa scan once the two digit runs around the point are known. */
  lemma PointedScan(t: string, whole: string, fraction: string)
    requires IsDigits(whole) && IsDigits(fraction) && |whole| + |fraction| > 0
    requires |whole| < |t| && t[|whole|] == '.' && t[..|whole|] == whole
    requires DigitRun(t) == |whole| && DigitRun(t[|whole| + 1..]) == |fraction|
    requires t[|whole| + 1..][..|fraction|] == fraction
    ensures ScanMantissa(t) == Some(Scanned(PointedValue(whole, fraction), |whole| + 1 + |fraction|))
  {
  }

  /**
   * A plain literal (what `toFixed` writes) reads the same to both readers, and
   * decimal.js-light reads it with a leading '-' as its negation.
   */
  lemma PlainLiteralReadsAlike(s: string)
    requires ParseDecimal(s).Some?
    ensures ParseFloat(s) == ParseDecimal(s)
    ensures NewDecimal(s) == Some(SignedDecimal(false, ParseDecimal(s).value))
    ensures NewDecimal("-" + s) == Some(SignedDecimal(true, ParseDecimal(s).value))
  {
    PlainLiteralScan(s, "");
    assert s + "" == s;
    ParseFloatOfLiteral(s);
    assert ("-" + s)[1..] == s;
  }

  /** `parseFloat` reads a string that starts with a digit or a point as the scan does. */
  lemma ParseFloatOfLiteral(s: string)
    requires ScanDecimal(s).Some?
    ensures ParseFloat(s) == Some(ScanDecimal(s).value.value)
  {
    assert !IsJsSpace(s[0]);
    assert TrimStart(s) == s;
  }

  /** `parseFloat` reads a '+' followed by a literal as that literal. */
  lemma PlusSignIsSkipped(s: string)
    requires ScanDecimal(s).Some?
    ensures ParseFloat("+" + s) == ParseFloat(s) == Some(ScanDecimal(s).value.value)
  {
    var t := "+" + s;
    assert t[1..] == s;
    assert TrimStart(t) == t by { assert !IsJsSpace(t[0]); }
    assert ParseFloat(t) == Some(ScanDecimal(s).value.value);
    ParseFloatOfLiteral(s);
  }

  /**
   * Every unsigned string decimal.js-light accepts, `parseFloat` reads to the same
   * value: the readers differ only on strings the constructor rejects (and on signs).
   */
  lemma DecimalJsLiteralsParseAlike(s: string, d: Decimal)
    requires NewDecimal(s) == Some(SignedDecimal(false, d))
    ensures ParseFloat(s) == Some(d)
  {
    ParseFloatOfLiteral(s);
  }

  /**
   * A literal followed by text that cannot continue it (a space, a letter other
   * than 'e', ...) is a number to `parseFloat` and an invalid argument to decimal.js-light.
   */
  lemma TrailingTextSplitsTheReaders(s: string, rest: string)
    requires ParseDecimal(s).Some? && rest != [] && Ends(rest)
    ensures ParseFloat(s + rest) == ParseDecimal(s)
    ensures NewDecimal(s + rest) == None
  {
    PlainLiteralScan(s, rest);
    ParseFloatOfLiteral(s + rest);
    assert (s + rest)[0] == s[0];
  }

  /** Leading white space is skipped by `parseFloat` and rejected by decimal.js-light. */
  lemma LeadingSpaceSplitsTheReaders(c: char, s: string)
    requires IsJsSpace(c)
    ensures ParseFloat([c] + s) == ParseFloat(s)
    ensures NewDecimal([c] + s) == None
  {
    assert ([c] + s)[1..] == s;
  }

  /**
   * decimal.js-light `new Decimal(s).toFixed(places)`: throws on a string the
   * constructor rejects; otherwise the magnitude rounded half up (away from zero)
   * to `places` digits, written with a '-' when the value was negative and not zero.
   */
  function ToFixed(s: string, places: nat): (r: Completion<string>)
    ensures NewDecimal(s).None? ==> r == Throws(Error(InvalidDecimal(s)))
    ensures NewDecimal(s).Some? ==>
      var x := NewDecimal(s).value;
      && r.Returns?
      && NewDecimal(r.value) == Some(SignedDecimal(x.negative && x.magnitude.mantissa != 0,
           Decimal(Rescale(x.magnitude, places), places)))
    ensures NewDecimal(s).Some? ==>
      var x := NewDecimal(s).value;
      r == Returns((if x.negative && x.magnitude.mantissa != 0 then "-" else "") + RenderFixed(Rescale(x.magnitude, places), places))
  {
    match NewDecimal(s)
    case None => Throws(Error(InvalidDecimal(s)))
    case Some(x) =>
      var negative := x.negative && x.magnitude.mantissa != 0;
      var digits := RenderFixed(Rescale(x.magnitude, places), places);
      SignedLiteralReadsBack(negative, digits);
      Returns((if negative then "-" else "") + digits)
  }

  /** A non-negative amount is written without a sign. */
  lemma ToFixedUnsigned(s: string, places: nat, d: Decimal)
    requires NewDecimal(s) == Some(SignedDecimal(false, d))
    ensures ToFixed(s, places) == Returns(RenderFixed(Rescale(d, places), places))
  {
    assert "" + RenderFixed(Rescale(d, places), places) == RenderFixed(Rescale(d, places), places);
  }

  /** A plain literal, with a '-' in front when negative, reads back with that sign. */
  lemma SignedLiteralReadsBack(negative: bool, digits: string)
    requires ParseDecimal(digits).Some?
    ensures NewDecimal((if negative then "-" else "") + digits) == Some(SignedDecimal(negative, ParseDecimal(digits).value))
  {
    PlainLiteralReadsAlike(digits);
    assert "" + digits == digits;
  }

  /** Formatting to at least as many places as the amount has keeps its value exactly. */
  lemma ToFixedKeepsValue(s: string, places: nat)
    requires NewDecimal(s).Some? && NewDecimal(s).value.magnitude.scale <= places
    ensures ToFixed(s, places).Returns?
    ensures var x, y := NewDecimal(s).value, NewDecimal(ToFixed(s, places).value).value;
      y.magnitude.Value() == x.magnitude.Value() && y.magnitude.scale == places
  {
  }

  /** An ASCII hexadecimal digit, in either case. */
  predicate IsHexDigit(c: char) { IsDigit(c) || 'a' <= c <= 'f' || 'A' <= c <= 'F' }

  predicate IsHexDigits(s: string) { forall i :: 0 <= i < |s| ==> IsHexDigit(s[i]) }

  function HexDigitOf(c: char): (v: nat)
    requires IsHexDigit(c)
    ensures v < 16
    ensures IsDigit(c) ==> v == DigitOf(c)
  {
    if IsDigit(c) then DigitOf(c)
    else if 'a' <= c <= 'f' then (c as int) - ('a' as int) + 10
    else (c as int) - ('A' as int) + 10
  }

  /** The value of a run of hexadecimal digits read most significant digit first. */
  function HexValue(s: string): nat
    requires IsHexDigits(s)
  {
    if s == [] then 0 else HexValue(s[..|s| - 1]) * 16 + HexDigitOf(s[|s| - 1])
  }

  /** The number of hexadecimal digits at the front of s. */
  function HexRun(s: string): (n: nat)
    ensures n <= |s| && IsHexDigits(s[..n])
    ensures n < |s| ==> !IsHexDigit(s[n])
  {
    if s != [] && IsHexDigit(s[0]) then
      var n := 1 + HexRun(s[1..]);
      assert s[..n] == [s[0]] + s[1..][..n - 1];
      n
    else 0
  }

  lemma {:induction false} HexRunOfHexDigits(a: string, b: string)
    requires IsHexDigits(a)
    requires b == [] || !IsHexDigit(b[0])
    ensures HexRun(a + b) == |a|
    decreases |a|
  {
    if a != [] {
      assert (a + b)[1..] == a[1..] + b;
      HexRunOfHexDigits(a[1..], b);
    } else {
      assert a + b == b;
    }
  }

  /** What `parseInt` reads: a sign and a magnitude. */
  datatype ParsedInt = ParsedInt(negative: bool, magnitude: nat)

  /** The "0x" or "0X" that switches `parseInt` to base 16. */
  predicate HasHexPrefix(s: string) { |s| >= 2 && s[0] == '0' && (s[1] == 'x' || s[1] == 'X') }

  /**
   * `parseInt(s)` with no radix: leading white space is skipped, an optional '+'
   * or '-' is read, then a "0x" or "0X" prefix selects base 16 (base 10
   * otherwise) and the longest run of digits of that base is read; whatever
   * follows it is ignored. `None` stands for NaN, when that run is empty.
   */
  function ParseInt(s: string): (r: Option<ParsedInt>)
    ensures r.Some? ==> var t := TrimStart(s);
      && t != [] && (r.value.negative <==> t[0] == '-')
      && (IsDigit(t[0]) || (|t| >= 2 && (t[0] == '+' || t[0] == '-') && IsDigit(t[1])))
  {
    var t := TrimStart(s);
    var negative := t != [] && t[0] == '-';
    var u := if t != [] && (t[0] == '+' || t[0] == '-') then t[1..] else t;
    if HasHexPrefix(u) then
      var n := HexRun(u[2..]);
      if n == 0 then None else Some(ParsedInt(negative, HexValue(u[2..][..n])))
    else
      var n := DigitRun(u);
      if n == 0 then None else Some(ParsedInt(negative, DigitsValue(u[..n])))
  }

  /** A decimal digit run is read as its value, whatever non-digit text follows it. */
  lemma DigitPrefixIsRead(digits: string, rest: string)
    requires digits != [] && IsDigits(digits)
    requires rest == [] || !IsDigit(rest[0])
    requires !HasHexPrefix(digits + rest)
    ensures ParseInt(digits + rest) == Some(ParsedInt(false, DigitsValue(digits)))
  {
    var t := digits + rest;
    assert !IsJsSpace(t[0]) && TrimStart(t) == t;
    DigitRunOfDigits(digits, rest);
    assert t[..|digits|] == digits;
  }

  /** A string of decimal digits alone is read whole. */
  lemma WholeDigitsAreRead(s: string)
    ensures s != [] && IsDigits(s) ==> ParseInt(s) == Some(ParsedInt(false, DigitsValue(s)))
  {
    if s != [] && IsDigits(s) {
      assert s + "" == s;
      DigitPrefixIsRead(s, "");
    }
  }

  /** Leading white space is skipped. */
  lemma SpaceIsSkipped(c: char, s: string)
    requires IsJsSpace(c)
    ensures ParseInt([c] + s) == ParseInt(s)
  {
    assert ([c] + s)[1..] == s;
  }

  /** A '+' changes nothing and a '-' negates what follows it, NaN staying NaN. */
  lemma SignIsRead(s: string)
    requires s == [] || (!IsJsSpace(s[0]) && s[0] != '+' && s[0] != '-')
    ensures ParseInt("+" + s) == ParseInt(s)
    ensures ParseInt("-" + s) == if ParseInt(s).None? then None else Some(ParsedInt(true, ParseInt(s).value.magnitude))
  {
    var p, m := "+" + s, "-" + s;
    assert !IsJsSpace(p[0]) && TrimStart(p) == p && p[1..] == s;
    assert !IsJsSpace(m[0]) && TrimStart(m) == m && m[1..] == s;
    assert s == [] || TrimStart(s) == s;
  }

  /** After "0x" or "0X" a run of hexadecimal digits is read in base 16. */
  lemma HexPrefixIsRead(x: char, hex: string, rest: string)
    requires x == 'x' || x == 'X'
    requires hex != [] && IsHexDigits(hex)
    requires rest == [] || !IsHexDigit(rest[0])
    ensures ParseInt("0" + [x] + hex + rest) == Some(ParsedInt(false, HexValue(hex)))
  {
    var t := "0" + [x] + hex + rest;
    assert !IsJsSpace(t[0]) && TrimStart(t) == t && HasHexPrefix(t);
    assert t[2..] == hex + rest;
    HexRunOfHexDigits(hex, rest);
    assert (hex + rest)[..|hex|] == hex;
  }

  /** "0x" with no hexadecimal digit after it is NaN, not 0. */
  lemma EmptyHexIsNaN(x: char, rest: string)
    requires x == 'x' || x == 'X'
    requires rest == [] || !IsHexDigit(rest[0])
    ensures ParseInt("0" + [x] + rest).None?
  {
    var t := "0" + [x] + rest;
    assert !IsJsSpace(t[0]) && TrimStart(t) == t && HasHexPrefix(t);
    assert t[2..] == rest;
  }
}
