/**
 * Unsigned decimal digit strings and their values: what JavaScript's integer
 * number-to-string conversion produces, what `parseInt` reads, and the
 * `"0".repeat(n)` padding used by the amount encoder.
 */
module Digits {

  function Pow10(n: nat): (p: nat)
    ensures p >= 1
  {
    if n == 0 then 1 else 10 * Pow10(n - 1)
  }

  lemma {:induction false} Pow10Add(a: nat, b: nat)
    ensures Pow10(a + b) == Pow10(a) * Pow10(b)
  {
    if b > 0 {
      Pow10Add(a, b - 1);
      calc {
        Pow10(a + b);
        10 * Pow10(a + b - 1);
        10 * (Pow10(a) * Pow10(b - 1));
        Pow10(a) * (10 * Pow10(b - 1));
      }
    }
  }

  predicate IsDigit(c: char) { '0' <= c <= '9' }

  predicate IsDigits(s: string) { forall i :: 0 <= i < |s| ==> IsDigit(s[i]) }

  function DigitChar(d: nat): (c: char)
    requires d < 10
    ensures IsDigit(c) && (c as int) - ('0' as int) == d
  {
    ('0' as int + d) as char
  }

  function DigitOf(c: char): (d: nat)
    requires IsDigit(c)
    ensures d < 10
  {
    (c as int) - ('0' as int)
  }

  /** The value of a digit string read most significant digit first (empty reads as 0). */
  function DigitsValue(s: string): nat
    requires IsDigits(s)
  {
    if s == [] then 0 else DigitsValue(s[..|s| - 1]) * 10 + DigitOf(s[|s| - 1])
  }

  /** `"0".repeat(n)` */
  function Zeros(n: nat): (z: string)
    ensures |z| == n && IsDigits(z)
    ensures forall i :: 0 <= i < n ==> z[i] == '0'
  {
    if n == 0 then "" else Zeros(n - 1) + "0"
  }

  /**
   * The decimal rendering of a natural number, as JavaScript's number-to-string
   * conversion writes an integral value: digits only, no leading zero except for 0.
   */
  function NatToString(n: nat): (s: string)
    ensures |s| >= 1 && IsDigits(s)
    ensures DigitsValue(s) == n
    ensures s[0] == '0' ==> n == 0
    ensures n == 0 ==> s == "0"
  {
    if n < 10 then [DigitChar(n)]
    else
      var prefix := NatToString(n / 10);
      var s := prefix + [DigitChar(n % 10)];
      assert s[..|s| - 1] == prefix;
      s
  }

  /** 10^n is written as a one followed by n zeros. */
  lemma {:induction false} PowerOfTenDigits(n: nat)
    ensures NatToString(Pow10(n)) == "1" + Zeros(n)
  {
    if n > 0 {
      var p := Pow10(n - 1);
      PowerOfTenDigits(n - 1);
      assert Pow10(n) / 10 == p && Pow10(n) % 10 == 0 && Pow10(n) >= 10;
      assert NatToString(Pow10(n)) == NatToString(p) + [DigitChar(0)];
      assert "1" + Zeros(n) == ("1" + Zeros(n - 1)) + "0";
    }
  }

  lemma DigitsConcat(a: string, b: string)
    requires IsDigits(a) && IsDigits(b)
    ensures IsDigits(a + b)
  {
    var ab := a + b;
    forall i | 0 <= i < |ab| ensures IsDigit(ab[i]) {
      if i < |a| { assert ab[i] == a[i]; } else { assert ab[i] == b[i - |a|]; }
    }
  }

  lemma {:induction false} DigitsValueAppend(a: string, b: string)
    requires IsDigits(a) && IsDigits(b)
    ensures IsDigits(a + b)
    ensures DigitsValue(a + b) == DigitsValue(a) * Pow10(|b|) + DigitsValue(b)
    decreases |b|
  {
    DigitsConcat(a, b);
    var ab := a + b;
    if b == [] {
      assert ab == a;
    } else {
      var b' := b[..|b| - 1];
      var last := DigitOf(b[|b| - 1]);
      assert ab[..|ab| - 1] == a + b';
      assert ab[|ab| - 1] == b[|b| - 1];
      DigitsValueAppend(a, b');
      assert DigitsValue(ab) == DigitsValue(a + b') * 10 + last;
      assert DigitsValue(b) == DigitsValue(b') * 10 + last;
      assert Pow10(|b|) == Pow10(|b'|) * 10;
      ShiftDigit(DigitsValue(a), Pow10(|b'|), DigitsValue(b'), last);
    }
  }

  lemma ShiftDigit(x: nat, p: nat, y: nat, d: nat)
    ensures (x * p + y) * 10 + d == x * (p * 10) + (y * 10 + d)
  {
  }

  lemma {:induction false} ZerosValue(n: nat)
    ensures DigitsValue(Zeros(n)) == 0
  {
    if n > 0 {
      var z := Zeros(n);
      assert z[..|z| - 1] == Zeros(n - 1);
      ZerosValue(n - 1);
    }
  }

  /** Appending n zeros multiplies the value by 10^n. */
  lemma PadRightValue(s: string, n: nat)
    requires IsDigits(s)
    ensures IsDigits(s + Zeros(n))
    ensures DigitsValue(s + Zeros(n)) == DigitsValue(s) * Pow10(n)
  {
    DigitsValueAppend(s, Zeros(n));
    ZerosValue(n);
  }

  /** Prepending zeros does not change the value. */
  lemma PadLeftValue(n: nat, s: string)
    requires IsDigits(s)
    ensures IsDigits(Zeros(n) + s)
    ensures DigitsValue(Zeros(n) + s) == DigitsValue(s)
  {
    DigitsValueAppend(Zeros(n), s);
    ZerosValue(n);
  }

  /** m with j zero digits appended: m * 10^j. */
  function AppendZeros(m: nat, j: nat): nat {
    m * Pow10(j)
  }

  /** m with its last j decimal digits dropped: m / 10^j. */
  function DropDigits(m: nat, j: nat): nat {
    if j == 0 then m else DropDigits(m / 10, j - 1)
  }

  /** When 10^j divides m, dropping j digits divides by 10^j exactly. */
  lemma {:induction false} DropDigitsExact(m: nat, j: nat)
    requires m % Pow10(j) == 0
    ensures m == Pow10(j) * DropDigits(m, j)
  {
    if j > 0 {
      var p := Pow10(j - 1);
      DivMod10(m, p);
      DropDigitsExact(m / 10, j - 1);
      var q := DropDigits(m / 10, j - 1);
      assert m / 10 == p * q;
      assert m == 10 * (m / 10);
      assert 10 * (p * q) == (10 * p) * q;
    }
  }

  /** The number of trailing decimal zeros of a positive number. */
  function TrailingZeros(m: nat): nat
    requires m > 0
  {
    if m % 10 == 0 then 1 + TrailingZeros(m / 10) else 0
  }

  lemma DivMod10(m: nat, p: nat)
    requires p >= 1
    ensures m % (10 * p) == 0 <==> m % 10 == 0 && (m / 10) % p == 0
  {
    if m % (10 * p) == 0 {
      var q := m / (10 * p);
      assert m == 10 * (p * q);
      assert m / 10 == p * q;
      MultipleMod(q, p);
    }
    if m % 10 == 0 && (m / 10) % p == 0 {
      var q := (m / 10) / p;
      assert m / 10 == p * q;
      assert m == (10 * p) * q;
      MultipleMod(q, 10 * p);
    }
  }

  lemma MultipleMod(q: nat, p: nat)
    requires p >= 1
    ensures (p * q) % p == 0
  {
    var r := (p * q) % p;
    var d := (p * q) / p;
    assert p * q == p * d + r;
    assert p * (q - d) == r;
    if q - d >= 1 {
      assert false;
    } else if q - d <= -1 {
      assert false;
    }
  }

  /** 10^j divides a positive m exactly when m has at least j trailing zeros. */
  lemma {:induction false} DivisibleByPow10(m: nat, j: nat)
    requires m > 0
    ensures m % Pow10(j) == 0 <==> j <= TrailingZeros(m)
  {
    if j > 0 {
      DivMod10(m, Pow10(j - 1));
      if m % 10 == 0 {
        DivisibleByPow10(m / 10, j - 1);
      }
    }
  }
}
