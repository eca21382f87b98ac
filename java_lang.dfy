/**
 * The few pieces of Java integer and text semantics the timer relies on:
 * integer division that truncates toward zero, the remainder that goes with
 * it, decimal rendering as done by `%d`, and the literals `Long.parseLong`
 * accepts (ASCII digits only).
 */
module JavaLang {

  const INT_MIN: int := -0x8000_0000
  const INT_MAX: int := 0x7FFF_FFFF
  const LONG_MIN: int := -0x8000_0000_0000_0000
  const LONG_MAX: int := 0x7FFF_FFFF_FFFF_FFFF

  /**
   * Java's `a / b` for a positive divisor: the quotient rounded toward zero,
   * so that `b * q` never lies beyond `a` on the far side from zero.
   */
  function Quot(a: int, b: int): (q: int)
    requires b > 0
    ensures a >= 0 ==> 0 <= a - b * q < b
    ensures a < 0 ==> -b < a - b * q <= 0
    ensures a >= 0 ==> q == a / b
  {
    if a >= 0 then a / b
    else
      var m := (-a) / b;
      assert -a == b * m + (-a) % b;
      -m
  }

  /**
   * Java's `a % b` for a positive divisor: what truncating division leaves,
   * smaller than the divisor in magnitude and never of the opposite sign of `a`.
   */
  function Rem(a: int, b: int): (r: int)
    requires b > 0
    ensures a == b * Quot(a, b) + r
    ensures -b < r < b
    ensures a >= 0 ==> 0 <= r && r == a % b
    ensures a <= 0 ==> r <= 0
  {
    a - b * Quot(a, b)
  }

  /** A dividend that is not positive has a quotient that is not positive. */
  lemma QuotNonPositive(a: int, b: int)
    requires b > 0
    ensures a <= 0 ==> Quot(a, b) <= 0
  {
    if a <= 0 && Quot(a, b) > 0 {
      MultipleAtLeast(b, Quot(a, b));
    }
  }

  /**
   * Truncating division is determined by its two defining facts: any `q`, `r`
   * that recompose `a` with a remainder of the dividend's sign and of smaller
   * magnitude than `b` are Java's quotient and remainder.
   */
  lemma {:induction false} QuotRemUnique(a: int, b: int, q: int, r: int)
    requires b > 0
    requires a == b * q + r && -b < r < b
    requires a > 0 ==> r >= 0
    requires a < 0 ==> r <= 0
    ensures q == Quot(a, b) && r == Rem(a, b)
  {
    var q0, r0 := Quot(a, b), Rem(a, b);
    var d := q - q0;
    assert b * d == r0 - r;
    if d >= 1 {
      MultipleAtLeast(b, d);
    } else if d <= -1 {
      MultipleAtLeast(b, -d);
    }
  }

  lemma MultipleAtLeast(b: int, d: int)
    requires b > 0 && d >= 1
    ensures b * d >= b
  {
    assert b * d == b * (d - 1) + b;
  }

  predicate IsDigit(c: char) {
    '0' <= c <= '9'
  }

  predicate AllDigits(s: string) {
    forall i :: 0 <= i < |s| ==> IsDigit(s[i])
  }

  function DigitChar(d: nat): (c: char)
    requires d < 10
    ensures IsDigit(c)
  {
    ('0' as int + d) as char
  }

  /** The value of an ASCII digit; the inverse of DigitChar. */
  function DigitValue(c: char): (d: nat)
    requires IsDigit(c)
    ensures d < 10 && DigitChar(d) == c
  {
    c as int - '0' as int
  }

  /** The decimal text of a non-negative number, as `%d` prints it (no leading zeros). */
  function Decimal(n: nat): (s: string)
    ensures 1 <= |s| && AllDigits(s)
    ensures |s| == 1 <==> n < 10
  {
    if n < 10 then [DigitChar(n)] else Decimal(n / 10) + [DigitChar(n % 10)]
  }

  /** The decimal text of a positive number does not start with a zero. */
  lemma {:induction false} DecimalNoLeadingZero(n: nat)
    requires n > 0
    ensures Decimal(n)[0] != '0'
  {
    if n >= 10 {
      DecimalNoLeadingZero(n / 10);
      assert Decimal(n)[0] == Decimal(n / 10)[0];
    }
  }

  /** `%d` of any integer: a minus sign before the digits of the magnitude when negative. */
  function IntToString(v: int): string {
    if v < 0 then "-" + Decimal(-v) else Decimal(v)
  }

  /** The value of a string of decimal digits, most significant first; leading zeros allowed. */
  function DigitsValue(s: string): nat
    requires AllDigits(s)
  {
    if s == [] then 0 else DigitsValue(s[..|s| - 1]) * 10 + DigitValue(s[|s| - 1])
  }

  /** Reading back what Decimal wrote gives the number again. */
  lemma {:induction false} DecimalRoundTrip(n: nat)
    ensures DigitsValue(Decimal(n)) == n
  {
    if n >= 10 {
      DecimalRoundTrip(n / 10);
      var s := Decimal(n);
      assert s[..|s| - 1] == Decimal(n / 10);
    }
  }

  /**
   * The strings `Long.parseLong` accepts when digits are ASCII: an optional
   * sign, `-` or `+`, followed by at least one digit.
   */
  predicate IsLongLiteral(s: string) {
    if |s| > 0 && (s[0] == '-' || s[0] == '+') then |s| >= 2 && AllDigits(s[1..])
    else |s| >= 1 && AllDigits(s)
  }

  /** The value `Long.parseLong` gives a literal (the range check is left to its callers). */
  function LiteralValue(s: string): (v: int)
    requires IsLongLiteral(s)
    ensures s[0] == '-' ==> v <= 0
    ensures s[0] != '-' ==> v >= 0
    ensures s[0] == '+' ==> IsLongLiteral(s[1..]) && v == LiteralValue(s[1..])
    decreases |s|
  {
    if s[0] == '-' then 0 - DigitsValue(s[1..])
    else if s[0] == '+' then DigitsValue(s[1..])
    else DigitsValue(s)
  }

  /** Parsing is the inverse of `%d`: every integer's text is a literal of that integer. */
  lemma IntToStringRoundTrip(v: int)
    ensures IsLongLiteral(IntToString(v)) && LiteralValue(IntToString(v)) == v
  {
    var s := IntToString(v);
    if v < 0 {
      assert s[0] == '-' && s[1..] == Decimal(-v);
      DecimalRoundTrip(-v);
    } else {
      assert s == Decimal(v) && IsDigit(s[0]);
      DecimalRoundTrip(v);
    }
  }
}
