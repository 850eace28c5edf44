/**
 * PHP's numeric strings (`is_numeric`) and what they denote, as used by
 * `getValue`'s range check and casts. Values are exact reals; PHP's
 * rounding to a double is not modelled.
 */
module Numeric {
  import opened Wrappers
  import opened PhpValues
  import opened PhpStrings

  /** The whitespace PHP 8 allows around a numeric string. */
  predicate IsNumWs(c: char) {
    c == ' ' || c == '\t' || c == '\n' || c == '\r' || c == '\U{000B}' || c == '\U{000C}'
  }

  /** The bytes a numeric string is made of, once its surrounding whitespace is dropped. */
  predicate IsNumChar(c: char) {
    ('0' <= c <= '9') || c == '+' || c == '-' || c == '.' || c == 'e' || c == 'E'
  }

  function DropLeadingWs(s: string): (r: string)
    ensures s != [] && !IsNumWs(s[0]) ==> r == s
  {
    if s != [] && IsNumWs(s[0]) then DropLeadingWs(s[1..]) else s
  }

  function DropTrailingWs(s: string): (r: string)
    ensures s != [] && !IsNumWs(s[0]) ==> r != [] && r[0] == s[0]
    ensures s != [] && !IsNumWs(s[|s| - 1]) ==> r == s
  {
    if s != [] && IsNumWs(s[|s| - 1]) then DropTrailingWs(s[..|s| - 1]) else s
  }

  /** The string without its surrounding whitespace. */
  function Core(s: string): string {
    DropTrailingWs(DropLeadingWs(s))
  }

  predicate AllDigits(s: string) {
    forall i | 0 <= i < |s| :: '0' <= s[i] <= '9'
  }

  /** An optional leading sign, and what follows it. */
  function SplitSign(t: string): (r: (bool, string))
    ensures forall c | c in t :: c in r.1 || c == '+' || c == '-'
    ensures r.0 ==> StartsWith(t, '-')
  {
    if StartsWith(t, '-') then (true, t[1..])
    else if StartsWith(t, '+') then (false, t[1..])
    else (false, t)
  }

  /** The mantissa before the first `e` or `E`, and the exponent text after it, if any. */
  function SplitExponent(body: string): (r: (string, Option<string>))
    ensures r.1.None? ==> r.0 == body
    ensures r.1.Some? ==> forall c | c in body :: c in r.0 || c in r.1.value || c == 'e' || c == 'E'
  {
    match IndexOf(ToLower(body), 'e')
    case None => (body, None)
    case Some(i) =>
      assert LowerChar(body[i]) == 'e';
      assert body == body[..i] + [body[i]] + body[i + 1..];
      (body[..i], Some(body[i + 1..]))
  }

  /** The digits before the decimal point and after it (empty when there is no point). */
  function SplitPoint(mant: string): (r: (string, string))
    ensures forall c | c in mant :: c in r.0 || c in r.1 || c == '.'
    ensures '.' !in mant ==> r == (mant, "")
  {
    match IndexOf(mant, '.')
    case None => (mant, "")
    case Some(d) =>
      assert mant == mant[..d] + ['.'] + mant[d + 1..];
      (mant[..d], mant[d + 1..])
  }

  /** The exponent after `e`/`E`: an optional sign, then at least one digit. */
  function ParseExponent(x: string): (r: Option<int>)
    ensures r.Some? ==> forall c | c in x :: IsNumChar(c)
  {
    var sx := SplitSign(x);
    if IsDigits(sx.1) then
      assert forall c | c in sx.1 :: IsNumChar(c);
      Some(if sx.0 then -(DecimalValue(sx.1) as int) else DecimalValue(sx.1))
    else None
  }

  /** A numeric string, taken apart: sign, digits before and after the point, and the decimal exponent. */
  datatype Numeral = Numeral(negative: bool, whole: string, frac: string, exponent: int)

  /**
   * PHP's numeric-string grammar: optional surrounding whitespace, an
   * optional sign, digits with at most one decimal point (at least one
   * digit in all), and an optional exponent. Hexadecimal is not numeric.
   */
  function ParseNumeral(s: string): (r: Option<Numeral>)
    ensures r.Some? ==> AllDigits(r.value.whole) && AllDigits(r.value.frac)
  {
    var sb := SplitSign(Core(s));
    var se := SplitExponent(sb.1);
    var exp := if se.1.Some? then ParseExponent(se.1.value) else Some(0);
    var sp := SplitPoint(se.0);
    if exp.Some? && AllDigits(sp.0) && AllDigits(sp.1) && |sp.0| + |sp.1| > 0
    then Some(Numeral(sb.0, sp.0, sp.1, exp.value))
    else None
  }

  predicate IsNumeric(s: string) {
    ParseNumeral(s).Some?
  }

  lemma NumericChars(s: string)
    requires IsNumeric(s)
    ensures forall c | c in Core(s) :: IsNumChar(c)
  {
    var t := Core(s);
    var sb := SplitSign(t);
    var se := SplitExponent(sb.1);
    var sp := SplitPoint(se.0);
    assert AllDigits(sp.0) && AllDigits(sp.1);
    MantChars(se.0, sp);
    if se.1.Some? {
      assert ParseExponent(se.1.value).Some?;
    }
    assert forall c | c in sb.1 :: IsNumChar(c);
  }

  lemma MantChars(mant: string, sp: (string, string))
    requires sp == SplitPoint(mant) && AllDigits(sp.0) && AllDigits(sp.1)
    ensures forall c | c in mant :: IsNumChar(c)
  {
  }

  /** `m` times ten to the `n`, one factor of ten at a time. */
  function ScaleUp(m: real, n: nat): (r: real)
    ensures m >= 0.0 ==> r >= m
  {
    if n == 0 then m else 10.0 * ScaleUp(m, n - 1)
  }

  /** `m` divided by ten to the `n`, one factor of ten at a time. */
  function ScaleDown(m: real, n: nat): (r: real)
    ensures m >= 0.0 ==> 0.0 <= r <= m
  {
    if n == 0 then m else ScaleDown(m, n - 1) / 10.0
  }

  /**
   * The exact value a numeral denotes: its digits read as one integer,
   * shifted by the exponent less the number of fraction digits.
   */
  function NumeralValue(n: Numeral): (r: real)
    requires AllDigits(n.whole) && AllDigits(n.frac)
    ensures n.negative ==> r <= 0.0
    ensures !n.negative ==> r >= 0.0
  {
    var digits := DecimalValue(n.whole + n.frac) as real;
    var shift := n.exponent - |n.frac|;
    var magnitude := if shift >= 0 then ScaleUp(digits, shift) else ScaleDown(digits, -shift);
    if n.negative then -magnitude else magnitude
  }

  /** `$value >= PHP_INT_MIN && $value <= PHP_INT_MAX` for a numeric string. */
  predicate InIntRange(s: string)
    requires IsNumeric(s)
  {
    PHP_INT_MIN as real <= NumeralValue(ParseNumeral(s).value) <= PHP_INT_MAX as real
  }

  /** Truncation toward zero, as PHP's `(int)` cast does. */
  function Truncate(x: real): (r: int)
    ensures x >= 0.0 ==> 0 <= r && r as real <= x < r as real + 1.0
    ensures x < 0.0 ==> r <= 0 && r as real - 1.0 < x <= r as real
  {
    if x >= 0.0 then x.Floor else -((-x).Floor)
  }

  /** `(int) $value` for an in-range numeric string: its value truncated toward zero. */
  function IntCast(s: string): (r: int)
    requires IsNumeric(s) && InIntRange(s)
    ensures PHP_INT_MIN <= r <= PHP_INT_MAX
  {
    Truncate(NumeralValue(ParseNumeral(s).value))
  }

  /** A plain run of decimal digits is numeric: a positive whole part with no fraction or exponent. */
  lemma DigitsNumeral(s: string)
    requires IsDigits(s)
    ensures ParseNumeral(s) == Some(Numeral(false, s, "", 0))
  {
    assert Core(s) == s;
    assert SplitSign(s) == (false, s);
    assert 'e' !in ToLower(s) by {
      forall i | 0 <= i < |s| ensures ToLower(s)[i] != 'e' {
      }
    }
    assert SplitExponent(s) == (s, None);
    assert '.' !in s by {
      forall i | 0 <= i < |s| ensures s[i] != '.' {
      }
    }
    assert SplitPoint(s) == (s, "");
  }

  /** Such a numeral denotes the decimal value of its digits. */
  lemma DigitsValue(s: string)
    requires IsDigits(s)
    ensures NumeralValue(Numeral(false, s, "", 0)) == DecimalValue(s) as real
  {
    assert s + "" == s;
  }

  /** An in-range run of digits passes the range check and casts to its decimal value. */
  lemma DigitsCast(s: string)
    requires IsDigits(s) && DecimalValue(s) <= PHP_INT_MAX
    ensures IsNumeric(s) && InIntRange(s) && IntCast(s) == DecimalValue(s)
  {
    DigitsNumeral(s);
    DigitsValue(s);
  }
}
