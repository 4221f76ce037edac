/**
 * Decimal page numbers: Python's `int(text)` restricted to plain ASCII
 * digit strings, and `str(n)` for a non-negative integer.
 */
module PyInt {

  predicate IsDigit(c: char) {
    '0' <= c <= '9'
  }

  /** A non-empty run of ASCII decimal digits. */
  predicate IsDecimal(s: string) {
    |s| >= 1 && forall i :: 0 <= i < |s| ==> IsDigit(s[i])
  }

  /** The form `str(n)` produces: no leading zero unless the number is 0. */
  predicate IsCanonical(s: string) {
    IsDecimal(s) && (|s| == 1 || s[0] != '0')
  }

  function DigitChar(d: nat): (c: char)
    requires d < 10
    ensures IsDigit(c) && c as int - '0' as int == d
  {
    ('0' as int + d) as char
  }

  /** `int(s)` for a digit string. */
  function DecimalValue(s: string): nat
    requires IsDecimal(s)
    decreases |s|
  {
    var d := s[|s| - 1] as int - '0' as int;
    if |s| == 1 then d else 10 * DecimalValue(s[..|s| - 1]) + d
  }

  /** `str(n)`: the canonical digits of `n`, which read back as `n`. */
  function DecimalString(n: nat): (s: string)
    ensures IsCanonical(s)
    ensures DecimalValue(s) == n
    decreases n
  {
    if n < 10 then [DigitChar(n)]
    else
      var p := DecimalString(n / 10);
      var s := p + [DigitChar(n % 10)];
      assert s[..|s| - 1] == p;
      assert |p| == 1 ==> p[0] != '0';
      s
  }

  /** A digit string without a leading zero is worth at least its length allows. */
  lemma {:induction false} LeadingDigitNonZero(s: string)
    requires IsDecimal(s) && s[0] != '0'
    ensures DecimalValue(s) >= 1
    ensures |s| >= 2 ==> DecimalValue(s) >= 10
  {
    if |s| >= 2 {
      var p := s[..|s| - 1];
      assert IsDecimal(p) && p[0] == s[0];
      LeadingDigitNonZero(p);
    }
  }

  /** `str(int(s)) == s` holds exactly for the canonical digit strings. */
  lemma {:induction false} CanonicalRoundTrip(s: string)
    requires IsDecimal(s)
    ensures DecimalString(DecimalValue(s)) == s <==> IsCanonical(s)
    decreases |s|
  {
    if IsCanonical(s) && |s| >= 2 {
      var p := s[..|s| - 1];
      var d := s[|s| - 1] as int - '0' as int;
      assert IsCanonical(p) && p[0] == s[0];
      LeadingDigitNonZero(s);
      CanonicalRoundTrip(p);
      LastDigit(DecimalValue(p), d);
      assert DigitChar(d) == s[|s| - 1];
      assert s == p + [s[|s| - 1]];
    }
  }

  lemma LastDigit(q: nat, d: nat)
    requires d < 10
    ensures (10 * q + d) / 10 == q && (10 * q + d) % 10 == d
  {
  }
}
