/**
 * How Python's f-string shows a float that was rounded to one decimal
 * (`f"{-17.3}"` is "-17.3", `f"{-17.0}"` is "-17.0"), on temperatures held
 * as integer tenths, together with the parser that reads such text back.
 */
module Format {
  import opened Wrappers

  predicate IsDigit(c: char) {
    '0' <= c <= '9'
  }

  predicate AllDigits(s: string) {
    forall i :: 0 <= i < |s| ==> IsDigit(s[i])
  }

  function DigitChar(d: nat): (c: char)
    requires d < 10
    ensures IsDigit(c) && DigitValue(c) == d
  {
    ('0' as int + d) as char
  }

  function DigitValue(c: char): nat
    requires IsDigit(c)
  {
    c as int - '0' as int
  }

  /** Decimal notation of a natural number, most significant digit first, no leading zeros. */
  function NatToDecimal(n: nat): (s: string)
    ensures s != [] && AllDigits(s)
    ensures |s| == 1 <==> n < 10
    ensures n >= 10 ==> s[0] != '0'
  {
    if n < 10 then [DigitChar(n)] else NatToDecimal(n / 10) + [DigitChar(n % 10)]
  }

  /** The value of a string of decimal digits. */
  function DecimalValue(s: string): nat
    requires AllDigits(s)
  {
    if s == [] then 0 else 10 * DecimalValue(s[..|s| - 1]) + DigitValue(s[|s| - 1])
  }

  lemma {:induction false} DecimalRoundTrip(n: nat)
    ensures DecimalValue(NatToDecimal(n)) == n
  {
    var s := NatToDecimal(n);
    if n >= 10 {
      DecimalRoundTrip(n / 10);
      assert s[..|s| - 1] == NatToDecimal(n / 10);
    }
  }

  function Abs(t: int): nat {
    if t < 0 then -t else t
  }

  /**
   * The text Python prints for the one-decimal float t / 10, for |t| < 10^15
   * (at most fifteen significant digits, all of which a double keeps);
   * negative zero is not represented.
   */
  function FormatTenths(t: int): string {
    var m := Abs(t);
    (if t < 0 then "-" else "") + NatToDecimal(m / 10) + "." + [DigitChar(m % 10)]
  }

  /** Reads back an optional '-', a non-empty run of digits, '.', and one digit. */
  function ParseTenths(s: string): Option<int> {
    if |s| < 3 || s[|s| - 2] != '.' || !IsDigit(s[|s| - 1]) then None
    else
      var negative := s[0] == '-';
      var whole := s[(if negative then 1 else 0)..|s| - 2];
      if whole == [] || !AllDigits(whole) then None
      else
        var m := 10 * DecimalValue(whole) + DigitValue(s[|s| - 1]);
        Some(if negative then -m else m)
  }

  /** Every temperature is shown exactly: parsing its text gives the value back. */
  lemma FormatTenthsRoundTrip(t: int)
    ensures ParseTenths(FormatTenths(t)) == Some(t)
  {
    var m := Abs(t);
    var w := NatToDecimal(m / 10);
    var sign := if t < 0 then "-" else "";
    var s := FormatTenths(t);
    assert s == sign + w + "." + [DigitChar(m % 10)];
    assert s[|s| - 2] == '.';
    assert s[|s| - 1] == DigitChar(m % 10);
    assert s[0] == '-' <==> t < 0 by {
      if t >= 0 { assert s[0] == w[0]; }
    }
    assert s[(if t < 0 then 1 else 0)..|s| - 2] == w;
    DecimalRoundTrip(m / 10);
  }

  /** A temperature of the generated range is always shown as "-1d.d". */
  lemma FormatInRange(t: int)
    requires -199 <= t <= -100
    ensures |FormatTenths(t)| == 5
    ensures FormatTenths(t)[..2] == "-1" && FormatTenths(t)[3] == '.'
  {
    var m := Abs(t);
    assert m / 10 >= 10 && m / 10 < 20;
    assert NatToDecimal(m / 10) == NatToDecimal(1) + [DigitChar(m / 10 % 10)];
  }
}
