/**
 * Decimal rendering of a natural number, as a template literal such as
 * `Min is ${num}` renders a non-negative integer below 10^21 that is
 * exactly representable as a JavaScript Number (below 2^53); larger
 * Numbers are rendered in exponent form or inexactly, which this model
 * does not capture.
 */
module Decimal {
  import opened CharClasses

  function DigitChar(d: nat): (c: char)
    requires d < 10
    ensures IsDigit(c) && c as int - '0' as int == d
  {
    ('0' as int + d) as char
  }

  /** The shortest decimal numeral of n: digits only, with no leading zero. */
  function NatToString(n: nat): (s: string)
    ensures |s| >= 1 && AllDigits(s)
    ensures (s[0] == '0') == (n == 0)
    ensures s[0] == '0' ==> s == "0"
    decreases n
  {
    if n < 10 then [DigitChar(n)] else NatToString(n / 10) + [DigitChar(n % 10)]
  }

  /** The value a decimal numeral denotes. */
  function StringToNat(s: string): nat
    requires AllDigits(s)
  {
    if s == [] then 0
    else StringToNat(s[..|s| - 1]) * 10 + (s[|s| - 1] as int - '0' as int)
  }

  /** Reading back the rendered numeral gives the number itself. */
  lemma {:induction false} DecimalRoundTrip(n: nat)
    ensures StringToNat(NatToString(n)) == n
    decreases n
  {
    var s := NatToString(n);
    if n >= 10 {
      DecimalRoundTrip(n / 10);
      assert s[..|s| - 1] == NatToString(n / 10);
    }
  }
}
