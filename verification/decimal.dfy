/**
 * Decimal digit strings: what Python's `int()` does with the digit groups
 * captured from an uptime string, and with a stored attribute that is text.
 * Only the ASCII digits '0'..'9' are digits here.
 */
module Decimal {
  import opened Wrappers

  predicate IsDigit(c: char) {
    '0' <= c <= '9'
  }

  predicate AllDigits(s: string) {
    forall i :: 0 <= i < |s| ==> IsDigit(s[i])
  }

  function DigitValue(c: char): (d: nat)
    requires IsDigit(c)
    ensures d < 10
  {
    (c as int) - ('0' as int)
  }

  function DigitChar(d: nat): (c: char)
    requires d < 10
    ensures IsDigit(c) && DigitValue(c) == d
  {
    ('0' as int + d) as char
  }

  function Pow10(k: nat): (p: nat)
    ensures p >= 1
  {
    if k == 0 then 1 else 10 * Pow10(k - 1)
  }

  /** The number a string of decimal digits denotes, most significant digit first. */
  function DigitsValue(s: string): (n: nat)
    requires AllDigits(s)
    ensures n < Pow10(|s|)
    decreases |s|
  {
    if s == [] then 0 else 10 * DigitsValue(s[..|s| - 1]) + DigitValue(s[|s| - 1])
  }

  /** The shortest decimal spelling of `n` (Python's `str(n)` for a natural number). */
  function NatToDigits(n: nat): (s: string)
    ensures |s| >= 1 && AllDigits(s)
    decreases n
  {
    if n < 10 then [DigitChar(n)] else NatToDigits(n / 10) + [DigitChar(n % 10)]
  }

  /** A two-digit field with a leading zero, as in "07". */
  function TwoDigits(n: nat): (s: string)
    requires n < 100
    ensures |s| == 2 && AllDigits(s) && DigitsValue(s) == n
  {
    var s := [DigitChar(n / 10), DigitChar(n % 10)];
    assert s[..1] == [DigitChar(n / 10)];
    assert s[..1][..0] == [];
    s
  }

  lemma {:induction false} DigitsRoundTrip(n: nat)
    ensures DigitsValue(NatToDigits(n)) == n
    decreases n
  {
    var s := NatToDigits(n);
    if n < 10 {
      assert s[..0] == [];
    } else {
      DigitsRoundTrip(n / 10);
      assert s[..|s| - 1] == NatToDigits(n / 10);
    }
  }

  /**
   * The length of the longest run of digits at the start of `s`: how far the
   * greedy `\d+` of a regular expression reaches.
   */
  function LeadingDigits(s: string): (k: nat)
    ensures k <= |s| && AllDigits(s[..k])
    ensures k < |s| ==> !IsDigit(s[k])
    decreases |s|
  {
    if s == [] || !IsDigit(s[0]) then 0
    else
      var k := 1 + LeadingDigits(s[1..]);
      assert forall i :: 1 <= i < k ==> s[..k][i] == s[1..][..k - 1][i - 1];
      k
  }

  /** A digit run followed by a non-digit can only end where the greedy run ends. */
  lemma DigitRunEndsAtLeading(s: string, k: nat)
    requires k < |s| && AllDigits(s[..k]) && !IsDigit(s[k])
    ensures k == LeadingDigits(s)
  {
  }

  /**
   * Python's `int()` on text, restricted to an optional '-' followed by ASCII
   * digits; any other text is rejected.
   */
  function ParseInt(t: string): (r: Option<int>)
    ensures r.Some? <==> (|t| >= 1 && AllDigits(t)) || (|t| >= 2 && t[0] == '-' && AllDigits(t[1..]))
  {
    if |t| >= 1 && AllDigits(t) then Some(DigitsValue(t))
    else if |t| >= 2 && t[0] == '-' && AllDigits(t[1..]) then Some(-(DigitsValue(t[1..]) as int))
    else None
  }

  /** Python's `str(n)` for any integer. */
  function IntToText(n: int): (t: string)
  {
    if n >= 0 then NatToDigits(n) else "-" + NatToDigits(-n)
  }

  lemma IntTextRoundTrip(n: int)
    ensures ParseInt(IntToText(n)) == Some(n)
  {
    if n >= 0 {
      DigitsRoundTrip(n);
    } else {
      var t := IntToText(n);
      assert t[1..] == NatToDigits(-n);
      DigitsRoundTrip(-n);
    }
  }
}
