/**
  Python's `str(n)` for a non-negative integer (the placeholder index that
  `"{}".format(index)` prints), and its inverse, reading a run of decimal digits.
 */
module Decimal {

  predicate IsDigit(ch: char)
  {
    '0' <= ch <= '9'
  }

  predicate AllDigits(s: string)
  {
    forall k :: 0 <= k < |s| ==> IsDigit(s[k])
  }

  function DigitChar(d: nat): (ch: char)
    requires d < 10
    ensures IsDigit(ch) && DigitValue(ch) == d
  {
    ('0' as int + d) as char
  }

  function DigitValue(ch: char): nat
    requires IsDigit(ch)
  {
    ch as int - '0' as int
  }

  /** Decimal rendering without leading zeros: at least one digit, and a leading `0` only for zero itself. */
  function NatToString(n: nat): (s: string)
    ensures |s| >= 1 && AllDigits(s)
    ensures s[0] == '0' <==> n == 0
    decreases n
  {
    if n < 10 then [DigitChar(n)]
    else NatToString(n / 10) + [DigitChar(n % 10)]
  }

  /** The value of a string of decimal digits, most significant first. */
  function ParseDecimal(s: string): nat
    requires AllDigits(s)
  {
    if |s| == 0 then 0
    else 10 * ParseDecimal(s[..|s| - 1]) + DigitValue(s[|s| - 1])
  }

  /** Reading back a rendered number gives the number. */
  lemma {:induction false} ParseNatToString(n: nat)
    ensures ParseDecimal(NatToString(n)) == n
    decreases n
  {
    var s := NatToString(n);
    if n >= 10 {
      ParseNatToString(n / 10);
      assert s[..|s| - 1] == NatToString(n / 10);
    }
  }

  /** Length of the longest all-digit prefix of `s`. */
  function DigitSpan(s: string): (k: nat)
    ensures k <= |s| && AllDigits(s[..k])
    ensures k < |s| ==> !IsDigit(s[k])
  {
    if |s| > 0 && IsDigit(s[0]) then
      var k := 1 + DigitSpan(s[1..]);
      assert forall j :: 1 <= j < k ==> s[..k][j] == s[1..][..k - 1][j - 1];
      k
    else 0
  }

  /** The digit run of `a + b` is exactly `a` when `a` is all digits and `b` does not start with one. */
  lemma {:induction false} DigitSpanOfDigits(a: string, b: string)
    requires AllDigits(a)
    requires |b| > 0 ==> !IsDigit(b[0])
    ensures DigitSpan(a + b) == |a|
  {
    if |a| > 0 {
      DigitSpanOfDigits(a[1..], b);
      assert (a + b)[1..] == a[1..] + b;
    }
  }
}
