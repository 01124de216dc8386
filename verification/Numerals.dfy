/** Which words are numbers: the signed 64-bit integers and the decimal floats of the host language. */
module Numerals {
  import opened Machine
  import opened Wrappers

  predicate IsDigit(c: char) {
    '0' <= c <= '9'
  }

  function DigitValue(c: char): (d: nat)
    requires IsDigit(c)
    ensures d < 10
  {
    (c as int) - ('0' as int)
  }

  function DigitOf(d: nat): (c: char)
    requires d < 10
    ensures IsDigit(c) && DigitValue(c) == d
  {
    "0123456789"[d]
  }

  predicate AllDigits(s: string) {
    forall i :: 0 <= i < |s| ==> IsDigit(s[i])
  }

  function NatOf(s: string): nat
    requires AllDigits(s)
  {
    if s == "" then 0 else 10 * NatOf(s[..|s| - 1]) + DigitValue(s[|s| - 1])
  }

  function ShowNat(n: nat): (s: string)
    ensures AllDigits(s) && s != ""
  {
    if n < 10 then [DigitOf(n)] else ShowNat(n / 10) + [DigitOf(n % 10)]
  }

  function ShowInt(n: int): string {
    if n < 0 then "-" + ShowNat(-n) else ShowNat(n)
  }

  /** An optional sign and at least one digit, in range; anything else is not an integer. */
  function ParseInt64(w: string): Option<Int64> {
    var signed := w != "" && (w[0] == '+' || w[0] == '-');
    var digits := if signed then w[1..] else w;
    if digits == "" || !AllDigits(digits) then None
    else
      var magnitude: int := NatOf(digits);
      var n := if signed && w[0] == '-' then -magnitude else magnitude;
      if -TWO_TO_THE_63 <= n < TWO_TO_THE_63 then Some(n) else None
  }

  function Lower(c: char): char {
    if 'A' <= c <= 'Z' then ((c as int) + 32) as char else c
  }

  function LowerAll(s: string): (r: string)
    ensures |r| == |s|
  {
    if s == "" then "" else [Lower(s[0])] + LowerAll(s[1..])
  }

  function DigitRun(s: string): (n: nat)
    ensures n <= |s|
  {
    if s == "" || !IsDigit(s[0]) then 0 else 1 + DigitRun(s[1..])
  }

  predicate IsExponent(s: string) {
    || s == ""
    || (&& (s[0] == 'e' || s[0] == 'E')
        && var t := if |s| > 1 && (s[1] == '+' || s[1] == '-') then s[2..] else s[1..];
           t != "" && AllDigits(t))
  }

  /** An optional sign, then inf, infinity, nan, or digits with an optional point and exponent. */
  predicate IsFloat64(w: string) {
    var t := if w != "" && (w[0] == '+' || w[0] == '-') then w[1..] else w;
    || LowerAll(t) == "inf" || LowerAll(t) == "infinity" || LowerAll(t) == "nan"
    || (var whole := DigitRun(t);
        var u := t[whole..];
        if u != "" && u[0] == '.' then
          var part := DigitRun(u[1..]);
          whole + part > 0 && IsExponent(u[1..][part..])
        else whole > 0 && IsExponent(u))
  }

  lemma {:induction false} ReadingAShownNat(n: nat)
    ensures NatOf(ShowNat(n)) == n
  {
    if n >= 10 {
      ReadingAShownNat(n / 10);
      assert (ShowNat(n / 10) + [DigitOf(n % 10)])[..|ShowNat(n / 10)|] == ShowNat(n / 10);
    }
  }

  lemma ReadingAShownInt(n: Int64)
    ensures ParseInt64(ShowInt(n)) == Some(n)
  {
    var m: int := n;
    var digits := ShowNat(if m < 0 then -m else m);
    ReadingAShownNat(if m < 0 then -m else m);
    if m < 0 {
      NegativesReadBack(digits, -m);
    } else {
      NaturalsReadBack(digits, m);
    }
  }

  lemma NaturalsReadBack(digits: string, m: nat)
    requires digits != "" && AllDigits(digits) && NatOf(digits) == m < TWO_TO_THE_63
    ensures ParseInt64(digits) == Some(m)
  {
    assert IsDigit(digits[0]);
  }

  lemma NegativesReadBack(digits: string, m: int)
    requires digits != "" && AllDigits(digits) && NatOf(digits) == m <= TWO_TO_THE_63
    ensures ParseInt64("-" + digits) == Some(-m)
  {
    var w := "-" + digits;
    assert w[0] == '-' && w[1..] == digits;
  }
}
