/** Text and decimal digits, as several of the tools use them. */
module Strings {

  predicate Contains(text: string, part: string) {
    exists i :: 0 <= i <= |text| && part <= text[i..]
  }

  lemma ContainsMeans(text: string, part: string)
    ensures Contains(text, part) <==> exists a, b :: text == a + part + b
  {
    if Contains(text, part) {
      var i :| 0 <= i <= |text| && part <= text[i..];
      assert text == text[..i] + part + text[i + |part|..];
    }
    if a, b :| text == a + part + b {
      assert text[|a|..] == part + b;
    }
  }

  predicate IsDigit(c: char) {
    '0' <= c <= '9'
  }

  lemma DigitsAreTen(c: char)
    ensures IsDigit(c) <==> c in "0123456789"
  {
    assert "0123456789" == ['0', '1', '2', '3', '4', '5', '6', '7', '8', '9'];
  }

  /** `bytes.isdigit`: at least one digit, and nothing else. */
  predicate AllDigits(s: string) {
    s != "" && forall i :: 0 <= i < |s| ==> IsDigit(s[i])
  }

  function Value(s: string): nat
    requires forall i :: 0 <= i < |s| ==> IsDigit(s[i])
  {
    if s == "" then 0
    else
      assert IsDigit(s[|s| - 1]);
      10 * Value(s[..|s| - 1]) + (s[|s| - 1] as int - '0' as int)
  }

  /** Zeros in front change nothing. */
  lemma {:induction false} LeadingZero(s: string)
    requires AllDigits(s)
    ensures AllDigits("0" + s) && Value("0" + s) == Value(s)
  {
    var t := "0" + s;
    assert forall i :: 0 <= i < |t| ==> IsDigit(t[i]);
    assert t[..|t| - 1] == "0" + s[..|s| - 1];
    if |s| > 1 { LeadingZero(s[..|s| - 1]); } else { assert s[..|s| - 1] == "" && t[..|t| - 1] == "0"; }
  }

  /** The decimal form of a positive number does not begin with a zero. */
  lemma {:induction false} DecimalIsPlain(n: nat)
    requires n > 0
    ensures Decimal(n)[0] != '0'
  {
    if n >= 10 { DecimalIsPlain(n / 10); }
  }

  function Decimal(n: nat): (s: string)
    ensures AllDigits(s) && Value(s) == n
  {
    var last := ['0' + (n % 10) as char];
    if n < 10 then last
    else
      var front := Decimal(n / 10);
      assert (front + last)[..|front|] == front;
      front + last
  }
}
