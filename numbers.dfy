/**
 * StringToInt: the text must match `^[+]?([0-9]+)$`, an optional single '+'
 * and at least one decimal digit; the digits are then converted by
 * std::stoi into a 32-bit int. No match gives 0, and so does a value above
 * INT_MAX, because stoi's out_of_range exception is caught and dropped.
 */
module Numbers {

  /** INT_MAX of a 32-bit int. */
  const IntMax := 0x7fff_ffff

  predicate IsDigit(c: char) {
    '0' <= c <= '9'
  }

  /** A non-empty run of decimal digits: the capture group `([0-9]+)`. */
  predicate AllDigits(s: string) {
    |s| > 0 && forall i :: 0 <= i < |s| ==> IsDigit(s[i])
  }

  /** The text after the optional leading '+'. */
  function Unsigned(value: string): string {
    if |value| > 0 && value[0] == '+' then value[1..] else value
  }

  /** The whole text matches `^[+]?([0-9]+)$`. */
  predicate Matches(value: string) {
    AllDigits(Unsigned(value))
  }

  function DigitValue(c: char): nat
    requires IsDigit(c)
  {
    (c as int - '0' as int) as nat
  }

  /** The value of a run of decimal digits, most significant first; leading zeros add nothing. */
  function DecimalValue(digits: string): nat
    requires forall i :: 0 <= i < |digits| ==> IsDigit(digits[i])
  {
    if digits == [] then 0
    else DecimalValue(digits[..|digits| - 1]) * 10 + DigitValue(digits[|digits| - 1])
  }

  /** StringToInt: the matched value when it fits an int, otherwise 0. */
  function StringToInt(value: string): (n: int)
    ensures 0 <= n <= IntMax
    ensures n != 0 ==> Matches(value)
  {
    if !Matches(value) then 0
    else
      var v := DecimalValue(Unsigned(value));
      if v <= IntMax then v else 0
  }

  function DigitChar(d: nat): char
    requires d < 10
  {
    ('0' as int + d) as char
  }

  /** The shortest decimal text of `n`. */
  function DecimalString(n: nat): (s: string)
    ensures AllDigits(s)
  {
    if n < 10 then [DigitChar(n)] else DecimalString(n / 10) + [DigitChar(n % 10)]
  }

  /** Reading back the decimal text of `n` gives `n`. */
  lemma {:induction false} DecimalRoundTrip(n: nat)
    ensures DecimalValue(DecimalString(n)) == n
  {
    if n >= 10 {
      var s := DecimalString(n);
      assert s[..|s| - 1] == DecimalString(n / 10);
      DecimalRoundTrip(n / 10);
    }
  }

  /** Every int from 0 to INT_MAX survives DecimalString then StringToInt, with or without a '+'. */
  lemma StringToIntRoundTrip(n: nat)
    requires n <= IntMax
    ensures StringToInt(DecimalString(n)) == n
    ensures StringToInt("+" + DecimalString(n)) == n
  {
    DecimalRoundTrip(n);
    var s := DecimalString(n);
    assert s[0] != '+';
    assert Unsigned(s) == s;
    assert Unsigned("+" + s) == s;
  }

  /** A value above INT_MAX reads as 0. */
  lemma StringToIntOverflow(n: nat)
    requires n > IntMax
    ensures StringToInt(DecimalString(n)) == 0
  {
    DecimalRoundTrip(n);
    assert Unsigned(DecimalString(n)) == DecimalString(n);
  }

  /** A leading zero changes nothing. */
  lemma {:induction false} LeadingZero(digits: string)
    requires forall i :: 0 <= i < |digits| ==> IsDigit(digits[i])
    ensures DecimalValue("0" + digits) == DecimalValue(digits)
    decreases |digits|
  {
    if digits != [] {
      var s := "0" + digits;
      assert s[..|s| - 1] == "0" + digits[..|digits| - 1];
      LeadingZero(digits[..|digits| - 1]);
    }
  }

  /** "007" and "7" read the same. */
  lemma StringToIntLeadingZero(digits: string)
    requires AllDigits(digits)
    ensures StringToInt("0" + digits) == StringToInt(digits)
  {
    LeadingZero(digits);
    assert Unsigned("0" + digits) == "0" + digits;
    assert digits[0] != '+';
  }

  /** Text that does not match reads as 0: the empty string, a sign but no digits, two signs, a minus, trailing text. */
  lemma StringToIntRejects()
    ensures StringToInt("") == 0
    ensures StringToInt("+") == 0
    ensures StringToInt("++1") == 0
    ensures StringToInt("-1") == 0
    ensures StringToInt("1x") == 0
    ensures StringToInt(" 1") == 0
  {
    assert !IsDigit("++1"[1..][0]);
    assert !IsDigit("-1"[0]);
    assert !IsDigit("1x"[1]);
    assert !IsDigit(" 1"[0]);
  }
}
