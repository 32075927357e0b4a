/** Decimal rendering of an integer, as JavaScript's `Number.prototype.toString()` and a
    template literal `${n}` produce it for an integral value: an optional minus sign followed
    by the digits of the magnitude, with no leading zeros. `ParseInt` is its inverse. */
module Decimal {
  import opened Options

  predicate IsDigit(c: char) {
    '0' <= c <= '9'
  }

  predicate AllDigits(s: string) {
    forall i :: 0 <= i < |s| ==> IsDigit(s[i])
  }

  function DigitChar(d: nat): (c: char)
    requires d < 10
    ensures IsDigit(c)
    ensures c == '0' <==> d == 0
  {
    ('0' as int + d) as char
  }

  function DigitValue(c: char): (d: nat)
    requires IsDigit(c)
    ensures d < 10
    ensures DigitChar(d) == c
  {
    c as int - '0' as int
  }

  /** Reads a string of digits as a natural number, most significant digit first. */
  function DecimalToNat(s: string): (n: nat)
    requires AllDigits(s)
    decreases |s|
  {
    if |s| == 0 then 0 else DecimalToNat(s[..|s| - 1]) * 10 + DigitValue(s[|s| - 1])
  }

  /** The shortest decimal numeral of `n`; reading it back gives `n`. */
  function NatToDecimal(n: nat): (s: string)
    ensures |s| > 0 && AllDigits(s)
    ensures s[0] == '0' <==> n == 0
    ensures DecimalToNat(s) == n
    decreases n
  {
    if n < 10 then
      [DigitChar(n)]
    else
      var t := NatToDecimal(n / 10);
      var s := t + [DigitChar(n % 10)];
      assert s[..|s| - 1] == t;
      s
  }

  /** A digit string with no superfluous leading zero: "0" itself, or digits led by a
      non-zero digit. */
  predicate Unpadded(s: string) {
    |s| > 0 && AllDigits(s) && (s[0] == '0' ==> s == "0")
  }

  /** The numeral form `toString()` gives an integral number: an unpadded digit string,
      or a minus sign followed by one that is not "0". */
  predicate Canonical(s: string) {
    Unpadded(s) || (|s| > 1 && s[0] == '-' && Unpadded(s[1..]) && s[1] != '0')
  }

  /** What `n.toString()` yields for an integral number `n`. */
  function IntToDecimal(n: int): (s: string)
    ensures |s| > 0
    ensures s[0] == '-' <==> n < 0
    ensures n >= 0 ==> AllDigits(s) && (s[0] == '0' ==> s == "0")
    ensures n < 0 ==> |s| > 1 && AllDigits(s[1..]) && s[1] != '0'
    ensures Canonical(s)
    ensures ',' !in s && '\n' !in s
  {
    if n < 0 then "-" + NatToDecimal(-n) else NatToDecimal(n)
  }

  /** Reads an optionally signed decimal numeral; anything else is rejected. */
  function ParseInt(s: string): Option<int> {
    if |s| > 1 && s[0] == '-' && AllDigits(s[1..]) then Some(-(DecimalToNat(s[1..]) as int))
    else if |s| > 0 && AllDigits(s) then Some(DecimalToNat(s))
    else None
  }

  /** Rendering an integer and reading it back gives the integer again, so no two
      years share a rendering. */
  lemma IntRoundTrip(n: int)
    ensures ParseInt(IntToDecimal(n)) == Some(n)
  {
  }

  /** A digit string led by a non-zero digit denotes a positive number. */
  lemma {:induction false} LeadingDigitPositive(s: string)
    requires AllDigits(s) && |s| > 0 && s[0] != '0'
    ensures DecimalToNat(s) > 0
    decreases |s|
  {
    if |s| > 1 {
      var t := s[..|s| - 1];
      assert t[0] == s[0];
      LeadingDigitPositive(t);
    }
  }

  /** An unpadded digit string is the numeral `NatToDecimal` gives for its value. */
  lemma {:induction false} UnpaddedIsNumeral(s: string)
    requires Unpadded(s)
    ensures NatToDecimal(DecimalToNat(s)) == s
    decreases |s|
  {
    if |s| > 1 {
      var t := s[..|s| - 1];
      assert t[0] == s[0] && s[0] != '0';
      LeadingDigitPositive(t);
      UnpaddedIsNumeral(t);
      var n := DecimalToNat(s);
      assert n / 10 == DecimalToNat(t) && n % 10 == DigitValue(s[|s| - 1]);
      assert s == t + [s[|s| - 1]];
    }
  }

  /** The canonical numeral of a number is unique: any canonical string that reads back
      as `n` is exactly `IntToDecimal(n)`. */
  lemma {:induction false} CanonicalIsRendering(s: string, n: int)
    requires Canonical(s) && ParseInt(s) == Some(n)
    ensures s == IntToDecimal(n)
  {
    if Unpadded(s) {
      UnpaddedIsNumeral(s);
    } else {
      var u := s[1..];
      LeadingDigitPositive(u);
      UnpaddedIsNumeral(u);
      assert s == "-" + u;
    }
  }

  lemma IntToDecimalInjective(a: int, b: int)
    ensures IntToDecimal(a) == IntToDecimal(b) <==> a == b
  {
    IntRoundTrip(a);
    IntRoundTrip(b);
  }
}
