/**
 * Decimal text for integers: what Python's `'{}'.format(n)` produces for an int, and a
 * reader for it that the renderings of datedelta are proved against.
 */
module Decimal {
  import opened Wrappers

  predicate IsDigit(c: char) {
    '0' <= c <= '9'
  }

  predicate AllDigits(s: string) {
    forall i :: 0 <= i < |s| ==> IsDigit(s[i])
  }

  function DigitChar(k: int): (c: char)
    requires 0 <= k < 10
    ensures IsDigit(c) && c as int - '0' as int == k
  {
    ('0' as int + k) as char
  }

  /** The decimal digits of `n`, most significant first, without leading zeros. */
  function NatToString(n: nat): (s: string)
    ensures |s| >= 1 && AllDigits(s)
    ensures n > 0 ==> s[0] != '0'
    ensures |s| > 1 ==> s[0] != '0'
  {
    if n < 10 then [DigitChar(n)] else NatToString(n / 10) + [DigitChar(n % 10)]
  }

  /** Python's `str(n)` for an int: a minus sign for negative values, then the digits. */
  function IntToString(n: int): (s: string)
    ensures |s| >= 1
  {
    if n < 0 then "-" + NatToString(-n) else NatToString(n)
  }

  /** The number that a string of decimal digits denotes. */
  function DigitsValue(s: string): nat
    requires AllDigits(s)
  {
    if s == [] then 0 else DigitsValue(s[..|s| - 1]) * 10 + (s[|s| - 1] as int - '0' as int)
  }

  /** The length of the longest run of digits at the start of `s`. */
  function LeadingDigits(s: string): (k: nat)
    ensures k <= |s| && AllDigits(s[..k])
    ensures k < |s| ==> !IsDigit(s[k])
  {
    if s == [] || !IsDigit(s[0]) then 0
    else
      var k := 1 + LeadingDigits(s[1..]);
      assert s[..k] == [s[0]] + s[1..][..k - 1];
      k
  }

  /** The digits of a natural number as `str` writes them: no leading zero, except in "0" itself. */
  predicate Canonical(digits: string) {
    |digits| >= 1 && AllDigits(digits) && (|digits| > 1 ==> digits[0] != '0')
  }

  /**
   * Reads the run of digits at the start of `s` when it is canonical; returns its value and
   * what follows.
   */
  function ParseNatPrefix(s: string): Option<(int, string)> {
    var k := LeadingDigits(s);
    if !Canonical(s[..k]) then None else Some((DigitsValue(s[..k]) as int, s[k..]))
  }

  /**
   * Reads an optional minus sign and canonical digits ("-0" is not the text of any integer);
   * returns the number and what follows.
   */
  function ParseIntPrefix(s: string): Option<(int, string)> {
    if s != [] && s[0] == '-' then
      match ParseNatPrefix(s[1..])
      case Some((v, rest)) => if v == 0 then None else Some((-v, rest))
      case None => None
    else ParseNatPrefix(s)
  }

  lemma {:induction false} NatToStringValue(n: nat)
    ensures DigitsValue(NatToString(n)) == n
  {
    if n >= 10 {
      var s := NatToString(n);
      assert s[..|s| - 1] == NatToString(n / 10);
      NatToStringValue(n / 10);
    }
  }

  lemma {:induction false} LeadingDigitsOfDigits(s: string, rest: string)
    requires AllDigits(s)
    requires rest == [] || !IsDigit(rest[0])
    ensures LeadingDigits(s + rest) == |s|
  {
    if s != [] {
      assert (s + rest)[1..] == s[1..] + rest;
      LeadingDigitsOfDigits(s[1..], rest);
    }
  }

  lemma DigitsPrefix(digits: string, rest: string)
    requires Canonical(digits)
    requires rest == [] || !IsDigit(rest[0])
    ensures ParseNatPrefix(digits + rest) == Some((DigitsValue(digits) as int, rest))
  {
    var s := digits + rest;
    LeadingDigitsOfDigits(digits, rest);
    assert s[..|digits|] == digits;
    assert s[|digits|..] == rest;
  }

  lemma MinusPrefix(t: string, v: int, rest: string)
    requires ParseNatPrefix(t) == Some((v, rest)) && v != 0
    ensures ParseIntPrefix("-" + t) == Some((-v, rest))
  {
    assert ("-" + t)[1..] == t;
  }

  lemma NegativeRoundTrip(n: int, rest: string)
    requires n < 0
    requires rest == [] || !IsDigit(rest[0])
    ensures ParseIntPrefix(IntToString(n) + rest) == Some((n, rest))
  {
    var digits := NatToString(-n);
    assert ParseNatPrefix(digits + rest) == Some((-n, rest)) by {
      NatToStringValue(-n);
      DigitsPrefix(digits, rest);
    }
    MinusPrefix(digits + rest, -n, rest);
    assert IntToString(n) + rest == "-" + (digits + rest);
  }

  lemma NonNegativeRoundTrip(n: int, rest: string)
    requires n >= 0
    requires rest == [] || !IsDigit(rest[0])
    ensures ParseIntPrefix(IntToString(n) + rest) == Some((n, rest))
  {
    var digits := NatToString(n);
    NatToStringValue(n);
    DigitsPrefix(digits, rest);
    assert (digits + rest)[0] == digits[0];
  }

  /** Reading back the text of any integer, followed by anything but a digit, gives that integer. */
  lemma ParseIntPrefixRoundTrip(n: int, rest: string)
    requires rest == [] || !IsDigit(rest[0])
    ensures ParseIntPrefix(IntToString(n) + rest) == Some((n, rest))
  {
    if n < 0 {
      NegativeRoundTrip(n, rest);
    } else {
      NonNegativeRoundTrip(n, rest);
    }
  }

  /** Different integers have different texts. */
  lemma IntToStringInjective(a: int, b: int)
    requires IntToString(a) == IntToString(b)
    ensures a == b
  {
    ParseIntPrefixRoundTrip(a, "");
    ParseIntPrefixRoundTrip(b, "");
    assert IntToString(a) + "" == IntToString(a);
    assert IntToString(b) + "" == IntToString(b);
  }

  /** Canonical digits other than "0" denote a positive number. */
  lemma {:induction false} CanonicalPositive(digits: string)
    requires Canonical(digits) && digits != "0"
    ensures DigitsValue(digits) > 0
  {
    if |digits| > 1 {
      var init := digits[..|digits| - 1];
      assert init[0] == digits[0];
      CanonicalPositive(init);
    }
  }

  /** Canonical digits are the text of the number they denote. */
  lemma {:induction false} CanonicalDigits(digits: string)
    requires Canonical(digits)
    ensures NatToString(DigitsValue(digits)) == digits
  {
    if |digits| > 1 {
      var init, last := digits[..|digits| - 1], digits[|digits| - 1];
      assert Canonical(init) && init != "0" by {
        assert init[0] == digits[0];
      }
      CanonicalPositive(init);
      CanonicalDigits(init);
      var q, r := DigitsValue(init), last as int - '0' as int;
      var n := DigitsValue(digits);
      assert n / 10 == q && n % 10 == r by {
        assert n == q * 10 + r && 0 <= r < 10;
      }
      assert DigitChar(r) == last;
      assert NatToString(n) == NatToString(q) + [DigitChar(r)];
      assert digits == init + [last];
    }
  }

  /**
   * The reader accepts only the texts of integers: whatever it reads is the text of the
   * number it returns, followed by something that does not start with a digit.
   */
  lemma ParseIntPrefixExact(s: string)
    requires ParseIntPrefix(s).Some?
    ensures s == IntToString(ParseIntPrefix(s).value.0) + ParseIntPrefix(s).value.1
    ensures var rest := ParseIntPrefix(s).value.1; rest == [] || !IsDigit(rest[0])
  {
    if s != [] && s[0] == '-' {
      var t := s[1..];
      var k := LeadingDigits(t);
      CanonicalDigits(t[..k]);
      assert t == t[..k] + t[k..];
      assert s == "-" + t;
    } else {
      var k := LeadingDigits(s);
      CanonicalDigits(s[..k]);
      assert s == s[..k] + s[k..];
    }
  }
}
