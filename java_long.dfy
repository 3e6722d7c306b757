/** Java's fixed-width integers and the library routines on them that the
    test controller relies on: `Long.parseLong` (radix 10), `Long.toString`,
    the `++` of a `long` and `Math.max` on `int`. */
module JavaLong {
  import opened Optional

  const LONG_MIN: int := -0x8000_0000_0000_0000
  const LONG_MAX: int := 0x7FFF_FFFF_FFFF_FFFF
  const INT_MIN: int := -0x8000_0000
  const INT_MAX: int := 0x7FFF_FFFF

  /** A Java `long`. */
  type Int64 = x: int | LONG_MIN <= x <= LONG_MAX

  /** A Java `int`. */
  type Int32 = x: int | INT_MIN <= x <= INT_MAX

  predicate IsDigit(c: char) {
    '0' <= c <= '9'
  }

  predicate AllDigits(s: string) {
    forall i :: 0 <= i < |s| ==> IsDigit(s[i])
  }

  function DigitValue(c: char): (d: nat)
    requires IsDigit(c)
    ensures d < 10
  {
    c as int - '0' as int
  }

  function DigitChar(d: nat): (c: char)
    requires d < 10
    ensures IsDigit(c) && DigitValue(c) == d
  {
    ('0' as int + d) as char
  }

  /** The number that a string of decimal digits denotes, most significant digit first. */
  function DigitsValue(s: string): nat
    requires AllDigits(s)
  {
    if |s| == 0 then 0 else DigitsValue(s[..|s| - 1]) * 10 + DigitValue(s[|s| - 1])
  }

  /** The decimal digits of n without leading zeros ("0" for zero): they denote n. */
  function NatDigits(n: nat): (s: string)
    ensures |s| > 0 && AllDigits(s)
    ensures DigitsValue(s) == n
    ensures s[0] == '0' ==> n == 0
  {
    if n < 10 then [DigitChar(n)]
    else
      var prefix := NatDigits(n / 10);
      assert (prefix + [DigitChar(n % 10)])[..|prefix|] == prefix;
      prefix + [DigitChar(n % 10)]
  }

  /** `Long.toString(n)`, which is also what `"..." + n` writes. */
  function FormatLong(n: Int64): (s: string)
    ensures |s| > 0 && ' ' !in s
  {
    if n < 0 then "-" + NatDigits(-(n as int)) else NatDigits(n)
  }

  /** `Long.parseLong(s)`: an optional '-' or '+', then one or more decimal
      digits whose signed value fits a `long`. `None` stands for the
      NumberFormatException thrown otherwise. */
  function ParseLong(s: string): (r: Option<Int64>)
    ensures r.Some? ==> |s| > 0 && ' ' !in s
  {
    if |s| == 0 then None
    else
      var negative := s[0] == '-';
      var digits := if s[0] == '-' || s[0] == '+' then s[1..] else s;
      if |digits| == 0 || !AllDigits(digits) then None
      else
        var magnitude: int := DigitsValue(digits);
        var v := if negative then -magnitude else magnitude;
        if LONG_MIN <= v <= LONG_MAX then Some(v) else None
  }

  /** Every `long` survives printing and parsing back. */
  lemma ParseFormatRoundTrip(n: Int64)
    ensures ParseLong(FormatLong(n)) == Some(n)
  {
    if n < 0 {
      var digits := NatDigits(-(n as int));
      assert ("-" + digits)[1..] == digits;
    }
  }

  /** The text of a number beyond `Long.MAX_VALUE` does not parse. */
  lemma ParseLongRejectsOverflow(m: nat)
    requires m > LONG_MAX
    ensures ParseLong(NatDigits(m)) == None
    ensures ParseLong("-" + NatDigits(m + 1)) == None
  {
    var digits := NatDigits(m + 1);
    assert ("-" + digits)[1..] == digits;
  }

  /** The empty string and a bare sign are not numbers. */
  lemma ParseLongRejectsNoDigits()
    ensures ParseLong("") == None
    ensures ParseLong("-") == None && ParseLong("+") == None
  {
  }

  /** An optional sign and one or more digits parse to their signed value,
      leading zeros and a '+' included, exactly when it fits a `long`. */
  lemma ParseLongOfSignedDigits(sign: string, digits: string)
    requires sign == "" || sign == "+" || sign == "-"
    requires |digits| > 0 && AllDigits(digits)
    ensures var v := if sign == "-" then -(DigitsValue(digits) as int) else DigitsValue(digits);
      ParseLong(sign + digits) == if LONG_MIN <= v <= LONG_MAX then Some(v) else None
  {
    if sign == "" {
      assert sign + digits == digits;
      ParseLongUnsigned(digits);
    } else {
      assert sign == [sign[0]];
      ParseLongSigned(sign[0], digits);
    }
  }

  lemma ParseLongUnsigned(digits: string)
    requires |digits| > 0 && AllDigits(digits)
    ensures ParseLong(digits) == if DigitsValue(digits) <= LONG_MAX then Some(DigitsValue(digits)) else None
  {
    assert IsDigit(digits[0]);
  }

  lemma ParseLongSigned(sign: char, digits: string)
    requires sign == '-' || sign == '+'
    requires |digits| > 0 && AllDigits(digits)
    ensures var v := if sign == '-' then -(DigitsValue(digits) as int) else DigitsValue(digits);
      ParseLong([sign] + digits) == if LONG_MIN <= v <= LONG_MAX then Some(v) else None
  {
    var s := [sign] + digits;
    assert s[0] == sign && s[1..] == digits;
    var magnitude: int := DigitsValue(digits);
    if sign == '-' {
      assert ParseLong(s) == if LONG_MIN <= -magnitude <= LONG_MAX then Some(-magnitude) else None;
    } else {
      assert ParseLong(s) == if LONG_MIN <= magnitude <= LONG_MAX then Some(magnitude) else None;
    }
  }

  /** A text with a character that is neither a digit nor a leading sign does not parse. */
  lemma ParseLongRejectsNonDigit(s: string, i: nat)
    requires i < |s| && !IsDigit(s[i])
    requires i > 0 || (s[0] != '-' && s[0] != '+')
    ensures ParseLong(s) == None
  {
    if i > 0 && (s[0] == '-' || s[0] == '+') {
      assert s[1..][i - 1] == s[i];
    }
  }

  /** Leading zeros and a '+' are accepted, as `Long.parseLong` accepts them. */
  lemma ParseLongExamples()
    ensures ParseLong("007") == Some(7)
    ensures ParseLong("+5") == Some(5)
    ensures ParseLong("1a") == None
  {
    ParseLongOfSignedDigits("", "007");
    assert DigitsValue("007") == 7 by {
      assert "007"[..2] == "00" && "00"[..1] == "0" && "0"[..0] == "";
    }
    ParseLongOfSignedDigits("+", "5");
    assert DigitsValue("5") == 5 by {
      assert "5"[..0] == "";
    }
    ParseLongRejectsNonDigit("1a", 1);
  }

  /** `x++` on a Java `long`: two's-complement arithmetic modulo 2^64. */
  function Inc64(x: Int64): (r: Int64)
    ensures x < LONG_MAX ==> r == x + 1
    ensures x == LONG_MAX ==> r == LONG_MIN
  {
    (x - LONG_MIN + 1) % 0x1_0000_0000_0000_0000 + LONG_MIN
  }

  /** `Math.max(a, b)` on Java `int`s. */
  function Max32(a: Int32, b: Int32): (r: Int32)
    ensures r >= a && r >= b
    ensures r == a || r == b
  {
    if a >= b then a else b
  }
}
