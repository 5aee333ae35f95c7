/**
 * The string conversions of the PHP runtime that the collection relies on:
 * an integer turned into its decimal text (`$haystack .= $asset->weight()`),
 * the reverse reading that PHP applies to string array keys, and the
 * truthiness of a string (`! $asset->source_file()`).
 */
module PhpStrings {
  import opened Wrappers

  predicate IsDigit(c: char) {
    '0' <= c <= '9'
  }

  predicate AllDigits(s: string) {
    forall i :: 0 <= i < |s| ==> IsDigit(s[i])
  }

  function DigitChar(d: nat): (c: char)
    requires d < 10
    ensures IsDigit(c) && c as int - '0' as int == d
  {
    ('0' as int + d) as char
  }

  function DigitValue(c: char): (d: nat)
    requires IsDigit(c)
    ensures d < 10 && DigitChar(d) == c
  {
    c as int - '0' as int
  }

  /** Decimal text of a natural number, without leading zeros. */
  function NatToString(n: nat): (s: string)
    ensures |s| > 0 && AllDigits(s)
    ensures s[0] == '0' <==> n == 0
    decreases n
  {
    if n < 10 then [DigitChar(n)] else NatToString(n / 10) + [DigitChar(n % 10)]
  }

  /** PHP's conversion of an integer to a string: decimal, with a leading '-' when negative. */
  function IntToString(n: int): (s: string)
    ensures |s| > 0
    ensures s[0] == '-' <==> n < 0
  {
    if n < 0 then "-" + NatToString(-n) else NatToString(n)
  }

  /** The value of a string of decimal digits. */
  function DigitsValue(s: string): nat
    requires AllDigits(s)
  {
    if s == [] then 0 else DigitsValue(s[..|s| - 1]) * 10 + DigitValue(s[|s| - 1])
  }

  /** A decimal numeral in the form PHP treats as an integer array key: no sign, no leading zero. */
  predicate IsCanonicalNat(s: string) {
    |s| > 0 && AllDigits(s) && (|s| > 1 ==> s[0] != '0')
  }

  /**
   * The integer a string stands for when PHP uses it as an array key:
   * "0", "17" and "-17" are integers, while "017", "-0", "+1", "" and "x" stay strings.
   */
  function ParseCanonicalInt(s: string): (r: Option<int>)
    ensures r.Some? ==> |s| > 0 && (r.value < 0 <==> s[0] == '-')
    ensures r.Some? && r.value >= 0 ==> IsCanonicalNat(s) && r.value == DigitsValue(s)
  {
    if IsCanonicalNat(s) then Some(DigitsValue(s))
    else if |s| > 1 && s[0] == '-' && s[1] != '0' && IsCanonicalNat(s[1..]) then
      var v: int := DigitsValue(s[1..]);
      LeadingDigitPositive(s[1..]);
      Some(-v)
    else None
  }

  /** PHP truthiness of a string: only "" and "0" are false, so "00", " " and "0.0" are true. */
  function IsTruthy(s: string): (b: bool)
    ensures |s| > 1 ==> b
    ensures b ==> |s| > 0
  {
    s != "" && s != "0"
  }

  lemma {:induction false} DigitsValueOfNatToString(n: nat)
    ensures DigitsValue(NatToString(n)) == n
    decreases n
  {
    if n >= 10 {
      var s := NatToString(n);
      assert s[..|s| - 1] == NatToString(n / 10);
      DigitsValueOfNatToString(n / 10);
    }
  }

  lemma {:induction false} LeadingDigitPositive(s: string)
    requires AllDigits(s) && |s| > 0 && s[0] != '0'
    ensures DigitsValue(s) > 0
  {
    if |s| > 1 {
      LeadingDigitPositive(s[..|s| - 1]);
    }
  }

  lemma {:induction false} NatToStringOfDigitsValue(s: string)
    requires IsCanonicalNat(s)
    ensures NatToString(DigitsValue(s)) == s
  {
    if |s| > 1 {
      var p := s[..|s| - 1];
      var d := DigitValue(s[|s| - 1]);
      NatToStringOfDigitsValue(p);
      LeadingDigitPositive(p);
      var v := DigitsValue(s);
      assert v == DigitsValue(p) * 10 + d;
      assert v / 10 == DigitsValue(p) && v % 10 == d;
      assert s == p + [s[|s| - 1]];
    }
  }

  /** Reading back the text of an integer gives the integer. */
  lemma ParseIntToString(n: int)
    ensures ParseCanonicalInt(IntToString(n)) == Some(n)
  {
    if n < 0 {
      var t := NatToString(-n);
      DigitsValueOfNatToString(-n);
      assert IntToString(n)[1..] == t;
    } else {
      DigitsValueOfNatToString(n);
    }
  }

  /** A string PHP reads as an integer key is exactly that integer's text. */
  lemma IntToStringOfParse(s: string, n: int)
    requires ParseCanonicalInt(s) == Some(n)
    ensures IntToString(n) == s
  {
    if IsCanonicalNat(s) {
      NatToStringOfDigitsValue(s);
    } else {
      var t := s[1..];
      LeadingDigitPositive(t);
      NatToStringOfDigitsValue(t);
      assert s == "-" + t;
    }
  }

  /** The two conversions are inverse: a string reads as `n` if and only if it is the text of `n`. */
  lemma ParseIffIntToString(s: string, n: int)
    ensures ParseCanonicalInt(s) == Some(n) <==> IntToString(n) == s
  {
    if ParseCanonicalInt(s) == Some(n) {
      IntToStringOfParse(s, n);
    }
    if IntToString(n) == s {
      ParseIntToString(n);
    }
  }
}
