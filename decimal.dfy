/**
 * Decimal numerals as Kotlin's `Int.toString()` writes them: an optional '-'
 * followed by the digits of the magnitude, most significant first, without
 * leading zeros. `ParseInt` reads such a numeral back; the round trip is the
 * property every label built from a number relies on.
 */
module Decimal {
  import opened Wrappers

  predicate IsDigit(c: char) {
    '0' <= c <= '9'
  }

  predicate AllDigits(s: string) {
    forall i :: 0 <= i < |s| ==> IsDigit(s[i])
  }

  function DigitChar(d: nat): (c: char)
    requires d < 10
    ensures IsDigit(c) && c as int - '0' as int == d
  {
    ('0' as int + d) as char
  }

  /**
   * A numeral as `Int.toString()` writes it: a '-' followed by digits not
   * starting with 0, or digits with no leading zero ("0" alone for zero).
   */
  predicate IsNumeral(s: string) {
    if |s| > 0 && s[0] == '-' then |s| > 1 && AllDigits(s[1..]) && s[1] != '0'
    else |s| > 0 && AllDigits(s) && (s[0] == '0' ==> |s| == 1)
  }

  /** The digits of `n`, without a leading zero unless `n` is zero. */
  function NatToString(n: nat): (s: string)
    ensures |s| > 0 && AllDigits(s)
    ensures s[0] == '0' ==> n == 0 && s == "0"
    decreases n
  {
    if n < 10 then [DigitChar(n)] else NatToString(n / 10) + [DigitChar(n % 10)]
  }

  /** Kotlin's `Int.toString()`: a minus sign for negative numbers, then the digits. */
  function IntToString(n: int): (s: string)
    ensures IsNumeral(s) && IsDigit(s[|s| - 1])
    ensures s[0] == '-' <==> n < 0
  {
    if n < 0 then "-" + NatToString(-n) else NatToString(n)
  }

  /** The value of a string of digits (0 for the empty string). */
  function DigitsValue(s: string): nat
    requires AllDigits(s)
  {
    if s == [] then 0 else DigitsValue(s[..|s| - 1]) * 10 + (s[|s| - 1] as int - '0' as int)
  }

  /** Reads an optionally signed numeral; `None` for anything else. */
  function ParseInt(s: string): Option<int> {
    if |s| > 1 && s[0] == '-' && AllDigits(s[1..]) then Some(-(DigitsValue(s[1..]) as int))
    else if |s| > 0 && AllDigits(s) then Some(DigitsValue(s))
    else None
  }

  lemma {:induction false} DigitsValueOfNatToString(n: nat)
    ensures DigitsValue(NatToString(n)) == n
    decreases n
  {
    if n >= 10 {
      var s := NatToString(n);
      DigitsValueOfNatToString(n / 10);
      assert s[..|s| - 1] == NatToString(n / 10);
    }
  }

  /** Reading back what `IntToString` wrote gives the number again. */
  lemma ParseIntToString(n: int)
    ensures ParseInt(IntToString(n)) == Some(n)
  {
    if n < 0 {
      var s := IntToString(n);
      assert s[1..] == NatToString(-n);
      DigitsValueOfNatToString(-n);
    } else {
      DigitsValueOfNatToString(n);
    }
  }

  /** A string of digits not starting with 0 has a positive value. */
  lemma {:induction false} DigitsValuePositive(s: string)
    requires |s| > 0 && AllDigits(s) && s[0] != '0'
    ensures DigitsValue(s) >= 1
    decreases |s|
  {
    if |s| > 1 {
      DigitsValuePositive(s[..|s| - 1]);
    }
  }

  /** A string of digits without a leading zero is the numeral of its value. */
  lemma {:induction false} NatToStringOfDigits(s: string)
    requires |s| > 0 && AllDigits(s) && (s[0] == '0' ==> |s| == 1)
    ensures NatToString(DigitsValue(s)) == s
    decreases |s|
  {
    if |s| > 1 {
      var p := s[..|s| - 1];
      DigitsValuePositive(p);
      NatToStringOfDigits(p);
      var d := s[|s| - 1] as int - '0' as int;
      assert DigitsValue(s) == DigitsValue(p) * 10 + d;
      assert DigitsValue(s) / 10 == DigitsValue(p) && DigitsValue(s) % 10 == d;
      assert DigitChar(d) == s[|s| - 1];
      assert s == p + [s[|s| - 1]];
    } else {
      assert DigitsValue(s) == s[0] as int - '0' as int;
      assert DigitChar(DigitsValue(s)) == s[0];
    }
  }

  /**
   * Every numeral is the one `IntToString` writes for the value it reads
   * as: together with `ParseIntToString`, numerals and integers are in
   * one-to-one correspondence.
   */
  lemma NumeralIsIntToString(s: string)
    requires IsNumeral(s)
    ensures ParseInt(s).Some? && IntToString(ParseInt(s).value) == s
  {
    if s[0] == '-' {
      var t := s[1..];
      DigitsValuePositive(t);
      NatToStringOfDigits(t);
      assert "-" + t == s;
    } else {
      NatToStringOfDigits(s);
    }
  }
}
