/**
 * The host-language numeric conversions the converter relies on:
 * `Float#to_i` (truncation toward zero), `Integer#to_s` (decimal rendering)
 * and `String#to_i` (the value of the leading integer of a string, 0 when
 * there is none).
 */
module Numbers {

  /** Truncation of a real toward zero, as `Float#to_i` does. */
  function Trunc(x: real): (n: int)
    ensures x >= 0.0 ==> n as real <= x < n as real + 1.0
    ensures x < 0.0 ==> n as real - 1.0 < x <= n as real
  {
    if x >= 0.0 then x.Floor else -((-x).Floor)
  }

  predicate IsDigit(c: char)
  {
    '0' <= c <= '9'
  }

  predicate AllDigits(s: string)
  {
    forall k :: 0 <= k < |s| ==> IsDigit(s[k])
  }

  function DigitChar(d: nat): (c: char)
    requires d < 10
    ensures IsDigit(c) && c as int - '0' as int == d
  {
    (d + '0' as int) as char
  }

  function DigitValue(c: char): (d: nat)
    requires IsDigit(c)
    ensures d < 10
  {
    c as int - '0' as int
  }

  /** The decimal digits of a natural number, most significant first. */
  function NatToDecimal(n: nat): (s: string)
    ensures |s| >= 1 && AllDigits(s)
    ensures |s| > 1 ==> s[0] != '0'
    decreases n
  {
    if n < 10 then [DigitChar(n)] else NatToDecimal(n / 10) + [DigitChar(n % 10)]
  }

  /** `Integer#to_s`: a minus sign for negative numbers, then the digits. */
  function IntToDecimal(n: int): (s: string)
    ensures |s| >= 1 && (s[0] == '-' <==> n < 0)
    ensures var ds := if n < 0 then s[1..] else s;
      |ds| >= 1 && AllDigits(ds) && (|ds| > 1 ==> ds[0] != '0')
  {
    if n < 0 then "-" + NatToDecimal(-n) else NatToDecimal(n)
  }

  /** The longest prefix of `s` made of decimal digits. */
  function DigitPrefix(s: string): (p: string)
    ensures p <= s && AllDigits(p)
    ensures |p| < |s| ==> !IsDigit(s[|p|])
  {
    if s == [] || !IsDigit(s[0]) then [] else [s[0]] + DigitPrefix(s[1..])
  }

  /** The natural number a string of decimal digits denotes. */
  function DigitsValue(ds: string): nat
    requires AllDigits(ds)
  {
    if ds == [] then 0 else DigitsValue(ds[..|ds| - 1]) * 10 + DigitValue(ds[|ds| - 1])
  }

  /**
   * The unsigned part of a base-10 `String#to_i`: a `0d` or `0D` radix
   * prefix is skipped, then the longest run of digits is read.
   */
  function UnsignedInt(s: string): nat
  {
    if |s| >= 2 && s[0] == '0' && (s[1] == 'd' || s[1] == 'D') then DigitsValue(DigitPrefix(s[2..]))
    else DigitsValue(DigitPrefix(s))
  }

  /**
   * `String#to_i`: an optional sign followed by the unsigned part; a string
   * that does not start with a number gives 0. Leading whitespace and
   * digit-separating underscores are not part of this model.
   */
  function LeadingInt(s: string): int
  {
    if |s| > 0 && s[0] == '-' then -(UnsignedInt(s[1..]) as int)
    else if |s| > 0 && s[0] == '+' then UnsignedInt(s[1..])
    else UnsignedInt(s)
  }

  lemma {:induction false} DigitPrefixOfDigits(s: string)
    requires AllDigits(s)
    ensures DigitPrefix(s) == s
  {
    if s != [] {
      DigitPrefixOfDigits(s[1..]);
    }
  }

  lemma {:induction false} DigitsValueOfDecimal(n: nat)
    ensures DigitsValue(NatToDecimal(n)) == n
    decreases n
  {
    if n >= 10 {
      var s := NatToDecimal(n);
      assert s == NatToDecimal(n / 10) + [DigitChar(n % 10)];
      assert s[..|s| - 1] == NatToDecimal(n / 10);
      DigitsValueOfDecimal(n / 10);
    }
  }

  /** Reading back the decimal rendering of an integer gives that integer. */
  lemma {:induction false} LeadingIntOfDecimal(n: int)
    ensures LeadingInt(IntToDecimal(n)) == n
  {
    if n < 0 {
      var s := IntToDecimal(n);
      assert s[1..] == NatToDecimal(-n);
      DigitPrefixOfDigits(NatToDecimal(-n));
      DigitsValueOfDecimal(-n);
    } else {
      var s := NatToDecimal(n);
      assert IsDigit(s[0]);
      DigitPrefixOfDigits(s);
      DigitsValueOfDecimal(n);
    }
  }

  /**
   * The base-10 radix prefix `0d` is skipped after the sign, so "0d12" reads
   * as 12 and "-0D5" as -5; a prefix with no digits after it reads as 0.
   */
  lemma LeadingIntRadixPrefix()
    ensures LeadingInt("0d12") == 12 && LeadingInt("-0D5") == -5 && LeadingInt("+0d7x") == 7
    ensures LeadingInt("0d") == 0 && LeadingInt("0dx") == 0 && LeadingInt("0x12") == 0
  {
    assert DigitPrefix("12") == "12" by { DigitPrefixOfDigits("12"); }
    assert DigitPrefix("5") == "5" by { DigitPrefixOfDigits("5"); }
    assert DigitPrefix("7x") == "7";
    assert DigitPrefix("x12") == [];
    assert DigitPrefix("0x12") == "0";
    assert DigitsValue("12") == 12 by { assert "12"[..1] == "1"; }
  }

  /** A string that does not start with a sign or a digit reads as 0. */
  lemma LeadingIntOfNonNumeric(s: string)
    requires |s| > 0 && s[0] != '-' && s[0] != '+' && !IsDigit(s[0])
    ensures LeadingInt(s) == 0
  {
  }
}
