/**
 * Decimal text of Java `int` values: `Integer.toString` (also what string
 * concatenation `"..." + n` produces) and `Integer.parseInt`.
 */
module Decimal {
  import opened Wrappers

  /** Java's 32-bit signed `int`. */
  newtype int32 = x: int | -0x8000_0000 <= x < 0x8000_0000

  predicate IsDigit(c: char) { '0' <= c <= '9' }

  predicate AllDigits(s: string) { forall i :: 0 <= i < |s| ==> IsDigit(s[i]) }

  function DigitValue(c: char): (d: nat)
    requires IsDigit(c)
    ensures d < 10
  {
    c as int - '0' as int
  }

  function DigitChar(d: nat): (c: char)
    requires d < 10
    ensures IsDigit(c) && DigitValue(c) == d
  {
    ('0' as int + d) as char
  }

  /** `Integer.toString(n)` for `n >= 0`: decimal digits without leading zeros. */
  function NatToDecimal(n: nat): (r: string)
    ensures |r| >= 1 && AllDigits(r)
    ensures r[0] == '0' <==> n == 0
    ensures n == 0 ==> r == "0"
    decreases n
  {
    if n < 10 then [DigitChar(n)] else NatToDecimal(n / 10) + [DigitChar(n % 10)]
  }

  /** `Integer.toString(n)`: a minus sign before the magnitude of a negative value. */
  function IntToDecimal(n: int): (r: string)
    ensures |r| >= 1
    ensures n < 0 <==> r[0] == '-'
  {
    if n < 0 then "-" + NatToDecimal(-n) else NatToDecimal(n)
  }

  /** The value of a string of decimal digits, most significant first. */
  function DigitsValue(s: string): nat
    requires AllDigits(s)
  {
    if s == [] then 0 else DigitsValue(s[..|s| - 1]) * 10 + DigitValue(s[|s| - 1])
  }

  lemma {:induction false} DigitsValueOfDecimal(n: nat)
    ensures DigitsValue(NatToDecimal(n)) == n
    decreases n
  {
    var r := NatToDecimal(n);
    if n >= 10 {
      DigitsValueOfDecimal(n / 10);
      assert r[..|r| - 1] == NatToDecimal(n / 10);
    }
  }

  datatype NumberFormatException = NumberFormatException(input: string)

  /** The syntax `Integer.parseInt` accepts: an optional sign and at least one digit. */
  predicate IsDecimalSyntax(s: string)
  {
    var digits := if |s| > 0 && (s[0] == '-' || s[0] == '+') then s[1..] else s;
    |digits| > 0 && AllDigits(digits)
  }

  /** The mathematical value of a string that has decimal syntax. */
  function SyntaxValue(s: string): int
    requires IsDecimalSyntax(s)
  {
    if s[0] == '-' then -(DigitsValue(s[1..]) as int)
    else if s[0] == '+' then DigitsValue(s[1..])
    else DigitsValue(s)
  }

  /**
   * `Integer.parseInt(s)`: the value of an optionally signed digit string,
   * or `NumberFormatException` when the syntax is wrong or the value does
   * not fit in an `int`.
   */
  function ParseInt(s: string): (r: Result<int32, NumberFormatException>)
    ensures r.Success? <==> IsDecimalSyntax(s) && -0x8000_0000 <= SyntaxValue(s) < 0x8000_0000
    ensures r.Success? ==> r.value as int == SyntaxValue(s)
    ensures r.Failure? ==> r.error == NumberFormatException(s)
  {
    if s == [] then Failure(NumberFormatException(s))
    else
      var negative := s[0] == '-';
      var digits := if s[0] == '-' || s[0] == '+' then s[1..] else s;
      if digits == [] || !AllDigits(digits) then Failure(NumberFormatException(s))
      else
        var magnitude := DigitsValue(digits);
        var v: int := if negative then -(magnitude as int) else magnitude;
        if -0x8000_0000 <= v < 0x8000_0000 then Success(v as int32)
        else Failure(NumberFormatException(s))
  }

  /** `Integer.parseInt(Integer.toString(n)) == n` for every `int`. */
  lemma ParseIntOfDecimal(n: int32)
    ensures ParseInt(IntToDecimal(n as int)) == Success(n)
  {
    var s := IntToDecimal(n as int);
    if n < 0 {
      var digits := NatToDecimal(-(n as int));
      DigitsValueOfDecimal(-(n as int));
      assert s == "-" + digits && s[1..] == digits;
      assert IsDecimalSyntax(s) && SyntaxValue(s) == n as int;
    } else {
      DigitsValueOfDecimal(n as int);
      assert IsDigit(s[0]);
      assert IsDecimalSyntax(s) && SyntaxValue(s) == n as int;
    }
  }
}
