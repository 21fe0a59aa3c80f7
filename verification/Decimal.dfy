/** Decimal numerals, as numbers print and numeric strings read. */
module Decimal {
  const DIGITS: string := "0123456789"

  predicate IsDigit(c: char) {
    '0' <= c <= '9'
  }

  predicate AllDigits(s: string) {
    forall i :: 0 <= i < |s| ==> IsDigit(s[i])
  }

  function DigitValue(c: char): (d: nat)
    requires IsDigit(c)
    ensures d < 10 && DIGITS[d] == c
  {
    c as int - '0' as int
  }

  function Print(n: nat): string {
    if n < 10 then [DIGITS[n]] else Print(n / 10) + [DIGITS[n % 10]]
  }

  function Parse(s: string): nat
    requires AllDigits(s)
  {
    if s == "" then 0 else Parse(s[..|s| - 1]) * 10 + DigitValue(s[|s| - 1])
  }

  lemma DigitOf(d: nat)
    requires d < 10
    ensures IsDigit(DIGITS[d]) && DigitValue(DIGITS[d]) == d
  {
  }

  /** Reading what was printed gives the number back, so numbers that print alike are equal. */
  lemma {:induction false} ParseAfterPrint(n: nat)
    ensures Print(n) != "" && AllDigits(Print(n)) && Parse(Print(n)) == n
  {
    DigitOf(n % 10);
    if n >= 10 {
      ParseAfterPrint(n / 10);
      var s := Print(n);
      assert s[..|s| - 1] == Print(n / 10);
    } else {
      assert Print(n)[..0] == "";
    }
  }

  /** A printed number has no leading zero, and every numeral without one is what its number prints as. */
  lemma {:induction false} PrintHasNoLeadingZero(n: nat)
    ensures Print(n)[0] == '0' <==> n == 0
  {
    if n >= 10 { PrintHasNoLeadingZero(n / 10); }
  }

  lemma {:induction false} PrintAfterParse(s: string)
    requires s != "" && AllDigits(s) && (s[0] != '0' || s == "0")
    ensures Print(Parse(s)) == s
  {
    var n := |s| - 1;
    if n == 0 {
      assert s[..0] == "" && Parse(s) == DigitValue(s[0]);
    } else {
      PrintAfterParse(s[..n]);
      PrintHasNoLeadingZero(Parse(s[..n]));
      assert Parse(s) / 10 == Parse(s[..n]) && Parse(s) % 10 == DigitValue(s[n]);
    }
  }

  function Power(b: nat, e: nat): nat {
    if e == 0 then 1 else b * Power(b, e - 1)
  }

  lemma {:induction false} ParseBound(s: string)
    requires AllDigits(s)
    ensures Parse(s) < Power(10, |s|)
  {
    if s != "" { ParseBound(s[..|s| - 1]); }
  }

  function PrintInt(n: int): string {
    if n < 0 then "-" + Print(-n) else Print(n)
  }

  /** The match of the expression ^-?\d+$. */
  predicate IsNumeric(s: string) {
    || (s != "" && AllDigits(s))
    || (|s| > 1 && s[0] == '-' && AllDigits(s[1..]))
  }

  function ParseInt(s: string): int
    requires IsNumeric(s)
  {
    if s[0] == '-' then 0 - Parse(s[1..]) else Parse(s)
  }

  /** The numeric strings are those of digits, and those of digits after a minus. */
  lemma NumericExactlyWhen(s: string)
    ensures IsNumeric(s) <==> exists digits :: digits != "" && AllDigits(digits) && (s == digits || s == "-" + digits)
  {
    if IsNumeric(s) && !AllDigits(s) {
      assert s == "-" + s[1..] && s[1..] != "" && AllDigits(s[1..]);
    }
    if digits :| digits != "" && AllDigits(digits) && s == "-" + digits { assert s[1..] == digits; }
  }

  /** A negative number prints as a minus before its numeral, and any other as its numeral. */
  lemma PrintIntIsSigned(n: int)
    ensures n >= 0 ==> PrintInt(n) == Print(n)
    ensures n < 0 ==> PrintInt(n) == "-" + Print(-n)
  {
  }

  lemma ParseIntAfterPrintInt(n: int)
    ensures IsNumeric(PrintInt(n)) && ParseInt(PrintInt(n)) == n
  {
    ParseAfterPrint(if n < 0 then -n else n);
    if n < 0 {
      assert PrintInt(n)[1..] == Print(-n);
    } else {
      assert IsDigit(Print(n)[0]);
    }
  }
}
