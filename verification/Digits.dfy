/** Numerals in bases 2 to 36, as printed and parsed by Rust's formatting and `char::to_digit`. */
module Digits {
  function DigitChar(d: nat, upper: bool): (c: char)
    requires d < 36
    ensures DigitOf(c) == d
  {
    if d < 10 then '0' + d as char
    else if upper then 'A' + (d - 10) as char
    else 'a' + (d - 10) as char
  }

  /** The value of a digit in the largest base; 36 for any other character. */
  function DigitOf(c: char): (d: nat)
    ensures d <= 36
  {
    if '0' <= c <= '9' then c as nat - '0' as nat
    else if 'a' <= c <= 'z' then c as nat - 'a' as nat + 10
    else if 'A' <= c <= 'Z' then c as nat - 'A' as nat + 10
    else 36
  }

  predicate IsDigit(c: char, base: nat) {
    DigitOf(c) < base
  }

  predicate AllDigits(s: string, base: nat) {
    forall k :: 0 <= k < |s| ==> IsDigit(s[k], base)
  }

  lemma QuotientAndRest(n: nat, base: nat)
    requires 2 <= base
    ensures n == (n / base) * base + n % base && 0 <= n % base < base
    ensures n >= base ==> 0 < n / base < n
  {
  }

  /** The numeral of n, most significant digit first. */
  function Numeral(n: nat, base: nat, upper: bool): (s: string)
    requires 2 <= base <= 36
    ensures |s| > 0 && AllDigits(s, base)
    ensures s[0] == '0' <==> n == 0
    ensures n == 0 ==> s == "0"
    decreases n
  {
    QuotientAndRest(n, base);
    if n < base then [DigitChar(n, upper)]
    else Numeral(n / base, base, upper) + [DigitChar(n % base, upper)]
  }

  /** The value of a run of digits. */
  function Value(s: string, base: nat): nat
    requires AllDigits(s, base)
  {
    if s == [] then 0
    else Value(s[..|s| - 1], base) * base + DigitOf(s[|s| - 1])
  }

  lemma ValueSnoc(s: string, c: char, base: nat)
    requires AllDigits(s, base) && IsDigit(c, base)
    ensures AllDigits(s + [c], base) && Value(s + [c], base) == Value(s, base) * base + DigitOf(c)
  {
  }

  /** Printing and reading back. */
  lemma {:induction false} NumeralValue(n: nat, base: nat, upper: bool)
    requires 2 <= base <= 36
    ensures Value(Numeral(n, base, upper), base) == n
    decreases n
  {
    hide Value;
    QuotientAndRest(n, base);
    if n < base {
      ValueSnoc("", DigitChar(n, upper), base);
      assert "" + [DigitChar(n, upper)] == [DigitChar(n, upper)];
      assert Value("", base) == 0 by { EmptyValue(base); }
    } else {
      var high := Numeral(n / base, base, upper);
      NumeralValue(n / base, base, upper);
      ValueSnoc(high, DigitChar(n % base, upper), base);
    }
  }

  lemma EmptyValue(base: nat)
    ensures Value("", base) == 0
  {
  }
}
