/**
 * Decimal numerals, the abstraction of Rust's integer `parse` used by the
 * value types: a nonempty run of ASCII digits, optionally preceded by '-'
 * for signed targets, whose value must fit the target type.
 */
module Decimal {
  import opened Errors

  predicate IsDigit(c: char) {
    '0' <= c <= '9'
  }

  predicate AllDigits(s: string) {
    forall i :: 0 <= i < |s| ==> IsDigit(s[i])
  }

  /** What an unsigned `parse` accepts (a leading '+' is not modelled). */
  predicate IsNumeral(s: string) {
    |s| > 0 && AllDigits(s)
  }

  /** What a signed `parse` accepts: a numeral, or '-' followed by one. */
  predicate IsSignedNumeral(s: string) {
    IsNumeral(s) || (|s| > 0 && s[0] == '-' && IsNumeral(s[1..]))
  }

  function DigitValue(c: char): nat
    requires IsDigit(c)
  {
    c as int - '0' as int
  }

  function DigitChar(d: nat): char
    requires d < 10
  {
    ('0' as int + d) as char
  }

  /** The number a string of digits denotes, most significant digit first. */
  function ValueOf(s: string): nat
    requires AllDigits(s)
    decreases |s|
  {
    if s == [] then 0 else 10 * ValueOf(s[..|s| - 1]) + DigitValue(s[|s| - 1])
  }

  function SignedValueOf(s: string): int
    requires IsSignedNumeral(s)
  {
    if s[0] == '-' then 0 - ValueOf(s[1..]) as int else ValueOf(s)
  }

  /** `parse::<uN>()` with `max` = 2^N - 1: anything else, or a value that overflows, fails. */
  function ParseUnsigned(s: string, max: nat): Option<nat> {
    if IsNumeral(s) && ValueOf(s) <= max then Some(ValueOf(s)) else None
  }

  /** `parse::<iN>()` with the range `min..=max` of the target type. */
  function ParseSigned(s: string, min: int, max: int): Option<int> {
    if IsSignedNumeral(s) && min <= SignedValueOf(s) <= max then Some(SignedValueOf(s)) else None
  }

  /** The canonical decimal rendering of a number: the inverse of ValueOf. */
  function Show(n: nat): string
    decreases n
  {
    if n < 10 then [DigitChar(n)] else Show(n / 10) + [DigitChar(n % 10)]
  }

  /** Show(n) is a numeral that denotes n. */
  lemma {:induction false} ShowDenotes(n: nat)
    ensures IsNumeral(Show(n)) && ValueOf(Show(n)) == n
    decreases n
  {
    if n >= 10 {
      ShowDenotes(n / 10);
      var t := Show(n);
      assert t[..|t| - 1] == Show(n / 10);
    }
  }

  /** A signed rendering: '-' then the digits of the magnitude, for negative n. */
  function ShowSigned(n: int): string {
    if n < 0 then "-" + Show(-n) else Show(n)
  }

  lemma ShowSignedDenotes(n: int)
    ensures IsSignedNumeral(ShowSigned(n)) && SignedValueOf(ShowSigned(n)) == n
  {
    if n < 0 {
      ShowDenotes(-n);
      assert ShowSigned(n)[1..] == Show(-n);
    } else {
      ShowDenotes(n);
    }
  }

  /** An unsigned parse reads back exactly the numbers that fit. */
  lemma ParseUnsignedShow(n: nat, max: nat)
    ensures ParseUnsigned(Show(n), max) == if n <= max then Some(n) else None
  {
    ShowDenotes(n);
  }

  /** A signed parse reads back exactly the numbers in range. */
  lemma ParseSignedShow(n: int, min: int, max: int)
    ensures ParseSigned(ShowSigned(n), min, max) == if min <= n <= max then Some(n) else None
  {
    ShowSignedDenotes(n);
  }

  /** A leading minus sign never parses as an unsigned number. */
  lemma UnsignedRejectsMinus(s: string, max: nat)
    requires |s| > 0 && s[0] == '-'
    ensures ParseUnsigned(s, max) == None
  {
  }
}
