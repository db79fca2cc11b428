/** Decimal integers as Go's strconv reads and writes them (base 10, no prefixes, no underscores). */
module Decimal {
  import opened Wrappers

  const Uint64Limit: int := 0x1_0000_0000_0000_0000
  const MaxInt64: int := 0x7fff_ffff_ffff_ffff
  const MinInt64: int := -0x8000_0000_0000_0000

  /** Go's `uint` on a 64-bit platform. */
  type uint64 = x: int | 0 <= x < Uint64Limit

  predicate IsDigit(c: char) {
    '0' <= c <= '9'
  }

  predicate AllDigits(s: string) {
    forall i :: 0 <= i < |s| ==> IsDigit(s[i])
  }

  function DigitValue(c: char): nat
    requires IsDigit(c)
  {
    (c as int) - ('0' as int)
  }

  function Digit(d: nat): (c: char)
    requires d < 10
    ensures IsDigit(c) && DigitValue(c) == d
  {
    (('0' as int) + d) as char
  }

  /** The number a string of decimal digits denotes (leading zeros allowed). */
  function ValueOf(s: string): nat
    requires AllDigits(s)
  {
    if s == [] then 0 else ValueOf(s[..|s| - 1]) * 10 + DigitValue(s[|s| - 1])
  }

  /** `%d` / strconv.FormatUint(n, 10): the shortest decimal numeral of n. */
  function FormatNat(n: nat): (r: string)
    ensures r != [] && AllDigits(r)
    ensures ValueOf(r) == n
    ensures r[0] == '0' ==> r == "0"
    ensures ':' !in r && '/' !in r && '=' !in r
  {
    if n < 10 then [Digit(n)]
    else
      var r := FormatNat(n / 10) + [Digit(n % 10)];
      assert r[..|r| - 1] == FormatNat(n / 10);
      r
  }

  /** strconv.ParseUint(s, 10, 0): digits only, no sign, at most 2^64 - 1. */
  function ParseUint(s: string): (r: Option<uint64>)
    ensures r.Some? <==> s != [] && AllDigits(s) && ValueOf(s) < Uint64Limit
    ensures r.Some? ==> r.value == ValueOf(s)
  {
    if s != [] && AllDigits(s) && ValueOf(s) < Uint64Limit then Some(ValueOf(s)) else None
  }

  /** The value strconv.Atoi returns (its error is ignored by the caller): an optional sign and
      digits; 0 on a syntax error; the nearest 64-bit bound when out of range. */
  function Atoi(s: string): (r: int)
    ensures MinInt64 <= r <= MaxInt64
    ensures s != [] && AllDigits(s) && ValueOf(s) <= MaxInt64 ==> r == ValueOf(s)
    ensures s == [] || (!AllDigits(s) && !(s[0] in "+-" && s[1..] != [] && AllDigits(s[1..]))) ==> r == 0
  {
    var negative := s != [] && s[0] == '-';
    var digits := if s != [] && s[0] in "+-" then s[1..] else s;
    if digits == [] || !AllDigits(digits) then 0
    else
      var magnitude: int := ValueOf(digits);
      var v := if negative then 0 - magnitude else magnitude;
      if v > MaxInt64 then MaxInt64 else if v < MinInt64 then MinInt64 else v
  }
}
