/**
 Octets: the model of a C++ `char`. `std::string` header text, the frame
 command, the body vector and the serialised output are all sequences of
 octets. An octet is kept as a Dafny character whose code is below 256, so
 that the protocol's literal text can be written as string literals.
 */
module Octets {

  type Octet = c: char | c as int < 256

  type Bytes = seq<Octet>

  const NL: Octet := '\n'
  const NUL: Octet := '\0'
  const COLON: Octet := ':'
  const BACKSLASH: Octet := '\\'

  predicate IsDigit(c: Octet) {
    '0' <= c <= '9'
  }

  predicate AllDigits(s: Bytes) {
    forall i :: 0 <= i < |s| ==> IsDigit(s[i])
  }

  function DigitValue(c: Octet): (d: nat)
    requires IsDigit(c)
    ensures d < 10
  {
    (c as int) - ('0' as int)
  }

  /** The ASCII digit for `d`. */
  function DigitOf(d: nat): (c: Octet)
    requires d < 10
    ensures IsDigit(c) && DigitValue(c) == d
  {
    (('0' as int) + d) as char
  }

  /** Reads a run of decimal digits, most significant first. */
  function ParseDecimal(s: Bytes): nat
    requires AllDigits(s)
  {
    if |s| == 0 then 0 else 10 * ParseDecimal(s[..|s| - 1]) + DigitValue(s[|s| - 1])
  }

  /**
   The text an `ostream` with default formatting writes for an unsigned
   integer: decimal digits, no sign, no leading zero.
   */
  function Decimal(n: nat): (r: Bytes)
    ensures |r| > 0 && AllDigits(r)
    ensures r[0] == '0' ==> r == "0"
    ensures ParseDecimal(r) == n
    decreases n
  {
    if n < 10 then [DigitOf(n)]
    else
      var prefix := Decimal(n / 10);
      var r := prefix + [DigitOf(n % 10)];
      assert r[..|r| - 1] == prefix;
      r
  }
}
