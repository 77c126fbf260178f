/** Decimal text for integers, as `std::to_string` writes it, a decoder
    for that text, and C++'s narrowing of a wide integer to a 32-bit `int`. */
module Decimal {
  import opened Options

  /** The values of a C++ `int`. */
  type Int32 = x: int | -0x8000_0000 <= x < 0x8000_0000

  /** Conversion of an integer to `int`: two's-complement wrap-around
      modulo 2^32 (what GCC and Clang do for the narrowing). */
  function Wrap32(x: int): (r: Int32)
    ensures (x - r) % 0x1_0000_0000 == 0
    ensures -0x8000_0000 <= x < 0x8000_0000 ==> r == x
  {
    var m := x % 0x1_0000_0000;
    if m < 0x8000_0000 then m else m - 0x1_0000_0000
  }

  predicate IsDigit(c: char) {
    '0' <= c <= '9'
  }

  function DigitChar(d: nat): (c: char)
    requires d < 10
    ensures IsDigit(c)
  {
    (('0' as int) + d) as char
  }

  function DigitValue(c: char): (d: nat)
    requires IsDigit(c)
    ensures d < 10
  {
    (c as int) - ('0' as int)
  }

  /** Decimal digits of `n`, most significant first, without leading zeros. */
  function NatToString(n: nat): (s: string)
    ensures |s| >= 1
    decreases n
  {
    if n < 10 then [DigitChar(n)] else NatToString(n / 10) + [DigitChar(n % 10)]
  }

  /** `std::to_string` of an integer: a minus sign for negatives, then the digits. */
  function IntToString(i: int): string {
    if i < 0 then "-" + NatToString(-i) else NatToString(i)
  }

  predicate AllDigits(s: string) {
    forall k :: 0 <= k < |s| ==> IsDigit(s[k])
  }

  /** Canonical decimal text: one or more digits, no leading zero except "0". */
  predicate IsCanonical(s: string) {
    |s| >= 1 && AllDigits(s) && (s[0] == '0' ==> |s| == 1)
  }

  /** Value of a digit string. */
  function DigitsValue(s: string): nat
    requires AllDigits(s)
    decreases |s|
  {
    if |s| == 0 then 0 else 10 * DigitsValue(s[..|s| - 1]) + DigitValue(s[|s| - 1])
  }

  /** Reads canonical decimal text with an optional leading minus; anything
      else is `None`. The decoder for `IntToString`. */
  function ParseInt(s: string): (r: Option<int>)
    ensures r.Some? ==> IsCanonical(s) || (|s| >= 2 && s[0] == '-' && IsCanonical(s[1..]))
  {
    if |s| >= 2 && s[0] == '-' && IsCanonical(s[1..]) && s[1..] != "0" then Some(-(DigitsValue(s[1..]) as int))
    else if IsCanonical(s) then Some(DigitsValue(s))
    else None
  }

  /** The digits of `n` are canonical and read back as `n`. */
  lemma {:induction false} NatToStringRoundTrip(n: nat)
    ensures IsCanonical(NatToString(n))
    ensures DigitsValue(NatToString(n)) == n
    decreases n
  {
    var s := NatToString(n);
    if n >= 10 {
      NatToStringRoundTrip(n / 10);
      var p := NatToString(n / 10);
      assert s[..|s| - 1] == p;
      assert s[0] == p[0];
      assert p[0] == '0' ==> |p| == 1;
    }
  }

  /** Decoding the text `std::to_string` writes gives the number back. */
  lemma IntToStringRoundTrip(i: int)
    ensures ParseInt(IntToString(i)) == Some(i)
  {
    if i < 0 {
      NatToStringRoundTrip(-i);
      var s := IntToString(i);
      assert s[1..] == NatToString(-i);
    } else {
      NatToStringRoundTrip(i);
      assert IntToString(i)[0] != '-';
    }
  }

  /** Distinct numbers have distinct decimal text. */
  lemma IntToStringInjective(i: int, j: int)
    requires IntToString(i) == IntToString(j)
    ensures i == j
  {
    IntToStringRoundTrip(i);
    IntToStringRoundTrip(j);
  }
}
