/**
 * Decimal text of integers, as `printf("%d", ...)` writes it, and a reader
 * for unsigned decimal numerals that undoes it.
 */
module Decimal {
  import opened Wrappers

  predicate IsDigit(c: char) {
    '0' <= c <= '9'
  }

  predicate AllDigits(s: string) {
    forall i :: 0 <= i < |s| ==> IsDigit(s[i])
  }

  function DigitChar(d: nat): (c: char)
    requires d < 10
    ensures IsDigit(c)
  {
    ('0' as int + d) as char
  }

  function DigitValue(c: char): (d: nat)
    requires IsDigit(c)
    ensures d < 10 && DigitChar(d) == c
  {
    c as int - '0' as int
  }

  /** The shortest decimal numeral of `n`: digits only, no leading zero. */
  function NatToDecimal(n: nat): (s: string)
    ensures 1 <= |s| && AllDigits(s)
    ensures s[0] == '0' ==> s == "0"
    decreases n
  {
    if n < 10 then [DigitChar(n)] else NatToDecimal(n / 10) + [DigitChar(n % 10)]
  }

  /** `%d` of a signed integer: a minus sign before the numeral of its magnitude. */
  function IntToDecimal(i: int): string {
    if i < 0 then "-" + NatToDecimal(-i) else NatToDecimal(i)
  }

  /** The value of a string of digits, most significant digit first. */
  function DecValue(s: string): nat
    requires AllDigits(s)
  {
    if s == [] then 0 else DecValue(s[..|s| - 1]) * 10 + DigitValue(s[|s| - 1])
  }

  lemma {:induction false} DecValueOfDecimal(n: nat)
    ensures DecValue(NatToDecimal(n)) == n
    decreases n
  {
    var s := NatToDecimal(n);
    if n >= 10 {
      DecValueOfDecimal(n / 10);
      assert s[..|s| - 1] == NatToDecimal(n / 10);
    }
  }

  /** A minus sign followed by digits, or digits alone. */
  predicate IsSignedNumeral(s: string) {
    s != [] && if s[0] == '-' then AllDigits(s[1..]) else AllDigits(s)
  }

  /** The value of a signed numeral. */
  function SignedValue(s: string): int
    requires IsSignedNumeral(s)
  {
    if s[0] == '-' then -(DecValue(s[1..]) as int) else DecValue(s) as int
  }

  /**
   * `%d` text is a signed numeral whose value is the integer printed, and it
   * starts with a minus sign exactly when that integer is negative.
   */
  lemma IntToDecimalValue(i: int)
    ensures IsSignedNumeral(IntToDecimal(i)) && SignedValue(IntToDecimal(i)) == i
    ensures IntToDecimal(i)[0] == '-' <==> i < 0
  {
    var s := IntToDecimal(i);
    if i < 0 {
      DecValueOfDecimal(-i);
    } else {
      assert IsDigit(s[0]);
      DecValueOfDecimal(i);
    }
  }

  /** Numerals of values below 256 (one channel byte) take one to three digits. */
  lemma {:induction false} ByteDecimalLength(n: nat)
    requires n < 256
    ensures 1 <= |NatToDecimal(n)| <= 3
  {
    if n >= 10 {
      var q := n / 10;
      if q >= 10 {
        assert |NatToDecimal(q)| == |NatToDecimal(q / 10)| + 1;
      }
    }
  }

  /** The number of leading digits of `s`. */
  function DigitRun(s: string): (k: nat)
    ensures k <= |s| && AllDigits(s[..k])
    ensures k < |s| ==> !IsDigit(s[k])
  {
    if s == [] || !IsDigit(s[0]) then 0 else 1 + DigitRun(s[1..])
  }

  /** Reads the longest non-empty run of leading digits as a number, with what follows it. */
  function ReadNat(s: string): Option<(nat, string)> {
    var k := DigitRun(s);
    if k == 0 then None else Some((DecValue(s[..k]), s[k..]))
  }

  /** Reading back a numeral followed by a non-digit gives the number and the rest. */
  lemma ReadNatOfDecimal(n: nat, rest: string)
    requires rest == [] || !IsDigit(rest[0])
    ensures ReadNat(NatToDecimal(n) + rest) == Some((n, rest))
  {
    var d := NatToDecimal(n);
    var s := d + rest;
    var k := DigitRun(s);
    assert forall i :: 0 <= i < |d| ==> s[i] == d[i];
    assert |d| < |s| ==> s[|d|] == rest[0];
    assert s[..k] == d;
    assert s[k..] == rest;
    DecValueOfDecimal(n);
  }
}
