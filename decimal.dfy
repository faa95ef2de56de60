/** Decimal renderings of numbers, as Java's Long.toString produces them, and their parsing. */
module Decimal {

  predicate IsDigit(c: char) {
    '0' <= c <= '9'
  }

  predicate AllDigits(s: string) {
    forall i :: 0 <= i < |s| ==> IsDigit(s[i])
  }

  function DigitChar(d: nat): (c: char)
    requires d < 10
    ensures IsDigit(c)
  {
    ['0', '1', '2', '3', '4', '5', '6', '7', '8', '9'][d]
  }

  function DigitValue(c: char): (d: nat)
    requires IsDigit(c)
    ensures d < 10
  {
    (c as int - '0' as int) as nat
  }

  lemma DigitRoundTrip(d: nat)
    requires d < 10
    ensures DigitValue(DigitChar(d)) == d
  {
  }

  /** The decimal text of a natural number, without leading zeros. */
  function NatToString(n: nat): (s: string)
    ensures |s| >= 1 && AllDigits(s)
    ensures |s| > 1 ==> s[0] != '0'
    decreases n
  {
    if n < 10 then [DigitChar(n)] else NatToString(n / 10) + [DigitChar(n % 10)]
  }

  /** The value of a digit string, read most significant digit first; the empty text reads as 0. */
  function ParseNat(s: string): nat
    requires AllDigits(s)
    decreases |s|
  {
    if |s| == 0 then 0 else ParseNat(s[..|s| - 1]) * 10 + DigitValue(s[|s| - 1])
  }

  /** Java's Long.toString: a minus sign in front of the magnitude for negative values. */
  function IntToString(n: int): (s: string)
    ensures |s| >= 1
    ensures n >= 0 ==> s == NatToString(n)
    ensures n < 0 ==> s == "-" + NatToString(-n)
  {
    if n >= 0 then NatToString(n) else "-" + NatToString(-n)
  }

  function Pow10(k: nat): (p: nat)
    ensures p >= 1
  {
    if k == 0 then 1 else 10 * Pow10(k - 1)
  }

  /** Reading a number back from its text gives the number. */
  lemma {:induction false} ParseNatToString(n: nat)
    ensures ParseNat(NatToString(n)) == n
    decreases n
  {
    if n < 10 {
      DigitRoundTrip(n);
    } else {
      var s := NatToString(n);
      assert s[..|s| - 1] == NatToString(n / 10);
      ParseNatToString(n / 10);
      DigitRoundTrip(n % 10);
    }
  }

  /** The value of a concatenation: the left part shifted by the length of the right part. */
  lemma {:induction false} ParseNatAppend(a: string, b: string)
    requires AllDigits(a) && AllDigits(b)
    ensures AllDigits(a + b)
    ensures ParseNat(a + b) == ParseNat(a) * Pow10(|b|) + ParseNat(b)
    decreases |b|
  {
    if |b| > 0 {
      var ab := a + b;
      var b' := b[..|b| - 1];
      assert ab[..|ab| - 1] == a + b';
      ParseNatAppend(a, b');
      var x, y, d := ParseNat(a), ParseNat(b'), DigitValue(b[|b| - 1]);
      assert ab[|ab| - 1] == b[|b| - 1];
      assert b[..|b| - 1] == b';
      assert ParseNat(ab) == ParseNat(a + b') * 10 + d;
      assert ParseNat(b) == y * 10 + d;
      ShiftDigit(x, Pow10(|b'|), y, d);
    } else {
      assert a + b == a;
    }
  }

  /** Appending a digit to a shifted number shifts it one place further. */
  lemma ShiftDigit(x: int, p: int, y: int, d: int)
    ensures (x * p + y) * 10 + d == x * (10 * p) + (y * 10 + d)
  {
    assert (x * p) * 10 == x * (10 * p);
  }

  /** Leading zeros do not change the value. */
  lemma ParseNatZeros(k: nat, s: string)
    requires AllDigits(s)
    ensures AllDigits(Zeros(k) + s)
    ensures ParseNat(Zeros(k) + s) == ParseNat(s)
  {
    ZerosValue(k);
    ParseNatAppend(Zeros(k), s);
  }

  function Zeros(k: nat): (z: string)
    ensures |z| == k && AllDigits(z)
  {
    if k == 0 then "" else "0" + Zeros(k - 1)
  }

  lemma {:induction false} ZerosValue(k: nat)
    ensures ParseNat(Zeros(k)) == 0
  {
    if k > 0 {
      ParseNatAppend("0", Zeros(k - 1));
      ZerosValue(k - 1);
    }
  }
}
