/** Decimal numerals of natural numbers, as `bigint.toString` and `BigInt(text)` treat them. */
module Decimal {
  predicate IsDigit(c: char) { '0' <= c <= '9' }

  predicate AllDigits(s: string) { forall i :: 0 <= i < |s| ==> IsDigit(s[i]) }

  function DigitChar(d: nat): (c: char)
    requires d < 10
    ensures IsDigit(c) && DigitValue(c) == d
  {
    (d + '0' as int) as char
  }

  function DigitValue(c: char): (d: nat)
    requires IsDigit(c)
    ensures d < 10
  {
    c as int - '0' as int
  }

  function NatToString(n: nat): (s: string)
    ensures s != "" && AllDigits(s)
  {
    if n < 10 then [DigitChar(n)] else NatToString(n / 10) + [DigitChar(n % 10)]
  }

  /** A number's text, as template literals and JSON write whole numbers. */
  function IntToString(n: int): string {
    if n < 0 then "-" + NatToString(-n) else NatToString(n)
  }

  /** The empty text reads as zero, as in `BigInt(text || "0")`. */
  function ParseNat(s: string): nat
    requires AllDigits(s)
  {
    if s == "" then 0 else 10 * ParseNat(s[..|s| - 1]) + DigitValue(s[|s| - 1])
  }

  function Pow10(k: nat): (p: nat)
    ensures p > 0
  {
    if k == 0 then 1 else 10 * Pow10(k - 1)
  }

  function Zeros(k: nat): (s: string)
    ensures |s| == k && AllDigits(s)
  {
    seq(k, i => '0')
  }

  /** A numeral with no superfluous leading zero. */
  predicate CanonicalNumeral(s: string) {
    s != "" && AllDigits(s) && (|s| > 1 ==> s[0] != '0')
  }

  lemma {:induction false} ParseNatToString(n: nat)
    ensures ParseNat(NatToString(n)) == n
  {
    if n >= 10 {
      ParseNatToString(n / 10);
      assert NatToString(n)[..|NatToString(n)| - 1] == NatToString(n / 10);
    } else {
      assert [DigitChar(n)][..0] == "";
    }
  }

  lemma {:induction false} NatToStringCanonical(n: nat)
    ensures CanonicalNumeral(NatToString(n))
    ensures n > 0 ==> NatToString(n)[0] != '0'
  {
    if n >= 10 { NatToStringCanonical(n / 10); }
  }

  /** Canonical numerals are exactly the ones `NatToString` writes. */
  lemma {:induction false} CanonicalNumeralPrints(s: string)
    requires CanonicalNumeral(s)
    ensures NatToString(ParseNat(s)) == s
    ensures |s| > 1 ==> ParseNat(s) >= 10
  {
    var t := s[..|s| - 1];
    if |s| == 1 {
      assert t == "" && s == [s[0]];
    } else {
      assert t[0] == s[0];
      CanonicalNumeralPrints(t);
      if |t| == 1 { assert t[..0] == "" && ParseNat(t) == DigitValue(t[0]); }
      assert s == t + [s[|s| - 1]];
    }
  }

  lemma {:induction false} ParseNatBound(s: string)
    requires AllDigits(s)
    ensures ParseNat(s) < Pow10(|s|)
  {
    if s != "" { ParseNatBound(s[..|s| - 1]); }
  }

  lemma Shift(a: int, p: int, b: int, d: int)
    ensures 10 * (a * p + b) + d == a * (10 * p) + (10 * b + d)
  {
  }

  lemma {:induction false} ParseNatConcat(s: string, t: string)
    requires AllDigits(s) && AllDigits(t)
    ensures AllDigits(s + t) && ParseNat(s + t) == ParseNat(s) * Pow10(|t|) + ParseNat(t)
  {
    if t == "" {
      assert s + t == s;
    } else {
      var u := t[..|t| - 1];
      ParseNatConcat(s, u);
      assert (s + t)[..|s + t| - 1] == s + u;
      assert (s + t)[|s + t| - 1] == t[|t| - 1];
      Shift(ParseNat(s), Pow10(|u|), ParseNat(u), DigitValue(t[|t| - 1]));
    }
  }

  lemma {:induction false} ParseZeros(k: nat)
    ensures ParseNat(Zeros(k)) == 0
  {
    if k > 0 {
      ParseZeros(k - 1);
      assert Zeros(k)[..k - 1] == Zeros(k - 1);
    }
  }

  lemma {:induction false} Pow10Add(a: nat, b: nat)
    ensures Pow10(a + b) == Pow10(a) * Pow10(b)
  {
    if a > 0 { Pow10Add(a - 1, b); }
  }

  /** A numeral of a number below 10^k has at most k digits (one, when k is 0). */
  lemma {:induction false} NumeralLength(n: nat, k: nat)
    requires n < Pow10(k)
    ensures |NatToString(n)| <= if k == 0 then 1 else k
  {
    if n >= 10 { NumeralLength(n / 10, k - 1); }
  }
}
