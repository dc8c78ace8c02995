/**
 * Decimal rendering and parsing of integers, as Java's String.format does it
 * for the conversions "%0Nd" (zero padded) and "%Nd" (space padded).
 */
module Decimal {

  predicate IsDigit(c: char) {
    '0' <= c <= '9'
  }

  predicate AllDigits(s: string) {
    forall i :: 0 <= i < |s| ==> IsDigit(s[i])
  }

  function DigitChar(d: int): (c: char)
    requires 0 <= d < 10
    ensures IsDigit(c)
  {
    (d + '0' as int) as char
  }

  function DigitValue(c: char): (d: nat)
    requires IsDigit(c)
    ensures d < 10
  {
    (c as int - '0' as int) as nat
  }

  lemma DigitRoundTrip(d: int)
    requires 0 <= d < 10
    ensures DigitValue(DigitChar(d)) == d
  {
  }

  /** The shortest decimal representation of n (no leading zeros, "0" for zero). */
  function Digits(n: nat): string
    decreases n
  {
    if n < 10 then [DigitChar(n)] else Digits(n / 10) + [DigitChar(n % 10)]
  }

  /** The representation is a non-empty digit string, with no leading zero from 10 on. */
  lemma {:induction false} DigitsShape(n: nat)
    ensures |Digits(n)| >= 1 && AllDigits(Digits(n))
    ensures n >= 10 ==> Digits(n)[0] != '0'
    decreases n
  {
    if n >= 10 {
      DigitsShape(n / 10);
    }
  }

  /** Reads a string of decimal digits back as a number (the empty string reads as 0). */
  function ParseNat(s: string): nat
    requires AllDigits(s)
    decreases |s|
  {
    if s == [] then 0 else ParseNat(s[..|s| - 1]) * 10 + DigitValue(s[|s| - 1])
  }

  function Repeat(c: char, n: nat): string
  {
    if n == 0 then [] else [c] + Repeat(c, n - 1)
  }

  lemma {:induction false} RepeatShape(c: char, n: nat)
    ensures |Repeat(c, n)| == n
    ensures forall i :: 0 <= i < n ==> Repeat(c, n)[i] == c
  {
    if n > 0 {
      RepeatShape(c, n - 1);
    }
  }

  /** s preceded by copies of c up to the given width; s itself when it is already that wide. */
  function PadLeft(s: string, width: int, c: char): string
  {
    if |s| >= width then s else Repeat(c, width - |s|) + s
  }

  /** Padding reaches the width, keeps s as the tail and fills the front with c. */
  lemma PadLeftShape(s: string, width: int, c: char)
    ensures var r := PadLeft(s, width, c);
      && |r| == (if |s| >= width then |s| else width)
      && r[|r| - |s|..] == s
      && forall i :: 0 <= i < |r| - |s| ==> r[i] == c
  {
    if |s| < width {
      RepeatShape(c, width - |s|);
      var r := PadLeft(s, width, c);
      assert r[|r| - |s|..] == s;
    }
  }

  /** Java's "%0<width>d": a minus sign first for negatives, zeros between sign and digits. */
  function ZeroPadded(n: int, width: int): string
  {
    if n < 0 then "-" + PadLeft(Digits(-n), width - 1, '0')
    else PadLeft(Digits(n), width, '0')
  }

  /** Java's "%<width>d" for a non-negative value: spaces in front. */
  function SpacePadded(n: nat, width: int): string
  {
    PadLeft(Digits(n), width, ' ')
  }

  lemma {:induction false} ParseDigits(n: nat)
    ensures AllDigits(Digits(n))
    ensures ParseNat(Digits(n)) == n
    decreases n
  {
    DigitsShape(n);
    if n >= 10 {
      var s := Digits(n);
      assert s == Digits(n / 10) + [DigitChar(n % 10)];
      assert s[..|s| - 1] == Digits(n / 10);
      ParseDigits(n / 10);
      DigitRoundTrip(n % 10);
    } else {
      DigitRoundTrip(n);
    }
  }

  lemma {:induction false} ParseZeros(k: nat)
    ensures AllDigits(Repeat('0', k)) && ParseNat(Repeat('0', k)) == 0
  {
    RepeatShape('0', k);
    if k > 0 {
      var z := Repeat('0', k);
      RepeatShape('0', k - 1);
      assert z[..k - 1] == Repeat('0', k - 1);
      ParseZeros(k - 1);
    }
  }

  /** Leading zeros do not change the value read. */
  lemma {:induction false} ParseLeadingZeros(k: nat, s: string)
    requires AllDigits(s)
    ensures AllDigits(Repeat('0', k) + s)
    ensures ParseNat(Repeat('0', k) + s) == ParseNat(s)
    decreases |s|
  {
    var z := Repeat('0', k);
    if s == [] {
      assert z + s == z;
      ParseZeros(k);
    } else {
      var t := z + s;
      assert t[..|t| - 1] == z + s[..|s| - 1];
      ParseLeadingZeros(k, s[..|s| - 1]);
    }
  }

  lemma ParsePadded(n: nat, width: int)
    ensures AllDigits(PadLeft(Digits(n), width, '0'))
    ensures ParseNat(PadLeft(Digits(n), width, '0')) == n
  {
    var d := Digits(n);
    ParseDigits(n);
    PadLeftShape(d, width, '0');
    if |d| < width {
      ParseLeadingZeros(width - |d|, d);
    }
  }

  /** Zero padding of a non-negative value is undone by parsing, for every width. */
  lemma ZeroPaddedRoundTrip(n: nat, width: int)
    ensures AllDigits(ZeroPadded(n, width))
    ensures ParseNat(ZeroPadded(n, width)) == n
  {
    ParsePadded(n, width);
  }

  /** A value below 10^width fills its zero padded field exactly. */
  lemma {:induction false} DigitsLength(n: nat, width: nat)
    requires n < Pow10(width)
    requires width >= 1
    ensures |Digits(n)| <= width
    decreases width
  {
    if n >= 10 {
      assert n / 10 < Pow10(width - 1);
      DigitsLength(n / 10, width - 1);
    }
  }

  function Pow10(k: nat): (p: nat)
    ensures p >= 1
  {
    if k == 0 then 1 else 10 * Pow10(k - 1)
  }
}
