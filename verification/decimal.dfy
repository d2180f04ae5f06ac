/** Decimal digits: writing a natural number, zero-padding it, and reading it back. */
module Decimal {

  predicate IsDigit(c: char) {
    '0' <= c <= '9'
  }

  predicate AllDigits(s: string) {
    forall i :: 0 <= i < |s| ==> IsDigit(s[i])
  }

  function DigitChar(d: nat): (c: char)
    requires d < 10
    ensures IsDigit(c)
  {
    (('0' as int) + d) as char
  }

  function DigitValue(c: char): (d: nat)
    requires IsDigit(c)
    ensures d < 10 && DigitChar(d) == c
  {
    (c as int) - ('0' as int)
  }

  /** The shortest decimal representation of `n`. */
  function Digits(n: nat): (s: string)
    ensures 1 <= |s| && AllDigits(s)
  {
    if n < 10 then [DigitChar(n)] else Digits(n / 10) + [DigitChar(n % 10)]
  }

  /** The shortest representation starts with a zero only for zero itself. */
  lemma {:induction false} DigitsLeading(n: nat)
    ensures Digits(n)[0] == '0' <==> n == 0
  {
    if n >= 10 {
      DigitsLeading(n / 10);
      assert Digits(n)[0] == Digits(n / 10)[0];
    }
  }

  /** `s` with zeros in front until it is at least `width` long. */
  function PadLeft(s: string, width: nat): (r: string)
    decreases width - |s|
  {
    if |s| >= width then s else PadLeft(['0'] + s, width)
  }

  /** `s` is a string of digits that denotes `n`. */
  predicate Denotes(s: string, n: nat) {
    AllDigits(s) && ParseDecimal(s) == n
  }

  /** The number a string of digits denotes. */
  function ParseDecimal(s: string): (n: nat)
    requires AllDigits(s)
  {
    if |s| == 0 then 0 else ParseDecimal(s[..|s| - 1]) * 10 + DigitValue(s[|s| - 1])
  }

  /** Padding only adds zeros in front: the length is the larger of the two and the digits are kept. */
  lemma {:induction false} PadLeftShape(s: string, width: nat)
    ensures |PadLeft(s, width)| == if |s| >= width then |s| else width
    ensures PadLeft(s, width) == Zeros(|PadLeft(s, width)| - |s|) + s
    decreases width - |s|
  {
    if |s| < width {
      PadLeftShape(['0'] + s, width);
      var k := |PadLeft(s, width)| - |s|;
      assert Zeros(k - 1) + (['0'] + s) == Zeros(k) + s by {
        ZerosSnoc(k - 1);
      }
    } else {
      assert Zeros(0) + s == s;
    }
  }

  function Zeros(k: nat): (z: string)
    ensures |z| == k && forall i :: 0 <= i < k ==> z[i] == '0'
  {
    if k == 0 then [] else ['0'] + Zeros(k - 1)
  }

  lemma ZerosSnoc(k: nat)
    ensures Zeros(k) + ['0'] == Zeros(k + 1)
  {
  }

  /** Reading the decimal representation of `n` gives `n` back. */
  lemma {:induction false} ParseDigits(n: nat)
    ensures ParseDecimal(Digits(n)) == n
  {
    if n >= 10 {
      var s := Digits(n);
      assert s[..|s| - 1] == Digits(n / 10);
      ParseDigits(n / 10);
    }
  }

  /** A leading zero does not change the value read. */
  lemma {:induction false} ParseLeadingZero(s: string)
    requires AllDigits(s)
    ensures AllDigits(['0'] + s) && ParseDecimal(['0'] + s) == ParseDecimal(s)
  {
    var z := ['0'] + s;
    if |s| > 0 {
      assert z[..|z| - 1] == ['0'] + s[..|s| - 1];
      ParseLeadingZero(s[..|s| - 1]);
    }
  }

  /** Zero-padding does not change the value read. */
  lemma {:induction false} ParsePadLeft(s: string, width: nat)
    requires AllDigits(s)
    ensures AllDigits(PadLeft(s, width)) && ParseDecimal(PadLeft(s, width)) == ParseDecimal(s)
    decreases width - |s|
  {
    if |s| < width {
      ParseLeadingZero(s);
      ParsePadLeft(['0'] + s, width);
    }
  }

  /** A number below 10^k needs at most k digits. */
  lemma {:induction false} DigitsLength(n: nat, k: nat)
    requires n < Pow10(k)
    ensures |Digits(n)| <= if k == 0 then 1 else k
  {
    if n >= 10 {
      assert Pow10(0) == 1 && Pow10(1) == 10;
      assert k >= 2;
      assert n / 10 < Pow10(k - 1);
      DigitsLength(n / 10, k - 1);
    }
  }

  function Pow10(k: nat): (p: nat)
    ensures p >= 1
  {
    if k == 0 then 1 else 10 * Pow10(k - 1)
  }

  /** The fixed-width, zero-padded representation of a number that fits in `width` digits. */
  lemma FixedWidth(n: nat, width: nat)
    requires 1 <= width && n < Pow10(width)
    ensures |PadLeft(Digits(n), width)| == width
    ensures AllDigits(PadLeft(Digits(n), width))
    ensures ParseDecimal(PadLeft(Digits(n), width)) == n
  {
    DigitsLength(n, width);
    PadLeftShape(Digits(n), width);
    ParsePadLeft(Digits(n), width);
    ParseDigits(n);
  }
}
