/**
 * Decimal text of natural numbers and integers, as PHP's printf-style
 * formatting (`%d`, `%02d`, `%04lld`) and its int-to-string conversion
 * produce it, together with the reading of digit strings back.
 */
module Decimal {

  predicate IsDigit(c: char) {
    '0' <= c <= '9'
  }

  predicate AllDigits(s: string) {
    forall i :: 0 <= i < |s| ==> IsDigit(s[i])
  }

  function DigitChar(n: nat): (c: char)
    requires n < 10
    ensures IsDigit(c) && DigitValue(c) == n
  {
    "0123456789"[n]
  }

  function DigitValue(c: char): nat
    requires IsDigit(c)
  {
    c as int - '0' as int
  }

  function Pow10(w: nat): (p: nat)
    ensures p >= 1
  {
    if w == 0 then 1 else 10 * Pow10(w - 1)
  }

  /** The number a string of decimal digits denotes (leading zeros allowed). */
  function ValueOf(s: string): (n: nat)
    requires AllDigits(s)
    ensures n < Pow10(|s|)
  {
    if s == [] then 0 else ValueOf(s[..|s| - 1]) * 10 + DigitValue(s[|s| - 1])
  }

  /** The shortest decimal text of `n`: "0" for zero, otherwise no leading zero. */
  function Digits(n: nat): (s: string)
    ensures 1 <= |s| && AllDigits(s)
    ensures |s| > 1 ==> s[0] != '0'
    ensures ValueOf(s) == n
    decreases n
  {
    if n < 10 then [DigitChar(n)]
    else
      var s := Digits(n / 10) + [DigitChar(n % 10)];
      assert s[..|s| - 1] == Digits(n / 10);
      s
  }

  function Zeros(k: nat): (s: string)
    ensures |s| == k && AllDigits(s)
    ensures forall i :: 0 <= i < k ==> s[i] == '0'
  {
    if k == 0 then [] else "0" + Zeros(k - 1)
  }

  /**
   * `n` in decimal, left-padded with zeros to at least `width` characters;
   * a wider number is written in full (C's `%0<width>d`).
   */
  function PadLeft(n: nat, width: nat): (s: string)
    ensures AllDigits(s) && ValueOf(s) == n
    ensures |s| == if |Digits(n)| < width then width else |Digits(n)|
    ensures 1 <= width && n < Pow10(width) ==> |s| == width
  {
    DigitsFit(n, width);
    var d := Digits(n);
    if |d| < width then
      LeadingZerosValue(width - |d|, d);
      Zeros(width - |d|) + d
    else d
  }

  /**
   * Integer-to-string conversion: the shortest decimal digits ("0" for
   * zero, otherwise no leading zero), after a minus sign when negative.
   */
  function IntText(i: int): (s: string)
    ensures 1 <= |s|
    ensures i >= 0 ==> AllDigits(s) && ValueOf(s) == i && (|s| > 1 ==> s[0] != '0')
    ensures i < 0 ==>
      && |s| >= 2 && s[0] == '-' && AllDigits(s[1..]) && ValueOf(s[1..]) == -i
      && (|s| > 2 ==> s[1] != '0')
  {
    if i < 0 then
      var s := "-" + Digits(-i);
      assert s[1..] == Digits(-i);
      s
    else Digits(i)
  }

  /** Leading zeros do not change the value of a digit string. */
  lemma {:induction false} LeadingZerosValue(k: nat, s: string)
    requires AllDigits(s)
    ensures AllDigits(Zeros(k) + s) && ValueOf(Zeros(k) + s) == ValueOf(s)
    decreases |s|
  {
    var z := Zeros(k);
    if s == [] {
      assert z + s == z;
      ZerosValue(k);
    } else {
      var t := z + s;
      assert t[..|t| - 1] == z + s[..|s| - 1];
      LeadingZerosValue(k, s[..|s| - 1]);
    }
  }

  lemma {:induction false} ZerosValue(k: nat)
    ensures ValueOf(Zeros(k)) == 0
  {
    if k > 0 {
      var z := Zeros(k);
      assert z[..k - 1] == Zeros(k - 1);
      ZerosValue(k - 1);
    }
  }

  /** A number below 10^w takes at most w digits. */
  lemma {:induction false} DigitsFit(n: nat, w: nat)
    ensures 1 <= w && n < Pow10(w) ==> |Digits(n)| <= w
    decreases n
  {
    if 1 <= w && n < Pow10(w) && n >= 10 {
      assert w >= 2;
      DigitsFit(n / 10, w - 1);
    }
  }

  /** Two digit strings of the same length that denote the same number are equal. */
  lemma {:induction false} ValueOfInjective(s: string, t: string)
    requires AllDigits(s) && AllDigits(t) && |s| == |t|
    requires ValueOf(s) == ValueOf(t)
    ensures s == t
    decreases |s|
  {
    if s != [] {
      var n := |s| - 1;
      var a, b := ValueOf(s[..n]), ValueOf(t[..n]);
      var c, d := DigitValue(s[n]), DigitValue(t[n]);
      assert a * 10 + c == b * 10 + d;
      assert c == d && a == b by {
        assert (a * 10 + c) % 10 == c && (b * 10 + d) % 10 == d;
        assert (a * 10 + c) / 10 == a && (b * 10 + d) / 10 == b;
      }
      ValueOfInjective(s[..n], t[..n]);
      assert s == s[..n] + [s[n]] && t == t[..n] + [t[n]];
    }
  }

  /** Reading a w-digit string and padding its value back to w digits gives the string again. */
  lemma PadLeftValueOf(s: string)
    requires 1 <= |s| && AllDigits(s)
    ensures PadLeft(ValueOf(s), |s|) == s
  {
    ValueOfInjective(PadLeft(ValueOf(s), |s|), s);
  }
}
