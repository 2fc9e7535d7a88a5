/** Decimal digit strings: the building block of every parser in the model
    (ParseFloat's mantissa, the date's YYYY/MM/DD fields, the clock's H:MM). */
module Digits {

  predicate IsDigit(c: char) { '0' <= c <= '9' }

  predicate AllDigits(s: string) { forall i :: 0 <= i < |s| ==> IsDigit(s[i]) }

  function DigitValue(c: char): (v: nat)
    requires IsDigit(c)
    ensures v < 10
  {
    c as int - '0' as int
  }

  function DigitChar(v: nat): (c: char)
    requires v < 10
    ensures IsDigit(c) && DigitValue(c) == v
  {
    ('0' as int + v) as char
  }

  function Pow10(n: nat): (p: nat)
    ensures p >= 1
  {
    if n == 0 then 1 else 10 * Pow10(n - 1)
  }

  /** The number denoted by the digits of `s`, most significant first; "" denotes 0. */
  function DigitsValue(s: string): (v: nat)
    requires AllDigits(s)
    ensures v < Pow10(|s|)
  {
    if s == [] then 0 else DigitsValue(s[..|s| - 1]) * 10 + DigitValue(s[|s| - 1])
  }

  /** The decimal digits of `n`, left-padded with '0' to at least `width` characters. */
  function PaddedDigits(n: nat, width: nat): (s: string)
    ensures AllDigits(s) && DigitsValue(s) == n
    ensures |s| >= width
    ensures n < Pow10(width) ==> |s| == width
    decreases n, width
  {
    if n == 0 && width == 0 then ""
    else
      var prefix := PaddedDigits(n / 10, if width > 0 then width - 1 else 0);
      var s := prefix + [DigitChar(n % 10)];
      assert s[..|s| - 1] == prefix;
      s
  }

  lemma AllDigitsAppend(a: string, b: string)
    requires AllDigits(a) && AllDigits(b)
    ensures AllDigits(a + b)
  {
  }

  /** Appending digits shifts the value left: the digit-string form of `x * 10^k + y`. */
  lemma {:induction false} DigitsValueAppend(a: string, b: string)
    requires AllDigits(a) && AllDigits(b)
    ensures AllDigits(a + b)
    ensures DigitsValue(a + b) == DigitsValue(a) * Pow10(|b|) + DigitsValue(b)
    decreases |b|
  {
    AllDigitsAppend(a, b);
    if b != [] {
      var b' := b[..|b| - 1];
      assert (a + b)[..|a + b| - 1] == a + b';
      DigitsValueAppend(a, b');
      ShiftLeft(DigitsValue(a + b), DigitsValue(a + b'), DigitsValue(a), Pow10(|b'|),
                DigitsValue(b), DigitsValue(b'), DigitValue(b[|b| - 1]));
    } else {
      assert a + b == a;
    }
  }

  lemma ShiftLeft(v: int, v': int, x: int, p: int, y: int, y': int, d: int)
    requires v == v' * 10 + d && v' == x * p + y' && y == y' * 10 + d
    ensures v == x * (p * 10) + y
  {
  }

  /** A digit string is its own canonical zero-padded rendering at its own width. */
  lemma {:induction false} PaddedDigitsOfDigits(t: string)
    requires AllDigits(t)
    ensures PaddedDigits(DigitsValue(t), |t|) == t
    decreases |t|
  {
    if t != [] {
      var t' := t[..|t| - 1];
      var v := DigitsValue(t);
      PaddedDigitsOfDigits(t');
      assert v / 10 == DigitsValue(t') && v % 10 == DigitValue(t[|t| - 1]);
      assert DigitChar(DigitValue(t[|t| - 1])) == t[|t| - 1];
      assert t == t' + [t[|t| - 1]];
    }
  }

  /** A digit string denotes 0 exactly when every digit is '0'. */
  lemma {:induction false} DigitsValueZero(s: string)
    requires AllDigits(s)
    ensures DigitsValue(s) == 0 <==> forall i :: 0 <= i < |s| ==> s[i] == '0'
    decreases |s|
  {
    if s != [] {
      var s' := s[..|s| - 1];
      DigitsValueZero(s');
      assert (forall i :: 0 <= i < |s| ==> s[i] == '0') <==>
             (forall i :: 0 <= i < |s'| ==> s'[i] == '0') && s[|s| - 1] == '0';
    }
  }
}
