/** The decimal numbers of a receipt's `total` and item `price` fields.

    main.go reads them with strconv.ParseFloat and then computes with
    float64. This module keeps the value exact: a parsed number is a sign, an
    integer mantissa and a power-of-ten scale, and the float expressions of
    the scoring rules (`x - float64(int64(x))`, `int(...)`, `math.Ceil`) are
    evaluated on its exact rational value. */
module Decimals {
  import opened Options
  import opened Digits

  /** (-1)^negative * mantissa / 10^scale; "-0.50" is Decimal(true, 50, 2). */
  datatype Decimal = Decimal(negative: bool, mantissa: nat, scale: nat)

  function Value(d: Decimal): (v: real)
    ensures v == 0.0 <==> d.mantissa == 0
    ensures if d.negative then v <= 0.0 else v >= 0.0
  {
    var magnitude := d.mantissa as real / Pow10(d.scale) as real;
    if d.negative then -magnitude else magnitude
  }

  /** Position of the first '.', or |s| when there is none. */
  function IndexOfDot(s: string): (k: nat)
    ensures k <= |s|
    ensures k < |s| ==> s[k] == '.'
    ensures forall i :: 0 <= i < k ==> s[i] != '.'
  {
    if s == [] || s[0] == '.' then 0 else 1 + IndexOfDot(s[1..])
  }

  /** An unsigned decimal: digits, optionally a '.' and more digits, at
      least one digit in all. The mantissa is the digits without the point. */
  function ParseUnsigned(body: string): (r: Option<Decimal>)
    ensures r.Some? ==> !r.value.negative && r.value.scale < |body|
  {
    var k := IndexOfDot(body);
    var whole := body[..k];
    var frac := if k < |body| then body[k + 1..] else "";
    if AllDigits(whole) && AllDigits(frac) && |whole| + |frac| > 0 then
      AllDigitsAppend(whole, frac);
      Some(Decimal(false, DigitsValue(whole + frac), |frac|))
    else
      None
  }

  /** strconv.ParseFloat on plain decimal notation: an optional sign, then
      an unsigned decimal ("5", "+5.", ".5", "-12.340"). Anything else is a
      syntax error. */
  function ParseDecimal(s: string): (r: Option<Decimal>)
    ensures r.Some? ==> s != [] && r.value.scale < |s| && (r.value.negative <==> s[0] == '-')
  {
    if |s| > 0 && (s[0] == '+' || s[0] == '-') then
      match ParseUnsigned(s[1..])
      case None => None
      case Some(d) => Some(d.(negative := s[0] == '-'))
    else
      ParseUnsigned(s)
  }

  /** The canonical text of `d`: a '-' when negative, at least one digit
      before the point, exactly `scale` digits after it. */
  function Format(d: Decimal): (s: string)
  {
    var digits := PaddedDigits(d.mantissa, d.scale + 1);
    var whole := digits[..|digits| - d.scale];
    var frac := digits[|digits| - d.scale..];
    (if d.negative then "-" else "") + whole + (if d.scale > 0 then "." + frac else "")
  }

  /** Go's conversion int64(x) of a float: truncation toward zero. */
  function Truncate(x: real): (r: int)
    ensures x >= 0.0 ==> r as real <= x < r as real + 1.0
    ensures x < 0.0 ==> r as real - 1.0 < x <= r as real
  {
    if x >= 0.0 then x.Floor else -((-x).Floor)
  }

  /** math.Ceil: the least integer not below x. */
  function Ceiling(x: real): (r: int)
    ensures x <= r as real < x + 1.0
  {
    -((-x).Floor)
  }

  /** `x - float64(int64(x))`: what is left after truncating toward zero. */
  function FractionalPart(x: real): (f: real)
    ensures -1.0 < f < 1.0
    ensures x >= 0.0 ==> f >= 0.0
    ensures x < 0.0 ==> f <= 0.0
  {
    x - Truncate(x) as real
  }

  // ---------------------------------------------------------------------
  // The grammar, both ways.

  /** "", "+" or "-". */
  predicate IsSign(sign: string) { |sign| <= 1 && (|sign| == 1 ==> sign[0] == '+' || sign[0] == '-') }

  predicate IsMinus(sign: string) { |sign| == 1 && sign[0] == '-' }

  /** Every sign / whole-digits / fraction-digits split parses to the
      mantissa whole·frac (the digits without the point) at scale |frac|. */
  lemma ParseDecimalOfParts(sign: string, whole: string, frac: string, dot: bool)
    requires IsSign(sign) && AllDigits(whole) && AllDigits(frac)
    requires |whole| + |frac| > 0 && (dot || frac == "")
    ensures ParseDecimal(sign + whole + (if dot then "." + frac else "")) ==
            Some(Decimal(IsMinus(sign), DigitsValue(whole + frac), |frac|))
  {
    var body := whole + (if dot then "." + frac else "");
    assert sign + whole + (if dot then "." + frac else "") == sign + body;
    ParseUnsignedOfParts(whole, frac, dot);
    if |sign| == 1 {
      assert sign == [sign[0]];
      ParseSigned(sign[0], body);
    } else {
      assert sign + body == body;
      assert body[0] == if whole != "" then whole[0] else '.';
      ParseUnsignedUnchanged(body);
    }
  }

  /** Text that starts with neither sign is parsed as an unsigned decimal. */
  lemma ParseUnsignedUnchanged(body: string)
    requires body != [] && body[0] != '+' && body[0] != '-'
    ensures ParseDecimal(body) == ParseUnsigned(body)
  {
  }

  lemma ParseSigned(c: char, body: string)
    requires c == '+' || c == '-'
    ensures ParseDecimal([c] + body) ==
            match ParseUnsigned(body)
            case None => None
            case Some(d) => Some(d.(negative := c == '-'))
  {
    assert ([c] + body)[1..] == body;
  }

  lemma ParseUnsignedOfParts(whole: string, frac: string, dot: bool)
    requires AllDigits(whole) && AllDigits(frac)
    requires |whole| + |frac| > 0 && (dot || frac == "")
    ensures ParseUnsigned(whole + (if dot then "." + frac else "")) ==
            Some(Decimal(false, DigitsValue(whole + frac), |frac|))
  {
    var rest := if dot then "." + frac else "";
    var body := whole + rest;
    IndexOfDotAfterDigits(whole, rest);
    var k := IndexOfDot(body);
    assert body[..k] == whole;
    assert (if k < |body| then body[k + 1..] else "") == frac;
  }

  lemma {:induction false} IndexOfDotAfterDigits(whole: string, rest: string)
    requires AllDigits(whole)
    requires rest == "" || rest[0] == '.'
    ensures IndexOfDot(whole + rest) == |whole|
    decreases |whole|
  {
    if whole != [] {
      assert (whole + rest)[1..] == whole[1..] + rest;
      IndexOfDotAfterDigits(whole[1..], rest);
    } else {
      assert whole + rest == rest;
    }
  }

  /** Digits and at most one '.', with at least one digit. */
  predicate PlainUnsigned(body: string) {
    && (forall i :: 0 <= i < |body| ==> IsDigit(body[i]) || body[i] == '.')
    && (forall i, j :: 0 <= i < j < |body| && body[i] == '.' ==> body[j] != '.')
    && (exists i :: 0 <= i < |body| && IsDigit(body[i]))
  }

  /** Only a sign followed by digits and a single point is accepted:
      exponents, hex forms, "Inf", "NaN", underscores and surrounding
      blanks are syntax errors. */
  lemma ParseDecimalAcceptsOnlyPlainNotation(s: string)
    requires ParseDecimal(s).Some?
    ensures s != []
    ensures PlainUnsigned(if s[0] == '+' || s[0] == '-' then s[1..] else s)
  {
    if s[0] == '+' || s[0] == '-' {
      ParseUnsignedAcceptsOnlyPlain(s[1..]);
    } else {
      ParseUnsignedAcceptsOnlyPlain(s);
    }
  }

  lemma ParseUnsignedAcceptsOnlyPlain(body: string)
    requires ParseUnsigned(body).Some?
    ensures PlainUnsigned(body)
  {
    var k := IndexOfDot(body);
    var whole := body[..k];
    var frac := if k < |body| then body[k + 1..] else "";
    forall i | 0 <= i < |body|
      ensures IsDigit(body[i]) || body[i] == '.'
    {
      if i < k { assert body[i] == whole[i]; }
      else if i > k { assert body[i] == frac[i - k - 1]; }
    }
    forall i, j | 0 <= i < j < |body| && body[i] == '.' ensures body[j] != '.' {
      assert i == k;
      assert body[j] == frac[j - k - 1];
    }
    if |whole| > 0 {
      assert IsDigit(body[0]) by { assert body[0] == whole[0]; }
    } else {
      assert IsDigit(body[k + 1]) by { assert body[k + 1] == frac[0]; }
    }
  }

  /** Format is a right inverse of ParseDecimal. */
  lemma ParseFormat(d: Decimal)
    ensures ParseDecimal(Format(d)) == Some(d)
  {
    var digits := PaddedDigits(d.mantissa, d.scale + 1);
    var whole := digits[..|digits| - d.scale];
    var frac := digits[|digits| - d.scale..];
    var sign := if d.negative then "-" else "";
    assert whole + frac == digits;
    ParseDecimalOfParts(sign, whole, frac, d.scale > 0);
    assert Format(d) == sign + whole + (if d.scale > 0 then "." + frac else "");
  }

  // ---------------------------------------------------------------------
  // The float expressions of the rules, evaluated exactly.

  /** For a positive divisor, Dafny's integer division is the floor of the
      real quotient. */
  lemma FloorQuotient(a: int, b: int)
    requires b > 0
    ensures (a as real / b as real).Floor == a / b
  {
    var q, r := a / b, a % b;
    var x := a as real / b as real;
    assert a as real == q as real * b as real + r as real;
    assert x == q as real + r as real / b as real;
    assert 0.0 <= r as real / b as real < 1.0;
  }

  /** Truncation commutes with negation. */
  lemma TruncateNegate(x: real)
    ensures Truncate(-x) == -Truncate(x)
    ensures FractionalPart(-x) == -FractionalPart(x)
  {
  }

  /** The truncation and the fractional part of a non-negative quotient. */
  lemma QuotientParts(m: int, p: int)
    requires m >= 0 && p > 0
    ensures Truncate(m as real / p as real) == m / p
    ensures FractionalPart(m as real / p as real) == (m % p) as real / p as real
  {
    FloorQuotient(m, p);
    var q, r := m / p, m % p;
    assert m as real == q as real * p as real + r as real;
    assert m as real / p as real == q as real + r as real / p as real;
  }

  /** int64(x) of a parsed number drops the fractional digits. */
  lemma TruncateValue(d: Decimal)
    ensures Truncate(Value(d)) == if d.negative then -(d.mantissa / Pow10(d.scale)) else d.mantissa / Pow10(d.scale)
  {
    var x := d.mantissa as real / Pow10(d.scale) as real;
    QuotientParts(d.mantissa, Pow10(d.scale));
    TruncateNegate(x);
  }

  /** `x - float64(int64(x))` of a parsed number is its fractional digits,
      with the number's sign. */
  lemma FractionalPartValue(d: Decimal)
    ensures var f := (d.mantissa % Pow10(d.scale)) as real / Pow10(d.scale) as real;
            FractionalPart(Value(d)) == if d.negative then -f else f
  {
    var x := d.mantissa as real / Pow10(d.scale) as real;
    QuotientParts(d.mantissa, Pow10(d.scale));
    TruncateNegate(x);
  }

  /** A number has no fractional part exactly when mantissa is a multiple of 10^scale,
      that is, when every digit after the point is '0'. */
  lemma WholeNumberIff(d: Decimal)
    ensures FractionalPart(Value(d)) == 0.0 <==> d.mantissa % Pow10(d.scale) == 0
  {
    FractionalPartValue(d);
  }

  /** The first two digits after the point, as a number 0..99. */
  function Cents(d: Decimal): int {
    (d.mantissa % Pow10(d.scale)) * 100 / Pow10(d.scale)
  }

  /** The cents Go computes, `int(100 * (x - float64(int64(x))))`, are the
      first two digits after the point, signed like x. */
  lemma CentsValue(d: Decimal)
    ensures Truncate(100.0 * FractionalPart(Value(d))) == if d.negative then -Cents(d) else Cents(d)
  {
    FractionalPartValue(d);
    TruncateHundredths(d.mantissa % Pow10(d.scale), Pow10(d.scale));
  }

  /** The two characters after the point as written, padded with '0'
      when the fraction is shorter: "5" gives "50", "" gives "00". */
  function CentsText(frac: string): (t: string)
    requires AllDigits(frac)
    ensures |t| == 2 && AllDigits(t)
    ensures forall i :: 0 <= i < 2 ==> t[i] == if i < |frac| then frac[i] else '0'
  {
    if |frac| >= 2 then frac[..2] else if |frac| == 1 then frac + "0" else "00"
  }

  /** The cents of a number written with digits `whole`, a point and digits
      `frac` are the first two characters of `frac`, padded with '0'. */
  lemma CentsOfParts(negative: bool, whole: string, frac: string)
    requires AllDigits(whole) && AllDigits(frac)
    ensures AllDigits(whole + frac)
    ensures Cents(Decimal(negative, DigitsValue(whole + frac), |frac|)) == DigitsValue(CentsText(frac))
  {
    DigitsValueAppend(whole, frac);
    DivUnique(DigitsValue(whole + frac), Pow10(|frac|), DigitsValue(whole), DigitsValue(frac));
    CentsOfFraction(frac);
  }

  /** The digits `frac` after the point, read as hundredths and truncated. */
  lemma CentsOfFraction(frac: string)
    requires AllDigits(frac)
    ensures DigitsValue(frac) * 100 / Pow10(|frac|) == DigitsValue(CentsText(frac))
  {
    if |frac| >= 2 {
      CentsOfLongFraction(frac);
    } else if |frac| == 1 {
      CentsOfOneDigit(frac);
    } else {
      CentsOfNoDigits(frac);
    }
  }

  lemma CentsOfLongFraction(frac: string)
    requires AllDigits(frac) && |frac| >= 2
    ensures DigitsValue(frac) * 100 / Pow10(|frac|) == DigitsValue(CentsText(frac))
  {
    var c, rest := frac[..2], frac[2..];
    assert CentsText(frac) == c;
    assert frac == c + rest;
    DigitsValueAppend(c, rest);
    Pow10Hundred(|frac|);
    LongFraction(DigitsValue(frac), Pow10(|frac|), DigitsValue(c), DigitsValue(rest), Pow10(|rest|));
  }

  lemma CentsOfOneDigit(frac: string)
    requires AllDigits(frac) && |frac| == 1
    ensures DigitsValue(frac) * 100 / Pow10(|frac|) == DigitsValue(CentsText(frac))
  {
    assert CentsText(frac) == frac + "0";
    DigitsValueAppend(frac, "0");
    assert DigitsValue("0") == 0 by { assert "0"[..0] == ""; }
    assert Pow10(1) == 10;
    DivUnique(DigitsValue(frac) * 100, 10, DigitsValue(frac) * 10, 0);
  }

  lemma CentsOfNoDigits(frac: string)
    requires frac == []
    ensures DigitsValue(frac) * 100 / Pow10(|frac|) == DigitsValue(CentsText(frac))
  {
    assert CentsText(frac) == "00";
    assert DigitsValue("00") == 0 by { assert "00"[..1] == "0" && "0"[..0] == ""; }
  }

  /** f = c·q + r with r < q and p = 100·q: the hundredths of f/p are c. */
  lemma LongFraction(f: int, p: int, c: int, r: int, q: int)
    requires f == c * q + r && 0 <= r < q && p == q * 100
    ensures f * 100 / p == c
  {
    assert f * 100 == c * p + r * 100;
    DivUnique(f * 100, p, c, r * 100);
  }

  lemma Pow10Hundred(k: nat)
    requires k >= 2
    ensures Pow10(k) == Pow10(k - 2) * 100
  {
    assert Pow10(k) == 10 * Pow10(k - 1);
    assert Pow10(k - 1) == 10 * Pow10(k - 2);
  }

  /** int(100 * f) for a fraction f = ±r/p. */
  lemma TruncateHundredths(r: int, p: int)
    requires 0 <= r && p > 0
    ensures Truncate(100.0 * (r as real / p as real)) == r * 100 / p
    ensures Truncate(100.0 * -(r as real / p as real)) == -(r * 100 / p)
  {
    var y := 100.0 * (r as real / p as real);
    assert y == (r * 100) as real / p as real;
    QuotientParts(r * 100, p);
    TruncateNegate(y);
    assert 100.0 * -(r as real / p as real) == -y;
  }

  lemma ValueZeroIff(d: Decimal)
    ensures Value(d) == 0.0 <==> d.mantissa == 0
  {
  }

  /** `math.Ceil(x * 0.2)`, with 0.2 taken exactly as 1/5: a ceiling
      division by 5·10^scale, rounding a negative number toward zero. */
  lemma CeilingFifth(d: Decimal)
    ensures var q := 5 * Pow10(d.scale);
            Ceiling(Value(d) * 0.2) ==
              if d.negative then -(d.mantissa / q) else (d.mantissa + q - 1) / q
  {
    var p := Pow10(d.scale);
    var q, m := 5 * p, d.mantissa;
    FifthOfQuotient(m, p);
    if d.negative {
      assert Value(d) * 0.2 == -(m as real / q as real);
      CeilingOfNegatedQuotient(m, q);
    } else {
      assert Value(d) * 0.2 == m as real / q as real;
      CeilingOfQuotient(m, q);
    }
  }

  lemma FifthOfQuotient(m: int, p: int)
    requires p > 0
    ensures (m as real / p as real) * 0.2 == m as real / (5 * p) as real
  {
  }

  /** The ceiling of a non-negative quotient is the rounded-up division. */
  lemma CeilingOfQuotient(m: int, q: int)
    requires m >= 0 && q > 0
    ensures Ceiling(m as real / q as real) == (m + q - 1) / q
  {
    FloorQuotient(-m, q);
    NegatedQuotient(m, q);
    assert -(m as real / q as real) == (-m) as real / q as real;
  }

  /** The ceiling of a non-positive quotient is the division rounded toward zero. */
  lemma CeilingOfNegatedQuotient(m: int, q: int)
    requires m >= 0 && q > 0
    ensures Ceiling(-(m as real / q as real)) == -(m / q)
  {
    FloorQuotient(m, q);
  }

  /** floor(-m / q) == -ceil(m / q) for integers. */
  lemma NegatedQuotient(m: int, q: int)
    requires m >= 0 && q > 0
    ensures (-m) / q == -((m + q - 1) / q)
  {
    var c := (m + q - 1) / q;
    var r := (m + q - 1) % q;
    var cq := c * q;
    assert m + q - 1 == cq + r;
    assert -m == -c * q + (q - 1 - r) by { assert -c * q == -cq; }
    DivUnique(-m, q, -c, q - 1 - r);
  }

  /** Integer division is determined by the remainder range. */
  lemma DivUnique(a: int, b: int, c: int, r: int)
    requires b > 0 && 0 <= r < b && a == c * b + r
    ensures a / b == c && a % b == r
  {
    var c', r' := a / b, a % b;
    assert (c - c') * b == r' - r;
    if c > c' {
      MulAtLeast(c - c', b);
    } else if c < c' {
      MulAtLeast(c' - c, b);
    }
  }

  /** A number is a multiple of k exactly when its negation is. */
  lemma MultipleNegate(c: int, k: int)
    requires k > 0
    ensures (-c) % k == 0 <==> c % k == 0
  {
    var q, r := c / k, c % k;
    if r == 0 {
      assert -c == (-q) * k + 0;
      DivUnique(-c, k, -q, 0);
    } else {
      assert -c == (-q - 1) * k + (k - r);
      DivUnique(-c, k, -q - 1, k - r);
    }
  }

  lemma {:induction false} MulAtLeast(x: int, b: int)
    requires x >= 1 && b >= 0
    ensures x * b >= b
    decreases x
  {
    if x > 1 {
      MulAtLeast(x - 1, b);
      assert x * b == (x - 1) * b + b;
    }
  }

  // ---------------------------------------------------------------------
  // Concrete totals.

  lemma ParseHundred()
    ensures ParseDecimal("100.00") == Some(Decimal(false, 10000, 2))
  {
    ParseDecimalOfParts("", "100", "00", true);
    assert "" + "100" + ("." + "00") == "100.00";
    DigitsValueAppend("100", "00");
    HundredDigits();
  }

  lemma HundredDigits()
    ensures DigitsValue("100") == 100 && DigitsValue("00") == 0 && Pow10(2) == 100
  {
    assert "100"[..2] == "10" && "10"[..1] == "1" && "1"[..0] == "";
    assert "00"[..1] == "0" && "0"[..0] == "";
  }

  lemma ParseTen()
    ensures ParseDecimal("10.00") == Some(Decimal(false, 1000, 2))
  {
    ParseDecimalOfParts("", "10", "00", true);
    assert "" + "10" + ("." + "00") == "10.00";
    DigitsValueAppend("10", "00");
    TenDigits();
  }

  lemma TenDigits()
    ensures DigitsValue("10") == 10 && DigitsValue("00") == 0 && Pow10(2) == 100
  {
    assert "10"[..1] == "1" && "1"[..0] == "";
    assert "00"[..1] == "0" && "0"[..0] == "";
  }

  lemma ParseZero()
    ensures ParseDecimal("0.00") == Some(Decimal(false, 0, 2))
  {
    ParseDecimalOfParts("", "0", "00", true);
    assert "" + "0" + ("." + "00") == "0.00";
    DigitsValueZero("0" + "00");
  }

  lemma ParseCents()
    ensures ParseDecimal("35.35") == Some(Decimal(false, 3535, 2))
  {
    ParseDecimalOfParts("", "35", "35", true);
    assert "" + "35" + ("." + "35") == "35.35";
    DigitsValueAppend("35", "35");
    CentsDigits();
  }

  lemma CentsDigits()
    ensures DigitsValue("35") == 35 && Pow10(2) == 100
  {
    assert "35"[..1] == "3" && "3"[..0] == "";
  }
}
