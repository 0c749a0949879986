/**
 * The part of `pd.to_numeric(..., errors='coerce')` that the transaction log
 * exercises: a text cell holding a plain decimal number (the amounts and
 * prices of the lending log are written as strings of digits) becomes that
 * number, and any other text becomes a missing value.
 *
 * Accepted texts: an optional '+' or '-', then digits with at most one '.'
 * among them, with at least one digit in all ("12", "-0.5", ".5", "5.").
 */
module Decimal {
  import opened Options

  predicate IsDigit(c: char) {
    '0' <= c <= '9'
  }

  function DigitValue(c: char): (d: nat)
    requires IsDigit(c)
    ensures d <= 9
  {
    c as int - '0' as int
  }

  predicate AllDigits(s: string) {
    forall i :: 0 <= i < |s| ==> IsDigit(s[i])
  }

  /** The value of a string of digits, most significant digit first. */
  function DigitsValue(s: string): nat
    requires AllDigits(s)
  {
    if s == [] then 0 else DigitsValue(s[..|s| - 1]) * 10 + DigitValue(s[|s| - 1])
  }

  /** `10` raised to the power `n`. */
  function Pow10(n: nat): (p: nat)
    ensures p >= 1
  {
    if n == 0 then 1 else 10 * Pow10(n - 1)
  }

  /** The value `0.d1d2...dn` of the `n` digits written after a decimal point. */
  function FractionValue(s: string): (f: real)
    requires AllDigits(s)
    ensures f >= 0.0
  {
    DigitsValue(s) as real / Pow10(|s|) as real
  }

  /** The position of the first '.', or |s| when there is none. */
  function PointIndex(s: string): (k: nat)
    ensures k <= |s|
    ensures k < |s| ==> s[k] == '.'
    ensures forall j :: 0 <= j < k ==> s[j] != '.'
  {
    if s == [] then 0
    else if s[0] == '.' then 0
    else 1 + PointIndex(s[1..])
  }

  /** An unsigned decimal: digits, optionally a point and more digits. */
  function ParseUnsigned(s: string): (r: Option<real>)
    ensures r.Some? ==> r.value >= 0.0
  {
    var k := PointIndex(s);
    var whole := s[..k];
    var fraction := if k < |s| then s[k + 1..] else [];
    if AllDigits(whole) && AllDigits(fraction) && |whole| + |fraction| > 0 then
      Some(DigitsValue(whole) as real + FractionValue(fraction))
    else
      None
  }

  /** The number a text cell holds, or None for text that is not a number. */
  function ParseNumber(s: string): Option<real> {
    if |s| > 0 && s[0] == '-' then
      match ParseUnsigned(s[1..])
      case Some(v) => Some(-v)
      case None => None
    else if |s| > 0 && s[0] == '+' then
      ParseUnsigned(s[1..])
    else
      ParseUnsigned(s)
  }

  /** The decimal digits of `n`, the way a JSON encoder writes an integer. */
  function ShowNat(n: nat): (s: string)
    ensures |s| > 0 && AllDigits(s)
  {
    if n < 10 then [('0' as int + n) as char]
    else ShowNat(n / 10) + [('0' as int + n % 10) as char]
  }

  lemma {:induction false} DigitsOfShowNat(n: nat)
    ensures DigitsValue(ShowNat(n)) == n
  {
    var s := ShowNat(n);
    if n >= 10 {
      assert s[..|s| - 1] == ShowNat(n / 10);
      DigitsOfShowNat(n / 10);
    }
  }

  lemma NoPointIn(s: string)
    requires AllDigits(s)
    ensures PointIndex(s) == |s|
  {
  }

  /** An integer written in decimal reads back as itself. */
  lemma ParseShowNat(n: nat)
    ensures ParseNumber(ShowNat(n)) == Some(n as real)
  {
    var s := ShowNat(n);
    NoPointIn(s);
    assert s[..|s|] == s;
    DigitsOfShowNat(n);
    assert IsDigit(s[0]);
  }

  /** A negative integer written in decimal reads back as itself. */
  lemma ParseNegatedShowNat(n: nat)
    ensures ParseNumber("-" + ShowNat(n)) == Some(-(n as real))
  {
    var s := ShowNat(n);
    assert ("-" + s)[1..] == s;
    NoPointIn(s);
    assert s[..|s|] == s;
    DigitsOfShowNat(n);
  }

  /** Text holding a character that cannot occur in a number is not a number. */
  lemma ForeignCharacterRejected(s: string, i: nat)
    requires i < |s|
    requires !IsDigit(s[i]) && s[i] != '.' && s[i] != '+' && s[i] != '-'
    ensures ParseNumber(s) == None
  {
    var body := if s[0] == '-' || s[0] == '+' then s[1..] else s;
    var j := if s[0] == '-' || s[0] == '+' then i - 1 else i;
    assert i > 0 || (s[0] != '-' && s[0] != '+');
    assert 0 <= j < |body| && body[j] == s[i];
    UnsignedRejects(body, j);
  }

  lemma UnsignedRejects(s: string, j: nat)
    requires j < |s|
    requires !IsDigit(s[j]) && s[j] != '.'
    ensures ParseUnsigned(s) == None
  {
    var k := PointIndex(s);
    if j < k {
      assert s[..k][j] == s[j];
    } else {
      assert j != k;
      assert s[k + 1..][j - k - 1] == s[j];
    }
  }

  /** `n` digits spell a number below `10^n`. */
  lemma {:induction false} DigitsBelowPow10(s: string)
    requires AllDigits(s)
    ensures DigitsValue(s) < Pow10(|s|)
  {
    if s != [] {
      var p := s[..|s| - 1];
      assert AllDigits(p);
      DigitsBelowPow10(p);
      assert Pow10(|s|) == 10 * Pow10(|p|);
    }
  }

  lemma QuotientBelowOne(v: real, q: real)
    requires 0.0 <= v < q
    ensures v / q < 1.0
  {
    assert v / q * q == v;
  }

  /** The digits after a point are worth less than 1. */
  lemma FractionBelowOne(s: string)
    requires AllDigits(s)
    ensures 0.0 <= FractionValue(s) < 1.0
  {
    DigitsBelowPow10(s);
    QuotientBelowOne(DigitsValue(s) as real, Pow10(|s|) as real);
  }

  /** `b` written with exactly `n` digits, with leading zeros as needed. */
  function Padded(b: nat, n: nat): (s: string)
    ensures |s| == n && AllDigits(s)
  {
    if n == 0 then [] else Padded(b / 10, n - 1) + [('0' as int + b % 10) as char]
  }

  /** A number below `10^n` written with `n` digits reads back as itself. */
  lemma {:induction false} PaddedDigits(b: nat, n: nat)
    requires b < Pow10(n)
    ensures DigitsValue(Padded(b, n)) == b
  {
    if n > 0 {
      var s := Padded(b, n);
      assert s[..|s| - 1] == Padded(b / 10, n - 1);
      PaddedDigits(b / 10, n - 1);
    }
  }

  lemma {:induction false} PointAfterDigits(w: string, f: string)
    requires AllDigits(w)
    ensures PointIndex(w + "." + f) == |w|
  {
    if w != [] {
      PointAfterDigits(w[1..], f);
      assert (w + "." + f)[1..] == w[1..] + "." + f;
    }
  }

  /** Digits, a point and digits read as the whole part plus the fraction. */
  lemma UnsignedDecimal(w: string, f: string)
    requires AllDigits(w) && AllDigits(f) && |w| > 0
    ensures ParseUnsigned(w + "." + f) == Some(DigitsValue(w) as real + FractionValue(f))
  {
    var s := w + "." + f;
    PointAfterDigits(w, f);
    assert s[..|w|] == w;
    assert s[|w| + 1..] == f;
  }

  /**
   * Whole digits worth `a`, a point and `n` fraction digits worth `b` read as
   * `a + b / 10^n`.
   */
  lemma UnsignedDecimalValue(w: string, f: string, a: nat, b: nat, n: nat)
    requires AllDigits(w) && AllDigits(f) && |w| > 0
    requires DigitsValue(w) == a && DigitsValue(f) == b && |f| == n
    ensures ParseUnsigned(w + "." + f) == Some(a as real + b as real / Pow10(n) as real)
  {
    UnsignedDecimal(w, f);
  }

  /** Digits, a point and digits carry no sign: they read as an unsigned number. */
  lemma PointedDigitsParsed(w: string, f: string, a: nat, b: nat, n: nat)
    requires AllDigits(w) && AllDigits(f) && |w| > 0
    requires DigitsValue(w) == a && DigitsValue(f) == b && |f| == n
    ensures ParseNumber(w + "." + f) == Some(a as real + b as real / Pow10(n) as real)
  {
    UnsignedDecimalValue(w, f, a, b, n);
    assert (w + "." + f)[0] == w[0];
  }

  /**
   * A decimal written as the digits of `a`, a point and the `n`-digit
   * fraction `b` reads back as `a + b / 10^n`: "0.25" is 0 + 25/100 and
   * "12.05" is 12 + 5/100.
   */
  lemma ParseDecimal(a: nat, b: nat, n: nat)
    requires b < Pow10(n)
    ensures ParseNumber(ShowNat(a) + "." + Padded(b, n)) == Some(a as real + b as real / Pow10(n) as real)
  {
    DigitsOfShowNat(a);
    PaddedDigits(b, n);
    PointedDigitsParsed(ShowNat(a), Padded(b, n), a, b, n);
  }

  /**
   * A leading '-' negates the number the rest of the text spells, so with
   * `UnsignedDecimalValue` "-" followed by a decimal reads back negated.
   */
  lemma MinusParsed(u: string, v: real)
    requires ParseUnsigned(u) == Some(v)
    ensures ParseNumber("-" + u) == Some(-v)
  {
    assert ("-" + u)[1..] == u;
  }

  /** A negative decimal reads back as the negation of its digits' value. */
  lemma ParseNegatedDecimal(a: nat, b: nat, n: nat)
    requires b < Pow10(n)
    ensures ParseNumber("-" + (ShowNat(a) + "." + Padded(b, n)))
      == Some(-(a as real + b as real / Pow10(n) as real))
  {
    DigitsOfShowNat(a);
    PaddedDigits(b, n);
    NegatedPointedDigitsParsed(ShowNat(a), Padded(b, n), a, b, n);
  }

  /** The negated counterpart of `PointedDigitsParsed`. */
  lemma NegatedPointedDigitsParsed(w: string, f: string, a: nat, b: nat, n: nat)
    requires AllDigits(w) && AllDigits(f) && |w| > 0
    requires DigitsValue(w) == a && DigitsValue(f) == b && |f| == n
    ensures ParseNumber("-" + (w + "." + f)) == Some(-(a as real + b as real / Pow10(n) as real))
  {
    UnsignedDecimalValue(w, f, a, b, n);
    MinusParsed(w + "." + f, a as real + b as real / Pow10(n) as real);
  }

  /** A price as a transaction log writes it. */
  lemma QuarterParsed()
    ensures ParseNumber("0.25") == Some(0.25)
  {
    assert ShowNat(0) == "0";
    assert Padded(2, 1) == "2";
    assert Padded(25, 2) == "25";
    assert Pow10(2) == 100;
    ParseDecimal(0, 25, 2);
    assert ShowNat(0) + "." + Padded(25, 2) == "0.25";
  }

  /** `to_numeric` does not read thousands separators: "1,000" is not a number. */
  lemma SeparatorRejected()
    ensures ParseNumber("1,000") == None
  {
    ForeignCharacterRejected("1,000", 1);
  }
}
