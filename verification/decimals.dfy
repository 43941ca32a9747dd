/** A simple decimal type with a parser and a formatter.  The parser stands in for the
    platform's decimal parse: an optional sign, decimal digits and an optional fractional
    part.  Like the platform's decimal, a value keeps its scale: "1.50" is 150 at scale 2. */
module Decimals {
  import opened Wrappers
  import opened Text

  /** The number mantissa * 10^(-scale). */
  datatype Decimal = Decimal(mantissa: int, scale: nat)

  predicate IsDigit(c: char)
  {
    '0' <= c <= '9'
  }

  predicate AllDigits(s: string)
  {
    forall i :: 0 <= i < |s| ==> IsDigit(s[i])
  }

  function DigitValue(c: char): nat
    requires IsDigit(c)
  {
    c as int - '0' as int
  }

  function DigitChar(n: nat): (c: char)
    requires n < 10
    ensures IsDigit(c) && DigitValue(c) == n
  {
    ('0' as int + n) as char
  }

  /** The number a string of decimal digits denotes, most significant digit first. */
  function DigitsValue(s: string): nat
    requires AllDigits(s)
  {
    if s == [] then 0 else DigitsValue(s[..|s| - 1]) * 10 + DigitValue(s[|s| - 1])
  }

  /** The shortest decimal digit string of `n`. */
  function NatDigits(n: nat): (r: string)
    ensures |r| >= 1 && AllDigits(r)
    ensures DigitsValue(r) == n
  {
    if n < 10 then [DigitChar(n)]
    else
      var r := NatDigits(n / 10) + [DigitChar(n % 10)];
      assert r[..|r| - 1] == NatDigits(n / 10);
      r
  }

  function Zeros(k: nat): (z: string)
    ensures |z| == k && AllDigits(z)
  {
    if k == 0 then "" else "0" + Zeros(k - 1)
  }

  /** A leading zero does not change the number a digit string denotes. */
  lemma {:induction false} LeadingZero(s: string)
    requires AllDigits(s)
    ensures AllDigits("0" + s)
    ensures DigitsValue("0" + s) == DigitsValue(s)
  {
    if s != [] {
      assert ("0" + s)[..|s|] == "0" + s[..|s| - 1];
      LeadingZero(s[..|s| - 1]);
    }
  }

  /** Leading zeros do not change the number a digit string denotes. */
  lemma {:induction false} LeadingZeros(k: nat, s: string)
    requires AllDigits(s)
    ensures AllDigits(Zeros(k) + s)
    ensures DigitsValue(Zeros(k) + s) == DigitsValue(s)
  {
    if k > 0 {
      assert Zeros(k) + s == "0" + (Zeros(k - 1) + s);
      LeadingZeros(k - 1, s);
      LeadingZero(Zeros(k - 1) + s);
    } else {
      assert Zeros(k) + s == s;
    }
  }

  /** The digits of `n`, padded on the left with zeros to at least `width` digits. */
  function PaddedDigits(n: nat, width: nat): (r: string)
    ensures |r| >= width && |r| >= 1 && AllDigits(r)
    ensures DigitsValue(r) == n
  {
    var d := NatDigits(n);
    var pad := if |d| < width then width - |d| else 0;
    LeadingZeros(pad, d);
    Zeros(pad) + d
  }

  /** Digits with a point placed before the last `scale` of them (no point at scale 0). */
  function WithPoint(digits: string, scale: nat): (t: string)
    requires |digits| > scale && AllDigits(digits)
    ensures t != [] && IsDigit(t[0])
  {
    var cut := |digits| - scale;
    digits[..cut] + (if scale == 0 then "" else "." + digits[cut..])
  }

  /** The digits of `n` at the given scale: at least one integer digit and, when the
      scale is positive, a point followed by exactly `scale` fractional digits. */
  function UnsignedText(n: nat, scale: nat): (t: string)
    ensures t != [] && IsDigit(t[0])
  {
    WithPoint(PaddedDigits(n, scale + 1), scale)
  }

  /** The absolute value of the mantissa. */
  function Magnitude(d: Decimal): nat
  {
    if d.mantissa < 0 then -d.mantissa else d.mantissa
  }

  /** Renders `d` as an optional minus sign followed by its unsigned text. */
  function FormatDecimal(d: Decimal): string
  {
    (if d.mantissa < 0 then "-" else "") + UnsignedText(Magnitude(d), d.scale)
  }

  /** Digit strings hold no decimal point. */
  lemma DigitsHaveNoPoint(s: string)
    requires AllDigits(s)
    ensures NoSep(s, '.')
  {
    assert forall i :: 0 <= i < |s| ==> IsDigit(s[i]);
  }

  /** Parses an unsigned number: digits with at most one point, at least one digit. */
  function ParseUnsigned(b: string): (r: Option<Decimal>)
    ensures r.Some? ==> r.value.mantissa >= 0
  {
    var parts := Split(b, '.');
    if |parts| > 2 then None
    else
      var intPart := parts[0];
      var frac := if |parts| == 2 then parts[1] else "";
      if AllDigits(intPart) && AllDigits(frac) && |intPart| + |frac| > 0 then
        Some(Decimal(DigitsValue(intPart + frac), |frac|))
      else
        None
  }

  /** An integer part followed, when there are fractional digits, by a point and the
      fractional digits, parses to all those digits at the fraction's scale. */
  lemma UnsignedParts(a: string, b: string)
    requires |a| >= 1 && AllDigits(a) && AllDigits(b)
    ensures ParseUnsigned(a + (if b == [] then "" else "." + b)) == Some(Decimal(DigitsValue(a + b), |b|))
  {
    DigitsHaveNoPoint(a);
    DigitsHaveNoPoint(b);
    if b == [] {
      assert a + "" == a && a + b == a;
      SplitWithoutSep(a, '.');
    } else {
      assert a + ("." + b) == a + ['.'] + b;
      SplitAfterPart(a, '.', b);
      SplitWithoutSep(b, '.');
      assert Split(a + ['.'] + b, '.') == [a, b];
    }
  }

  /** Parses an optionally signed decimal number. */
  function ParseDecimal(s: string): (r: Option<Decimal>)
    ensures r.Some? ==> s != []
  {
    if |s| > 0 && (s[0] == '-' || s[0] == '+') then
      match ParseUnsigned(s[1..])
      case None => None
      case Some(d) => Some(if s[0] == '-' then Decimal(-d.mantissa, d.scale) else d)
    else
      ParseUnsigned(s)
  }

  /** Cutting a digit string gives two digit strings that concatenate back to it. */
  lemma DigitSlices(digits: string, cut: nat)
    requires cut <= |digits| && AllDigits(digits)
    ensures AllDigits(digits[..cut]) && AllDigits(digits[cut..])
    ensures digits[..cut] + digits[cut..] == digits
  {
    assert forall i :: 0 <= i < cut ==> digits[..cut][i] == digits[i];
    assert forall i :: 0 <= i < |digits| - cut ==> digits[cut..][i] == digits[cut + i];
  }

  /** Digits with a point placed among them parse to all the digits at that scale. */
  lemma ParseWithPoint(digits: string, scale: nat)
    requires |digits| > scale && AllDigits(digits)
    ensures ParseUnsigned(WithPoint(digits, scale)) == Some(Decimal(DigitsValue(digits), scale))
  {
    var cut := |digits| - scale;
    var a, b := digits[..cut], digits[cut..];
    DigitSlices(digits, cut);
    UnsignedParts(a, b);
    assert WithPoint(digits, scale) == a + (if b == [] then "" else "." + b);
  }

  lemma ParseUnsignedText(n: nat, scale: nat)
    ensures ParseUnsigned(UnsignedText(n, scale)) == Some(Decimal(n, scale))
  {
    ParseWithPoint(PaddedDigits(n, scale + 1), scale);
  }

  /** Parsing reads back what formatting wrote, scale included. */
  lemma FormatThenParse(d: Decimal)
    ensures ParseDecimal(FormatDecimal(d)) == Some(d)
  {
    if d.mantissa < 0 {
      NegativeRoundTrip(d);
    } else {
      NonNegativeRoundTrip(d);
    }
  }

  lemma NegativeRoundTrip(d: Decimal)
    requires d.mantissa < 0
    ensures ParseDecimal(FormatDecimal(d)) == Some(d)
  {
    var t := UnsignedText(Magnitude(d), d.scale);
    ParseUnsignedText(Magnitude(d), d.scale);
    MinusReading(FormatDecimal(d), t, d);
  }

  lemma MinusReading(s: string, t: string, d: Decimal)
    requires d.mantissa < 0
    requires s == "-" + t
    requires ParseUnsigned(t) == Some(Decimal(-d.mantissa, d.scale))
    ensures ParseDecimal(s) == Some(d)
  {
    assert s[1..] == t;
  }

  lemma NonNegativeRoundTrip(d: Decimal)
    requires d.mantissa >= 0
    ensures ParseDecimal(FormatDecimal(d)) == Some(d)
  {
    ParseUnsignedText(Magnitude(d), d.scale);
    DigitLedReading(FormatDecimal(d), d);
  }

  lemma DigitLedReading(s: string, d: Decimal)
    requires d.mantissa >= 0
    requires s == UnsignedText(Magnitude(d), d.scale)
    requires ParseUnsigned(s) == Some(Decimal(Magnitude(d), d.scale))
    ensures ParseDecimal(s) == Some(d)
  {
    assert IsDigit(s[0]);
  }

  /** A text made only of digits denotes that whole number at scale 0. */
  lemma ParseWholeNumber(s: string)
    requires s != [] && AllDigits(s)
    ensures ParseDecimal(s) == Some(Decimal(DigitsValue(s), 0))
  {
    DigitsHaveNoPoint(s);
    SplitWithoutSep(s, '.');
    assert IsDigit(s[0]);
    assert s + "" == s;
  }

  /** A text that is the printed form of some decimal parses to that decimal. */
  lemma FormattedTextParses(s: string)
    ensures forall d :: s == FormatDecimal(d) ==> ParseDecimal(s) == Some(d)
  {
    forall d | s == FormatDecimal(d)
      ensures ParseDecimal(s) == Some(d)
    {
      FormatThenParse(d);
    }
  }

  /** Only digits, points and a leading sign can make up an accepted text. */
  lemma ParsedTextIsNumeric(s: string)
    requires ParseDecimal(s).Some?
    ensures forall i :: 0 <= i < |s| ==>
      IsDigit(s[i]) || s[i] == '.' || (i == 0 && (s[i] == '-' || s[i] == '+'))
  {
    var b := if s[0] == '-' || s[0] == '+' then s[1..] else s;
    var start := |s| - |b|;
    assert ParseUnsigned(b).Some?;
    UnsignedIsNumeric(b);
    forall i | start <= i < |s|
      ensures IsDigit(s[i]) || s[i] == '.'
    {
      assert s[i] == b[i - start];
    }
  }

  /** Only digits and points can make up an accepted unsigned text. */
  lemma UnsignedIsNumeric(b: string)
    requires ParseUnsigned(b).Some?
    ensures forall i :: 0 <= i < |b| ==> IsDigit(b[i]) || b[i] == '.'
  {
    var parts := Split(b, '.');
    JoinSplit(b, '.');
    if |parts| == 1 {
      assert b == parts[0];
    } else {
      assert parts == [parts[0], parts[1]];
      JoinTwo(parts[0], parts[1], '.');
      var intPart, frac := parts[0], parts[1];
      assert b == intPart + ['.'] + frac;
      forall i | 0 <= i < |b|
        ensures IsDigit(b[i]) || b[i] == '.'
      {
        if i < |intPart| {
          assert b[i] == intPart[i];
        } else if i > |intPart| {
          assert b[i] == frac[i - |intPart| - 1];
        }
      }
    }
  }
}
