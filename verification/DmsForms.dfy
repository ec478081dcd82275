/** The widths of the fields of a written angle, and the numbers with an exponent among those that are read. */
module DmsForms {
  import opened Decimal
  import opened DmsRoundTrip
  import opened Dmstor
  import opened Rtodms
  import opened Wrappers

  // --- Fixed widths

  /** The text has d digits of degrees, two of minutes, two of whole seconds and fract of their fraction. */
  ghost predicate HasWidths(s: string, d: nat, fract: nat) {
    && |s| == d + (if fract == 0 then 7 else fract + 8)
    && s[d] == 'd' && s[d + 3] == '\'' && s[|s| - 1] == '"' && (fract > 0 ==> s[d + 6] == '.')
    && forall k {:trigger s[k]} ::
      0 <= k < |s| - 1 && k != d && k != d + 3 && (k != d + 6 || fract == 0) ==> IsDigit(s[k])
  }

  /** With fixed widths, only the degrees decide how long the text is. */
  lemma FixedWidths(n: nat, fract: nat)
    ensures HasWidths(Plain(n, fract, true), |Digits(Degrees(n, Pow10(fract)))|, fract)
  {
    hide Digits, Fixed, Quotient, Remainder;
    var p := Pow10(fract);
    FieldWidths(Digits(Degrees(n, p)), Fixed(Minutes(n, p), 2), Fixed(Quotient(Seconds(n, p), p), 2),
                Fraction(Remainder(Seconds(n, p), p), fract), fract);
  }

  lemma FieldWidths(d: string, m: string, q: string, f: string, fract: nat)
    requires AllDigits(d) && AllDigits(m) && |m| == 2 && AllDigits(q) && |q| == 2
    requires if fract == 0 then f == "" else |f| == fract + 1 && f[0] == '.' && AllDigits(f[1..])
    ensures HasWidths(AllFields(d, m, q + f), |d|, fract)
  {
    var s := AllFields(d, m, q + f);
    assert s == d + "d" + m + "'" + q + f + "\"";
    forall k {:trigger s[k]} | 0 <= k < |s| - 1 && k != |d| && k != |d| + 3 && (k != |d| + 6 || fract == 0)
      ensures IsDigit(s[k])
    {
      if k > |d| + 6 { assert s[k] == f[1..][k - |d| - 7]; }
    }
  }

  // --- The short form

  lemma {:induction false} StrippedEnd(d: string, f: string)
    requires d != "" && AllDigits(d) && AllDigits(f)
    ensures var r := Stripped(d + "." + f); r == d || (r != "" && IsDigit(r[|r| - 1]) && r[|r| - 1] != '0')
    decreases |f|
  {
    if f == "" {
      assert (d + "." + f)[..|d|] == d;
    } else if f[|f| - 1] == '0' {
      StripOne(d, f);
      StrippedEnd(d, f[..|f| - 1]);
    } else {
      NothingToStrip(d, f);
    }
  }

  lemma StrippedWholeEnd(m: nat)
    requires 0 < m < 60
    ensures var r := Stripped(Digits(m)); r != "" && IsDigit(r[|r| - 1]) && r[|r| - 1] != '0'
  {
    var s := Digits(m);
    LastDigit(m);
    if m % 10 == 0 {
      assert s[..|s| - 1] == Digits(m / 10) == [DigitChar(m / 10)];
      assert DigitValue(DigitChar(m / 10)) != 0;
    } else {
      assert DigitValue(s[|s| - 1]) != 0;
    }
  }

  /** The seconds that are written end in a digit, and not in a zero unless their fraction was all zeros. */
  lemma ShortSecondsEnd(m: nat, fract: nat)
    requires 0 < m < 60 * Pow10(fract)
    ensures var r := Stripped(PlainSeconds(m, fract));
      r != "" && IsDigit(r[|r| - 1]) && (r[|r| - 1] == '0' ==> fract > 0 && '.' !in r)
  {
    hide Quotient, Remainder;
    var d, f := Digits(Quotient(m, Pow10(fract))), Fixed(Remainder(m, Pow10(fract)), fract);
    if fract == 0 {
      WholeSeconds(m);
      StrippedWholeEnd(m);
    } else {
      Associate(d, ".", f);
      StrippedEnd(d, f);
    }
  }

  lemma WholeSeconds(m: nat)
    ensures Pow10(0) == 1 && PlainSeconds(m, 0) == Digits(m)
  {
  }

  /** The short form ends with the last field that is not zero, or with the degrees. */
  lemma ShortForm(n: nat, fract: nat)
    ensures var s, p := Plain(n, fract, false), Pow10(fract);
      s != "" && s[|s| - 1] == if Seconds(n, p) != 0 then '"' else if Minutes(n, p) != 0 then '\'' else 'd'
  {
    hide Digits, Stripped, PlainSeconds;
  }

  // --- Exponents

  function Exponent(minus: bool, x: string): string {
    "e" + (if minus then "-" else "") + x
  }

  /** v times or divided by ten to the power k. */
  function Scaled(v: real, k: nat, minus: bool): real {
    if minus then v / Pow10(k) as real else v * Pow10(k) as real
  }

  lemma ScaledIsPower(v: real, k: nat, minus: bool)
    ensures TimesPower(v, if minus then 0 - k else k) == Scaled(v, k, minus)
  {
    if k == 0 { assert Pow10(0) == 1; }
  }

  lemma ExponentTail(x: string, minus: bool, rest: string)
    requires x != "" && AllDigits(x) && (rest == "" || !IsDigit(rest[0]))
    ensures var s := Exponent(minus, x) + rest;
      ExponentLength(s) == |Exponent(minus, x)| && ExponentValue(s) == if minus then 0 - ValueOf(x) else ValueOf(x)
  {
    var head := "e" + if minus then "-" else "";
    var s := Exponent(minus, x) + rest;
    assert IsDigit(x[0]);
    assert s[1] == if minus then '-' else x[0];
    assert ExponentHead(s) == |head|;
    assert s[|head|..] == x + rest;
    DigitRunOf(x, rest);
    assert (x + rest)[..|x|] == x;
  }

  /** A number with an exponent is worth so many times the power of ten. */
  lemma ExponentNumeral(d: string, x: string, minus: bool)
    requires d != "" && AllDigits(d) && x != "" && AllDigits(x)
    ensures IsNumeral(d + Exponent(minus, x), Scaled(ValueOf(d) as real, ValueOf(x), minus))
  {
    hide Reads, Exponent, Scaled;
    var number, value := d + Exponent(minus, x), Scaled(ValueOf(d) as real, ValueOf(x), minus);
    forall rest: string {:trigger Reads(number + rest, number, value)} | rest != "" && EndsNumber(rest)
      ensures Reads(number + rest, number, value)
    {
      WithExponent(d, x, minus, rest, number + rest);
    }
  }

  lemma WithExponent(d: string, x: string, minus: bool, rest: string, s: string)
    requires d != "" && AllDigits(d) && x != "" && AllDigits(x) && (rest == "" || !IsDigit(rest[0]))
    requires s == d + Exponent(minus, x) + rest
    ensures Reads(s, d + Exponent(minus, x), Scaled(ValueOf(d) as real, ValueOf(x), minus))
  {
    hide ExponentLength, ExponentValue, TimesPower, Scaled, ValueOf, Pow10;
    var tail := Exponent(minus, x) + rest;
    WholeMantissa(d, tail, s);
    ExponentTail(x, minus, rest);
    ScaledIsPower(ValueOf(d) as real, ValueOf(x), minus);
    assert d + Exponent(minus, x) <= s;
  }

  lemma WholeMantissa(d: string, tail: string, s: string)
    requires d != "" && AllDigits(d) && tail != "" && tail[0] == 'e' && s == d + tail
    ensures MantissaLength(s) == |d| && MantissaValue(s) == ValueOf(d) as real && s[|d|..] == tail
  {
    DigitRunOf(d, tail);
    assert s[..|d|] == d;
  }
}
