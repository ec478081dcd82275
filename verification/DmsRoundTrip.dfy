/** What was written as degrees, minutes and seconds is read back. */
module DmsRoundTrip {
  import opened Decimal
  import opened Dmstor
  import opened Rtodms
  import opened Wrappers

  // --- One field

  /** A number followed by the mark of a field that may come next. */
  lemma OneField(number: string, value: real, c: char, rest: string, nl: nat, v: real, n: nat)
    requires Reads(number + ([c] + rest), number, value) && IsDigit(number[0])
    requires FieldOf(c) == Some(n) && nl <= n < 3
    ensures TakeField(number + ([c] + rest), nl, v) == Step(n + 1, AddField(v, value, n), rest)
  {
    var s := number + ([c] + rest);
    assert s[|number|..] == [c] + rest;
    assert ([c] + rest)[1..] == rest;
  }

  ghost predicate IsEnd(s: string) {
    s == "" || !(IsDigit(s[0]) || s[0] == '.')
  }

  lemma NoMoreFields(s: string, nl: nat, v: real)
    requires nl == 3 || (nl < 3 && IsEnd(s))
    ensures ReadFields(s, nl, v) == Fields(v, s)
  {
    if nl < 3 { assert TakeField(s, nl, v) == Step(LAST, v, s); }
  }

  /** The text of a field of which the number is worth this much, whatever mark comes after it. */
  ghost predicate IsNumeral(number: string, value: real) {
    number != "" && IsDigit(number[0])
    && forall rest: string {:trigger Reads(number + rest, number, value)} :: rest != "" && EndsNumber(rest) ==>
      Reads(number + rest, number, value)
  }

  lemma DigitsNumeral(d: string)
    requires d != "" && AllDigits(d)
    ensures IsNumeral(d, ValueOf(d) as real)
  {
    forall rest: string {:trigger Reads(d + rest, d, ValueOf(d) as real)} | rest != "" && EndsNumber(rest)
      ensures Reads(d + rest, d, ValueOf(d) as real)
    {
      ReadsWhole(d, rest);
    }
  }

  lemma FractionNumeral(d: string, f: string, number: string, x: real)
    requires d != "" && AllDigits(d) && AllDigits(f)
    requires number == d + "." + f && x == ValueOf(d) as real + FractionOf(f)
    ensures IsNumeral(number, x)
  {
    forall rest: string {:trigger Reads(number + rest, number, x)} | rest != "" && EndsNumber(rest)
      ensures Reads(number + rest, number, x)
    {
      ReadsFraction(d, f, rest);
    }
    assert number[0] == d[0];
  }

  lemma NumeralField(text: string, number: string, value: real, c: char, rest: string, nl: nat, v: real, n: nat)
    requires text == number + ([c] + rest) && IsNumeral(number, value) && FieldOf(c) == Some(n) && nl <= n < 3
    ensures ReadFields(text, nl, v) == ReadFields(rest, n + 1, AddField(v, value, n))
  {
    FollowedBy(number, value, c, rest);
    OneField(number, value, c, rest, nl, v, n);
  }

  lemma FollowedBy(number: string, value: real, c: char, rest: string)
    requires IsNumeral(number, value) && EndsNumber([c])
    ensures Reads(number + ([c] + rest), number, value)
  {
    var more := [c] + rest;
    assert more[0] == c;
  }

  // --- All fields

  lemma ThreeGrouped(d: string, m: string, s: string, end: string)
    ensures AllFields(d, m, s) + end == d + (['d'] + (m + (['\''] + (s + (['"'] + end)))))
  {
  }

  lemma TwoGrouped(d: string, m: string, end: string)
    ensures d + "d" + m + "'" + end == d + (['d'] + (m + (['\''] + end)))
  {
  }

  lemma SecondsLast(text: string, s: string, z: real, end: string, v: real)
    requires text == s + (['"'] + end) && IsNumeral(s, z)
    ensures ReadFields(text, 2, v) == Fields(AddField(v, z, 2), end)
  {
    NumeralField(text, s, z, '"', end, 2, v, 2);
    NoMoreFields(end, 3, AddField(v, z, 2));
  }

  lemma MinutesOn(text: string, m: string, y: real, third: string, v: real, f: Fields)
    requires text == m + (['\''] + third) && IsNumeral(m, y) && ReadFields(third, 2, AddField(v, y, 1)) == f
    ensures ReadFields(text, 1, v) == f
  {
    NumeralField(text, m, y, '\'', third, 1, v, 1);
  }

  lemma DegreesOn(text: string, d: string, x: real, second: string, f: Fields)
    requires text == d + (['d'] + second) && IsNumeral(d, x) && ReadFields(second, 1, AddField(0.0, x, 0)) == f
    ensures ReadFields(text, 0, 0.0) == f
  {
    NumeralField(text, d, x, 'd', second, 0, 0.0, 0);
  }

  lemma ThreeFields(d: string, m: string, s: string, x: real, y: real, z: real, end: string)
    requires IsNumeral(d, x) && IsNumeral(m, y) && IsNumeral(s, z)
    ensures ReadFields(AllFields(d, m, s) + end, 0, 0.0) ==
      Fields(AddField(AddField(AddField(0.0, x, 0), y, 1), z, 2), end)
  {
    var third := s + (['"'] + end);
    var second := m + (['\''] + third);
    var f := Fields(AddField(AddField(AddField(0.0, x, 0), y, 1), z, 2), end);
    SecondsLast(third, s, z, end, AddField(AddField(0.0, x, 0), y, 1));
    MinutesOn(second, m, y, third, AddField(0.0, x, 0), f);
    ThreeGrouped(d, m, s, end);
    DegreesOn(AllFields(d, m, s) + end, d, x, second, f);
  }

  lemma TwoFields(d: string, m: string, x: real, y: real, end: string, f: Fields)
    requires IsNumeral(d, x) && IsNumeral(m, y) && ReadFields(end, 2, AddField(AddField(0.0, x, 0), y, 1)) == f
    ensures ReadFields(d + "d" + m + "'" + end, 0, 0.0) == f
  {
    var second := m + (['\''] + end);
    MinutesOn(second, m, y, end, AddField(0.0, x, 0), f);
    TwoGrouped(d, m, end);
    DegreesOn(d + "d" + m + "'" + end, d, x, second, f);
  }

  lemma JustDegrees(d: string, x: real, end: string, f: Fields)
    requires IsNumeral(d, x) && ReadFields(end, 1, AddField(0.0, x, 0)) == f
    ensures ReadFields(d + "d" + end, 0, 0.0) == f
  {
    assert d + "d" + end == d + (['d'] + end);
    NumeralField(d + "d" + end, d, x, 'd', end, 0, 0.0, 0);
  }

  // --- The numerals that are written

  lemma WholeNumeral(n: nat)
    ensures IsNumeral(Digits(n), n as real)
  {
    DigitsValue(n);
    DigitsNumeral(Digits(n));
  }

  lemma TwoDigitNumeral(n: nat)
    requires n < 60
    ensures IsNumeral(Fixed(n, 2), n as real)
  {
    assert Pow10(1) == 10 && Pow10(2) == 100;
    FixedValue(n, 2);
    DigitsNumeral(Fixed(n, 2));
  }

  lemma Divided(m: nat, p: nat) returns (q: nat, r: nat)
    requires p > 0
    ensures q == Quotient(m, p) && r == Remainder(m, p) && r < p && q as real * p as real + r as real == m as real
  {
    q, r := m / p, m % p;
    assert m == q * p + r;
    assert (q * p) as real == q as real * p as real;
  }

  lemma SmallQuotient(m: nat, p: nat)
    requires p > 0 && m < 60 * p
    ensures Quotient(m, p) < 60
  {
  }

  /** q whole seconds and a fraction of r units. */
  lemma PartsWorth(q: nat, r: nat, fract: nat, m: real) returns (x: real)
    requires r < Pow10(fract) && q as real * Pow10(fract) as real + r as real == m
    ensures x == q as real + FixedFraction(r, fract) && x * Pow10(fract) as real == m
  {
    hide FixedFraction, Pow10;
    var y, p := FixedFractionValue(r, fract);
    x := q as real + y;
    SumTimes(q as real, y, p, r as real, m, x);
    assert x * p == x * Pow10(fract) as real;
  }

  lemma SumTimes(q: real, x: real, p: real, r: real, m: real, y: real)
    requires x * p == r && q * p + r == m && y == q + x
    ensures y * p == m
  {
    assert (q + x) * p == q * p + x * p;
  }

  lemma SameNumeral(a: string, b: string, x: real, y: real)
    requires IsNumeral(a, x) && a == b && x == y
    ensures IsNumeral(b, y)
  {
  }

  /** Two digits before the point: x seconds, which is m units. */
  lemma FixedSeconds(m: nat, fract: nat) returns (x: real)
    requires m < 60 * Pow10(fract)
    ensures IsNumeral(WideSeconds(m, fract), x) && x * Pow10(fract) as real == m as real
  {
    SmallQuotient(m, Pow10(fract));
    var q, r := Divided(m, Pow10(fract));
    x := PartsWorth(q, r, fract, m as real);
    if fract == 0 {
      FixedWhole(q, r, x, WideSeconds(m, 0));
    } else {
      FixedPoint(q, r, fract, x, WideSeconds(m, fract));
    }
  }

  lemma FixedWhole(q: nat, r: nat, x: real, number: string)
    requires q < 60 && x == q as real + FixedFraction(r, 0) && number == Fixed(q, 2) + Fraction(r, 0)
    ensures IsNumeral(number, x)
  {
    TwoDigitNumeral(q);
    assert Fraction(r, 0) == "";
    SameNumeral(Fixed(q, 2), number, q as real, x);
  }

  lemma FixedPoint(q: nat, r: nat, fract: nat, x: real, number: string)
    requires fract >= 1 && q < 60 && x == q as real + FixedFraction(r, fract)
    requires number == Fixed(q, 2) + Fraction(r, fract)
    ensures IsNumeral(number, x)
  {
    FixedValue2(q);
    FractionOfFixed(r, fract);
    PointNumeral(Fixed(q, 2), Fixed(r, fract), number, x);
  }

  lemma PointNumeral(d: string, f: string, number: string, x: real)
    requires d != "" && AllDigits(d) && AllDigits(f)
    requires number == d + ("." + f) && x == ValueOf(d) as real + FractionOf(f)
    ensures IsNumeral(number, x)
  {
    Associate(d, ".", f);
    FractionNumeral(d, f, number, x);
  }

  lemma FixedValue2(n: nat)
    requires n < 60
    ensures ValueOf(Fixed(n, 2)) == n
  {
    assert Pow10(1) == 10 && Pow10(2) == 100;
    FixedValue(n, 2);
  }

  /** Trailing zeros can be taken out of a number with a point. */
  lemma {:induction false} StrippedNumeral(d: string, f: string, number: string, x: real)
    requires d != "" && AllDigits(d) && AllDigits(f)
    requires number == d + "." + f && x == ValueOf(d) as real + FractionOf(f)
    ensures IsNumeral(Stripped(number), x)
    decreases |f|
  {
    if f == "" {
      assert number[..|number| - 1] == d && number[|number| - 1] == '.';
      DigitsNumeral(d);
      SameNumeral(d, Stripped(number), ValueOf(d) as real, x);
    } else if f[|f| - 1] == '0' {
      var g := f[..|f| - 1];
      DropZero(f);
      StrippedNumeral(d, g, d + "." + g, x);
      StripOne(d, f);
      SameNumeral(Stripped(d + "." + g), Stripped(number), x, x);
    } else {
      FractionNumeral(d, f, number, x);
      NothingToStrip(d, f);
      SameNumeral(number, Stripped(number), x, x);
    }
  }

  lemma StripOne(d: string, f: string)
    requires f != "" && f[|f| - 1] == '0'
    ensures Stripped(d + "." + f) == Stripped(d + "." + f[..|f| - 1])
  {
    var g := f[..|f| - 1];
    assert f == g + ['0'];
    Associate(d + ".", g, ['0']);
    StripLast(d + "." + f, d + "." + g);
  }

  lemma Associate(a: string, b: string, c: string)
    ensures a + (b + c) == a + b + c
  {
  }

  lemma StripLast(s: string, t: string)
    requires s == t + ['0']
    ensures Stripped(s) == Stripped(t)
  {
    assert s[..|s| - 1] == t;
  }

  lemma NothingToStrip(d: string, f: string)
    requires f != "" && AllDigits(f) && f[|f| - 1] != '0'
    ensures Stripped(d + "." + f) == d + "." + f
  {
    var s := d + "." + f;
    assert s[|s| - 1] == f[|f| - 1] && IsDigit(f[|f| - 1]);
  }

  /** The stripped seconds are read back if there is a point or the last digit is not a zero. */
  lemma StrippedSeconds(m: nat, fract: nat) returns (x: real)
    requires fract >= 1 || m % 10 != 0
    ensures IsNumeral(Stripped(PlainSeconds(m, fract)), x) && x * Pow10(fract) as real == m as real
  {
    var q, r := Divided(m, Pow10(fract));
    x := PartsWorth(q, r, fract, m as real);
    if fract == 0 {
      StrippedWhole(m, x);
    } else {
      StrippedFraction(q, r, fract, x, PlainSeconds(m, fract));
    }
  }

  lemma StrippedWhole(m: nat, x: real)
    requires m % 10 != 0 && x == Quotient(m, Pow10(0)) as real + FixedFraction(Remainder(m, Pow10(0)), 0)
    ensures IsNumeral(Stripped(PlainSeconds(m, 0)), x)
  {
    assert PlainSeconds(m, 0) == Digits(m) && x == m as real;
    LastDigit(m);
    WholeNumeral(m);
    SameNumeral(Digits(m), Stripped(PlainSeconds(m, 0)), m as real, x);
  }

  lemma StrippedFraction(q: nat, r: nat, fract: nat, x: real, number: string)
    requires fract >= 1 && x == q as real + FixedFraction(r, fract) && number == Digits(q) + Fraction(r, fract)
    ensures IsNumeral(Stripped(number), x)
  {
    DigitsValue(q);
    FractionOfFixed(r, fract);
    StrippedPieces(Digits(q), Fixed(r, fract), number, x);
  }

  lemma StrippedPieces(d: string, f: string, number: string, x: real)
    requires d != "" && AllDigits(d) && AllDigits(f) && number == d + ("." + f) &&
      x == ValueOf(d) as real + FractionOf(f)
    ensures IsNumeral(Stripped(number), x)
  {
    Associate(d, ".", f);
    StrippedNumeral(d, f, number, x);
  }

  lemma LastDigit(m: nat)
    ensures Digits(m)[|Digits(m)| - 1] == DigitChar(m % 10)
  {
  }

  /** Without a point, a zero at the end of the seconds is lost. */
  lemma EatenSeconds(m: nat)
    requires 0 < m < 60 && m % 10 == 0
    ensures IsNumeral(Stripped(PlainSeconds(m, 0)), (m / 10) as real)
  {
    assert PlainSeconds(m, 0) == Digits(m);
    var c := DigitChar(m / 10);
    assert DigitValue(c) != 0;
    assert Digits(m) == [c] + ['0'] && Digits(m)[..1] == [c] == Digits(m / 10);
    assert Stripped([c]) == [c];
    WholeNumeral(m / 10);
    SameNumeral(Digits(m / 10), Stripped(PlainSeconds(m, 0)), (m / 10) as real, (m / 10) as real);
  }

  // --- The angle that is read

  /** v is n units of 1/res seconds, in radians. */
  ghost predicate IsAngle(v: real, n: int, res: nat) {
    v * (3600.0 * res as real) == n as real * DEGREE
  }

  /** n units are deg degrees, min minutes and m units of seconds. */
  ghost predicate IsSplit(n: nat, deg: nat, min: nat, m: nat, res: nat) {
    n == (deg * 60 + min) * (60 * res) + m
  }

  /** x seconds are m units. */
  ghost predicate IsWorth(x: real, m: nat, res: nat) {
    x * res as real == m as real
  }

  /** The angle of x degrees, y minutes and z seconds. */
  function Angled(x: real, y: real, z: real): real {
    AddField(AddField(AddField(0.0, x, 0), y, 1), z, 2)
  }

  lemma AngleOfFields(deg: nat, min: nat, x: real, m: nat, n: nat, res: nat)
    requires IsWorth(x, m, res) && IsSplit(n, deg, min, m, res)
    ensures IsAngle(Angled(deg as real, min as real, x), n, res)
  {
    var d, k, p := deg as real, min as real, res as real;
    assert n as real == (d * 60.0 + k) * (60.0 * p) + m as real by { RealUnits(deg, min, res, m, n); }
    SumOfFields(d, k, x, p, m as real, n as real, Angled(d, k, x));
  }

  lemma RealUnits(deg: nat, min: nat, res: nat, m: nat, n: nat)
    requires n == (deg * 60 + min) * (60 * res) + m
    ensures n as real == (deg as real * 60.0 + min as real) * (60.0 * res as real) + m as real
  {
    var a, b := deg * 60 + min, 60 * res;
    assert (a * b) as real == a as real * b as real;
  }

  lemma SumOfFields(d: real, k: real, x: real, p: real, m: real, n: real, v: real)
    requires x * p == m && n == (d * 60.0 + k) * (60.0 * p) + m
    requires v == d * DEGREE + k * (DEGREE / 60.0) + x * (DEGREE / 3600.0)
    ensures v * (3600.0 * p) == n * DEGREE
  {
    assert v == (d * 3600.0 + k * 60.0 + x) * (DEGREE / 3600.0);
    assert (d * 3600.0 + k * 60.0 + x) * p == n;
  }

  /** The only texts that lose digits: whole seconds in the short form, when they end in a zero. */
  ghost predicate KeepsDigits(n: nat, fract: nat, dolong: bool) {
    fract >= 1 || dolong || Seconds(n, 1) == 0 || Seconds(n, 1) % 10 != 0
  }

  lemma LongRead(deg: nat, min: nat, m: nat, fract: nat, end: string) returns (x: real)
    requires min < 60 && m < 60 * Pow10(fract)
    ensures ReadFields(PlainFields(deg, min, m, fract, true) + end, 0, 0.0) ==
      Fields(Angled(deg as real, min as real, x), end)
    ensures IsWorth(x, m, Pow10(fract))
  {
    x := FixedSeconds(m, fract);
    WholeNumeral(deg);
    TwoDigitNumeral(min);
    ThreeFields(Digits(deg), Fixed(min, 2), WideSeconds(m, fract), deg as real, min as real, x, end);
  }

  lemma ShortRead(deg: nat, min: nat, m: nat, fract: nat, end: string) returns (x: real)
    requires m != 0 && (fract >= 1 || m % 10 != 0)
    ensures ReadFields(PlainFields(deg, min, m, fract, false) + end, 0, 0.0) ==
      Fields(Angled(deg as real, min as real, x), end)
    ensures IsWorth(x, m, Pow10(fract))
  {
    x := StrippedSeconds(m, fract);
    WholeNumeral(deg);
    WholeNumeral(min);
    ThreeFields(Digits(deg), Digits(min), Stripped(PlainSeconds(m, fract)), deg as real, min as real, x, end);
  }

  lemma NoSecondsRead(deg: nat, min: nat, fract: nat, end: string) returns (x: real)
    requires IsEnd(end)
    ensures ReadFields(PlainFields(deg, min, 0, fract, false) + end, 0, 0.0) ==
      Fields(Angled(deg as real, min as real, x), end)
    ensures IsWorth(x, 0, Pow10(fract))
  {
    x := 0.0;
    var v := Angled(deg as real, min as real, x);
    NoMoreFields(end, FieldsWritten(min), v);
    ShortFields(deg, min, fract, end, Fields(v, end));
  }

  /** How many fields a text without seconds has. */
  function FieldsWritten(min: nat): nat {
    if min != 0 then 2 else 1
  }

  /** After a text without seconds, what follows may be read as another field. */
  lemma ShortFields(deg: nat, min: nat, fract: nat, end: string, f: Fields)
    requires ReadFields(end, FieldsWritten(min), Angled(deg as real, min as real, 0.0)) == f
    ensures ReadFields(PlainFields(deg, min, 0, fract, false) + end, 0, 0.0) == f
  {
    WholeNumeral(deg);
    WholeNumeral(min);
    NoSeconds(deg as real, min as real);
    if min != 0 {
      TwoFields(Digits(deg), Digits(min), deg as real, min as real, end, f);
    } else {
      JustDegrees(Digits(deg), deg as real, end, f);
    }
  }

  lemma NoSeconds(x: real, y: real)
    ensures Angled(x, y, 0.0) == AddField(AddField(0.0, x, 0), y, 1)
    ensures y == 0.0 ==> Angled(x, y, 0.0) == AddField(0.0, x, 0)
  {
  }

  lemma EatenRead(deg: nat, min: nat, m: nat, end: string)
    requires 0 < m < 60 && m % 10 == 0
    ensures ReadFields(PlainFields(deg, min, m, 0, false) + end, 0, 0.0)
         == Fields(Angled(deg as real, min as real, (m / 10) as real), end)
  {
    EatenSeconds(m);
    WholeNumeral(deg);
    WholeNumeral(min);
    ThreeFields(Digits(deg), Digits(min), Stripped(PlainSeconds(m, 0)), deg as real, min as real,
      (m / 10) as real, end);
  }

  lemma PlainFieldsRead(deg: nat, min: nat, m: nat, fract: nat, dolong: bool, end: string) returns (x: real)
    requires min < 60 && m < 60 * Pow10(fract) && (dolong || m != 0 || IsEnd(end))
    requires fract >= 1 || dolong || m == 0 || m % 10 != 0
    ensures ReadFields(PlainFields(deg, min, m, fract, dolong) + end, 0, 0.0) ==
      Fields(Angled(deg as real, min as real, x), end)
    ensures IsWorth(x, m, Pow10(fract))
  {
    if dolong {
      x := LongRead(deg, min, m, fract, end);
    } else if m != 0 {
      x := ShortRead(deg, min, m, fract, end);
    } else {
      x := NoSecondsRead(deg, min, fract, end);
    }
  }

  lemma Parts(n: nat, res: nat) returns (deg: nat, min: nat, m: nat)
    requires res > 0
    ensures deg == Degrees(n, res) && min == Minutes(n, res) && m == Seconds(n, res)
    ensures IsSplit(n, deg, min, m, res) && min < 60 && m < 60 * res
  {
    deg, min, m := Degrees(n, res), Minutes(n, res), Seconds(n, res);
    PartsAddUp(n, res);
  }

  lemma PlainRead(n: nat, fract: nat, dolong: bool, end: string) returns (v: real)
    requires KeepsDigits(n, fract, dolong) && (dolong || Seconds(n, Pow10(fract)) != 0 || IsEnd(end))
    ensures ReadFields(Plain(n, fract, dolong) + end, 0, 0.0) == Fields(v, end) && IsAngle(v, n, Pow10(fract))
  {
    var deg, min, m := Parts(n, Pow10(fract));
    assert fract >= 1 || dolong || m == 0 || m % 10 != 0 by { assert Pow10(0) == 1; }
    var x := PlainFieldsRead(deg, min, m, fract, dolong, end);
    v := Angled(deg as real, min as real, x);
    AngleOfFields(deg, min, x, m, n, Pow10(fract));
  }

  /** In the other texts, ten times the seconds are missing a factor of ten: another angle is read. */
  lemma PlainMisread(n: nat, end: string) returns (v: real)
    requires !KeepsDigits(n, 0, false)
    ensures ReadFields(Plain(n, 0, false) + end, 0, 0.0) == Fields(v, end)
    ensures IsAngle(v, n - Seconds(n, 1) + Seconds(n, 1) / 10, 1) && !IsAngle(v, n, 1)
  {
    var deg, min, m := Parts(n, 1);
    assert Pow10(0) == 1;
    EatenRead(deg, min, m, end);
    v := Angled(deg as real, min as real, (m / 10) as real);
    Misplaced(n, deg, min, m, m / 10);
    AngleOfFields(deg, min, (m / 10) as real, m / 10, n - m + m / 10, 1);
    OneAngle(v, n, n - m + m / 10);
  }

  lemma Misplaced(n: nat, deg: nat, min: nat, m: nat, k: nat)
    requires IsSplit(n, deg, min, m, 1)
    ensures n >= m && IsSplit(n - m + k, deg, min, k, 1) && IsWorth(k as real, k, 1)
  {
  }

  lemma OneAngle(v: real, n: int, k: int)
    requires IsAngle(v, k, 1) && k != n
    ensures !IsAngle(v, n, 1)
  {
  }

  // --- The whole text

  ghost predicate Printable(s: string) {
    forall k {:trigger s[k]} :: 0 <= k < |s| ==> IsGraph(s[k])
  }

  lemma {:induction false} AllVisible(s: string, limit: nat)
    requires Printable(s) && |s| <= limit
    ensures Visible(s, limit) == |s|
  {
    if s != "" { AllVisible(s[1..], limit - 1); }
  }

  lemma {:induction false} StrippedPrintable(s: string)
    requires Printable(s)
    ensures Printable(Stripped(s))
  {
    if s != "" && s[|s| - 1] == '0' { StrippedPrintable(s[..|s| - 1]); }
  }

  lemma FieldsPrintable(d: string, m: string, s: string)
    requires Printable(d) && Printable(m) && Printable(s)
    ensures Printable(AllFields(d, m, s)) && Printable(d + "d" + m + "'") && Printable(d + "d")
  {
  }

  lemma PlainPrintable(deg: nat, min: nat, m: nat, fract: nat, dolong: bool)
    requires deg < Pow10(10) && min < 60 && m < 60 * Pow10(fract) && fract < 9
    ensures var s := PlainFields(deg, min, m, fract, dolong); Printable(s) && 0 < |s| <= 30 && IsDigit(s[0])
  {
    hide Digits, Fixed, Stripped, PlainSeconds, WideSeconds, Pow10;
    DigitsLength(deg, 10);
    ShortMinutes(min);
    ShortSeconds(m, fract);
    FieldsPrintable(Digits(deg), Fixed(min, 2), WideSeconds(m, fract));
    FieldsPrintable(Digits(deg), Digits(min), Stripped(PlainSeconds(m, fract)));
  }

  lemma ShortMinutes(min: nat)
    requires min < 60
    ensures |Digits(min)| <= 2 && |Fixed(min, 2)| == 2
  {
    assert Pow10(1) == 10 && Pow10(2) == 100;
    DigitsLength(min, 2);
  }

  lemma ShortSeconds(m: nat, fract: nat)
    requires m < 60 * Pow10(fract) && fract < 9
    ensures Printable(WideSeconds(m, fract)) && |WideSeconds(m, fract)| <= 11
    ensures Printable(Stripped(PlainSeconds(m, fract))) && |Stripped(PlainSeconds(m, fract))| <= 11
  {
    var q := Quotient(m, Pow10(fract));
    SmallQuotient(m, Pow10(fract));
    ShortMinutes(q);
    StrippedPrintable(PlainSeconds(m, fract));
  }

  /** Letters that say which way the angle goes: none, or ones that dmstor knows. */
  ghost predicate GoodLetters(pos: Option<char>, neg: Option<char>) {
    pos.Some? ==> NorthOrEast(pos.value) && neg.Some? && SouthOrWest(neg.value)
  }

  /** The degrees have ten digits at most, which is more than a 32-bit int can hold. */
  ghost predicate InReach(r: real, fract: nat) {
    Units(Magnitude(r), Pow10(fract)) >= 0 && Degrees(Units(Magnitude(r), Pow10(fract)), Pow10(fract)) < Pow10(10)
  }

  function Magnitude(r: real): (m: real)
    ensures m >= 0.0
  {
    if r < 0.0 then -r else r
  }

  lemma ReadPrintable(s: string)
    requires Printable(s) && 0 < |s| < MAX_WORK
    ensures Read(s) == ReadWork(s, 0)
  {
    assert s[0..] == s;
    AllVisible(s, MAX_WORK - 1);
    assert s[..|s|] == s;
  }

  lemma WorkRead(work: string, body: string, v: real)
    requires body == (if HasSign(work) then work[1..] else work) && ReadFields(body, 0, 0.0) == Fields(v, "")
    ensures ReadWork(work, 0) == Angle(if HasSign(work) && work[0] == '-' then -v else v, |work|)
  {
    FieldsDirected(work, Fields(v, ""));
  }

  lemma FieldsDirected(work: string, f: Fields)
    requires ReadFields(Body(work), 0, 0.0) == f
    ensures f.Fields? ==> |f.rest| <= |work|
    ensures ReadWork(work, 0) == Directed(HasSign(work) && work[0] == '-', f, |work|)
  {
  }

  /** Without a sign before it. */
  lemma UnsignedDirected(work: string, f: Fields)
    requires work != "" && IsDigit(work[0]) && ReadFields(work, 0, 0.0) == f
    ensures f.Fields? ==> |f.rest| <= |work|
    ensures ReadWork(work, 0) == Directed(false, f, |work|)
  {
    NoSign(work);
    FieldsDirected(work, f);
  }

  lemma NoSign(work: string)
    requires work != "" && IsDigit(work[0])
    ensures !HasSign(work) && Body(work) == work
  {
  }

  lemma LetterDirected(v: real, c: char, end: nat)
    requires IsDirection(c) && end >= 1
    ensures Directed(false, Fields(v, [c]), end) == Angle(if SouthOrWest(c) then -v else v, end)
  {
  }

  /** A text with a letter at the end, or none. */
  lemma SignedRead(s: string, v: real, sign: Option<char>)
    requires Printable(s) && 0 < |s| < MAX_WORK && IsDigit(s[0])
    requires (sign.Some? ==> IsDirection(sign.value)) && |Letter(sign)| <= |s|
    requires ReadFields(s, 0, 0.0) == Fields(v, Letter(sign))
    ensures Read(s) == Angle(if sign.Some? && SouthOrWest(sign.value) then -v else v, |s|)
  {
    SignedWork(s, v, sign);
    ReadPrintable(s);
  }

  lemma SignedWork(s: string, v: real, sign: Option<char>)
    requires s != "" && IsDigit(s[0]) && (sign.Some? ==> IsDirection(sign.value))
    requires ReadFields(s, 0, 0.0) == Fields(v, Letter(sign))
    ensures ReadWork(s, 0) == Angle(if sign.Some? && SouthOrWest(sign.value) then -v else v, |s|)
  {
    hide ReadFields, ReadWork;
    UnsignedDirected(s, Fields(v, Letter(sign)));
    if sign.Some? { LetterDirected(v, sign.value, |s|); }
  }

  lemma MinusRead(s: string, plain: string, v: real)
    requires Printable(s) && 0 < |s| < MAX_WORK && s == "-" + plain
    requires ReadFields(plain, 0, 0.0) == Fields(v, "")
    ensures Read(s) == Angle(-v, |s|)
  {
    ReadPrintable(s);
    assert s[1..] == plain;
    WorkRead(s, plain, v);
  }

  /** The letter at the end of the text for r. */
  function EndLetter(r: real, pos: Option<char>, neg: Option<char>): Option<char> {
    if r < 0.0 && pos.Some? then neg else pos
  }

  lemma LetterEnds(c: Option<char>)
    requires c.Some? ==> IsDirection(c.value)
    ensures IsEnd(Letter(c)) && Printable(Letter(c)) && |Letter(c)| <= 1
  {
  }

  lemma TextRead(r: real, pos: Option<char>, neg: Option<char>, s: string, plain: string, v: real)
    requires GoodLetters(pos, neg) && Printable(plain) && 0 < |plain| <= 30 && IsDigit(plain[0])
    requires s == if r < 0.0 && pos == None then "-" + plain else plain + Letter(EndLetter(r, pos, neg))
    requires ReadFields(plain + Letter(EndLetter(r, pos, neg)), 0, 0.0) == Fields(v, Letter(EndLetter(r, pos, neg)))
    ensures Read(s) == Angle(if r < 0.0 then -v else v, |s|)
  {
    var sign := EndLetter(r, pos, neg);
    LettersApart(pos);
    LetterEnds(sign);
    if r < 0.0 && pos == None {
      MinusTextRead(s, plain, v);
    } else {
      LetterTextRead(s, plain, sign, v);
    }
  }

  lemma MinusTextRead(s: string, plain: string, v: real)
    requires Printable(plain) && 0 < |plain| <= 30 && s == "-" + plain
    requires ReadFields(plain + "", 0, 0.0) == Fields(v, "")
    ensures Read(s) == Angle(-v, |s|)
  {
    NoLetter(plain, v);
    MinusPrintable(plain, s);
    MinusRead(s, plain, v);
  }

  lemma NoLetter(plain: string, v: real)
    requires ReadFields(plain + "", 0, 0.0) == Fields(v, "")
    ensures ReadFields(plain, 0, 0.0) == Fields(v, "")
  {
    assert plain + "" == plain;
  }

  lemma MinusPrintable(plain: string, s: string)
    requires Printable(plain) && s == "-" + plain
    ensures Printable(s) && |s| == |plain| + 1
  {
  }

  lemma LetterTextRead(s: string, plain: string, sign: Option<char>, v: real)
    requires Printable(plain) && 0 < |plain| <= 30 && IsDigit(plain[0]) && s == plain + Letter(sign)
    requires (sign.Some? ==> IsDirection(sign.value)) && Printable(Letter(sign)) && |Letter(sign)| <= 1
    requires ReadFields(s, 0, 0.0) == Fields(v, Letter(sign))
    ensures Read(s) == Angle(if sign.Some? && SouthOrWest(sign.value) then -v else v, |s|)
  {
    Joined(plain, Letter(sign), s);
    SignedRead(s, v, sign);
  }

  lemma Joined(a: string, b: string, s: string)
    requires s == a + b && Printable(a) && Printable(b) && a != ""
    ensures Printable(s) && s[0] == a[0] && |s| == |a| + |b|
  {
  }

  lemma LettersApart(pos: Option<char>)
    requires pos.Some? ==> NorthOrEast(pos.value)
    ensures pos.Some? ==> IsDirection(pos.value) && !SouthOrWest(pos.value)
  {
  }

  // --- The round trip

  lemma TextParts(r: real, fract: nat, dolong: bool, pos: Option<char>, neg: Option<char>, plain: string)
    requires Units(Magnitude(r), Pow10(fract)) >= 0 && plain == Plain(Units(Magnitude(r), Pow10(fract)), fract, dolong)
    ensures Text(r, fract, dolong, pos, neg) ==
      if r < 0.0 && pos == None then "-" + plain else plain + Letter(EndLetter(r, pos, neg))
  {
  }

  /** The text that rtodms writes is read to its end by dmstor, with the sign of the angle; as the rounded angle exactly
      if no digits were lost. */
  lemma RoundTrip(r: real, fract: nat, dolong: bool, pos: Option<char>, neg: Option<char>) returns (v: real)
    requires fract < 9 && GoodLetters(pos, neg) && InReach(r, fract)
    ensures var s := Text(r, fract, dolong, pos, neg); Read(s) == Angle(if r < 0.0 then -v else v, |s|)
    ensures var n := Units(Magnitude(r), Pow10(fract));
      IsAngle(v, n, Pow10(fract)) <==> KeepsDigits(n, fract, dolong)
  {
    var n, sign := Units(Magnitude(r), Pow10(fract)), EndLetter(r, pos, neg);
    var plain := Plain(n, fract, dolong);
    var deg, min, m := Parts(n, Pow10(fract));
    PlainPrintable(deg, min, m, fract, dolong);
    LettersApart(pos);
    LetterEnds(sign);
    if KeepsDigits(n, fract, dolong) {
      v := PlainRead(n, fract, dolong, Letter(sign));
    } else {
      assert Pow10(0) == 1;
      v := PlainMisread(n, Letter(sign));
    }
    TextParts(r, fract, dolong, pos, neg, plain);
    TextRead(r, pos, neg, Text(r, fract, dolong, pos, neg), plain, v);
  }

  /** The rounded angle is within half a unit of the angle given. */
  lemma Rounded(x: real, n: int, res: nat, v: real)
    requires x >= 0.0 && res > 0 && n == Units(x, res) && IsAngle(v, n, res)
    ensures -0.5 * DEGREE <= (v - x) * (3600.0 * res as real) <= 0.5 * DEGREE
  {
    var u := 3600.0 * res as real;
    var y := x * (u / DEGREE);
    assert n as real <= y + 0.5 < n as real + 1.0;
    assert y * DEGREE == x * u;
    assert (v - x) * u == v * u - x * u;
  }
}
