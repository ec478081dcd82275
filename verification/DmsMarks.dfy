/** What the mark after a number makes of it. */
module DmsMarks {
  import opened Decimal
  import opened DmsRoundTrip
  import opened Dmstor
  import opened Wrappers

  predicate IsRadians(c: char) {
    c == 'r' || c == 'R'
  }

  predicate IsMark(c: char) {
    IsRadians(c) || c == 'd' || c == 'D' || c == '\'' || c == '"'
  }

  /** A unit of the mark, in radians. */
  function Unit(c: char): real
    requires IsMark(c)
  {
    if IsRadians(c) then 1.0
    else if c == 'd' || c == 'D' then DEGREE
    else if c == '\'' then DEGREE / 60.0
    else DEGREE / 3600.0
  }

  /** The first of two marks is of a larger unit than the second, and neither stands for radians. */
  predicate InOrder(c: char, e: char) {
    IsMark(c) && IsMark(e) && !IsRadians(c) && !IsRadians(e) && Unit(c) > Unit(e)
  }

  /** A number that can be read. */
  ghost predicate IsField(number: string, value: real) {
    IsNumeral(number, value) && Printable(number)
  }

  lemma FieldText(number: string, value: real, c: char, rest: string)
    requires IsField(number, value) && IsMark(c) && Printable(rest)
    ensures var s := number + ([c] + rest); Printable(s) && IsDigit(s[0]) && !HasSign(s) && s != ""
  {
    hide Reads, EndsNumber;
  }

  lemma FieldReads(number: string, value: real, c: char, rest: string)
    requires IsField(number, value) && IsMark(c)
    ensures var s := number + ([c] + rest);
      && NumberLength(s) == |number| && NumberValue(s) == value && s[|number|..] == [c] + rest
      && ([c] + rest)[1..] == rest && s != "" && IsDigit(s[0])
  {
    hide NumberLength, NumberValue;
    FollowedBy(number, value, c, rest);
  }

  lemma RadiansField(number: string, value: real, c: char, rest: string, nl: nat, v: real)
    requires IsField(number, value) && IsRadians(c) && nl < 3
    ensures TakeField(number + ([c] + rest), nl, v) == if nl > 0 then Wrong else Step(LAST, value, rest)
  {
    hide NumberLength, NumberValue, IsField;
    FieldReads(number, value, c, rest);
  }

  lemma EarlierField(number: string, value: real, c: char, rest: string, nl: nat, v: real)
    requires IsField(number, value) && IsMark(c) && !IsRadians(c) && FieldOf(c).value < nl < 3
    ensures TakeField(number + ([c] + rest), nl, v) == Wrong
  {
    hide NumberLength, NumberValue, IsField;
    FieldReads(number, value, c, rest);
  }

  lemma UnitOfField(v: real, value: real, c: char)
    requires IsMark(c) && !IsRadians(c)
    ensures AddField(v, value, FieldOf(c).value) == v + value * Unit(c)
  {
  }

  /** A marked number at the end, as field number nl or later. */
  lemma LastField(number: string, value: real, c: char, s: string, nl: nat, v: real)
    requires IsField(number, value) && IsMark(c) && s == number + [c] && nl < 3
    ensures ReadFields(s, nl, v) ==
      if IsRadians(c) then (if nl > 0 then BadFields else Fields(value, ""))
      else if FieldOf(c).value < nl then BadFields else Fields(v + value * Unit(c), "")
  {
    hide TakeField, AddField, IsNumeral, Printable, Unit;
    assert s == number + ([c] + "") by { assert [c] + "" == [c]; }
    if IsRadians(c) {
      RadiansField(number, value, c, "", nl, v);
    } else if FieldOf(c).value < nl {
      EarlierField(number, value, c, "", nl, v);
    } else {
      var n := FieldOf(c).value;
      NumeralField(s, number, value, c, "", nl, v, n);
      NoMoreFields("", n + 1, AddField(v, value, n));
      UnitOfField(v, value, c);
    }
  }

  /** A number with a mark is read as so many radians, degrees, minutes or seconds, and with a minus sign before it as
      so many less than nothing. No more than 63 characters are read. */
  lemma MarkedNumber(number: string, value: real, c: char)
    requires IsField(number, value) && IsMark(c)
    ensures |number| + 1 <= 63 ==> Read(number + [c]) == Angle(value * Unit(c), |number| + 1)
    ensures |number| + 2 <= 63 ==> Read("-" + (number + [c])) == Angle(-(value * Unit(c)), |number| + 2)
  {
    hide ReadFields, Read, IsNumeral, Unit;
    var s, v := number + [c], value * Unit(c);
    assert [c] + "" == [c];
    FieldText(number, value, c, "");
    LastField(number, value, c, s, 0, 0.0);
    RadiansUnit(value, c);
    if |s| <= 63 { SignedRead(s, v, None); }
    if |s| <= 62 { MinusRead("-" + s, s, v); }
  }

  lemma RadiansUnit(value: real, c: char)
    requires IsMark(c)
    ensures 0.0 + value * Unit(c) == value * Unit(c) && (IsRadians(c) ==> value * Unit(c) == value)
  {
  }

  /** Of two marked numbers, of which the first is in degrees or minutes, the second must be of a smaller unit; then
      they add up. */
  lemma TwoMarks(first: string, x: real, c: char, second: string, y: real, e: char, s: string)
    requires IsField(first, x) && IsField(second, y) && IsMark(c) && IsMark(e) && !IsRadians(c) && c != '"'
    requires s == first + ([c] + (second + [e])) && |s| <= 63
    ensures Read(s) == if InOrder(c, e) then Angle(x * Unit(c) + y * Unit(e), |s|) else BadDms
  {
    hide ReadFields, Read, ReadWork, IsNumeral, Unit, InOrder;
    var t, n := second + [e], FieldOf(c).value;
    assert [e] + "" == [e];
    FieldText(second, y, e, "");
    FieldText(first, x, c, t);
    NumeralField(s, first, x, c, t, 0, 0.0, n);
    UnitOfField(0.0, x, c);
    LastField(second, y, e, t, n + 1, 0.0 + x * Unit(c));
    ReadPrintable(s);
    FieldsInOrder(c, e);
    FieldsDirected(s, ReadFields(s, 0, 0.0));
  }

  lemma FieldsInOrder(c: char, e: char)
    requires IsMark(c) && IsMark(e) && !IsRadians(c) && c != '"'
    ensures InOrder(c, e) <==> !IsRadians(e) && FieldOf(e).value > FieldOf(c).value
    ensures FieldOf(c).value < 2
  {
  }

  // --- Numbers without a mark

  /** The unit of a number without a mark: degrees at first, and after a mark the next smaller unit. */
  function UnitAt(nl: nat): real
    requires nl < 3
  {
    if nl == 0 then DEGREE else if nl == 1 then DEGREE / 60.0 else DEGREE / 3600.0
  }

  lemma UnmarkedField(s: string, number: string, value: real, rest: string, nl: nat, v: real)
    requires Reads(s, number, value) && s[|number|..] == rest && IsDigit(number[0]) && nl < 3
    requires rest == "" || !IsMark(rest[0])
    ensures ReadFields(s, nl, v) == Fields(v + value * UnitAt(nl), rest)
  {
    hide NumberLength, NumberValue;
    assert TakeField(s, nl, v) == Step(LAST, AddField(v, value, nl), rest);
  }

  /** A number without a mark, at the end or before anything that is no mark, is read as degrees. */
  lemma UnmarkedNumber(n: nat, letter: Option<char>)
    requires |Digits(n)| <= 62 && (letter.Some? ==> IsDirection(letter.value))
    ensures var x, s := n as real * DEGREE, Digits(n) + if letter.Some? then [letter.value] else "";
      Read(s) == Angle(if letter.Some? && SouthOrWest(letter.value) then -x else x, |s|)
  {
    hide ReadFields, Read, Reads, Digits;
    var end := if letter.Some? then [letter.value] else "";
    var s := Digits(n) + end;
    DigitsValue(n);
    if letter.Some? { ReadsBefore(Digits(n), letter.value); } else { ReadsWhole(Digits(n), end); }
    assert s[|Digits(n)|..] == end;
    assert letter.Some? ==> !IsMark(letter.value);
    UnmarkedField(s, Digits(n), n as real, end, 0, 0.0);
    FieldsPrinted(s, n, end);
    SignedRead(s, n as real * DEGREE, letter);
  }

  /** An E without digits after it is not part of the number. */
  lemma ReadsBefore(d: string, c: char)
    requires d != "" && AllDigits(d) && !IsDigit(c) && c != '.'
    ensures Reads(d + [c], d, ValueOf(d) as real)
  {
    var s := d + [c];
    DigitRunOf(d, [c]);
    assert s[..|d|] == d && s[|d|..] == [c];
    assert MantissaLength(s) == |d| && MantissaValue(s) == ValueOf(d) as real;
    assert ExponentHead([c]) <= 1 && DigitRun([c][1..]) == 0;
  }

  lemma FieldsPrinted(s: string, n: nat, end: string)
    requires s == Digits(n) + end && Printable(end)
    ensures Printable(s) && s != "" && IsDigit(s[0])
  {
  }

  /** After a field with a mark it is of the next smaller unit. */
  lemma UnmarkedSecond(first: string, x: real, c: char, n: nat, s: string)
    requires IsField(first, x) && IsMark(c) && !IsRadians(c) && c != '"'
    requires s == first + ([c] + Digits(n)) && |s| <= 63
    ensures Read(s) == Angle(x * Unit(c) + n as real * (Unit(c) / 60.0), |s|)
  {
    hide ReadFields, Read, ReadWork, IsNumeral, Digits, Reads;
    var t, k := Digits(n), FieldOf(c).value;
    assert t + "" == t && t[|t|..] == "";
    DigitsValue(n);
    ReadsWhole(t, "");
    FieldsPrinted(t, n, "");
    FieldText(first, x, c, t);
    NumeralField(s, first, x, c, t, 0, 0.0, k);
    UnitOfField(0.0, x, c);
    UnmarkedField(t, t, n as real, "", k + 1, 0.0 + x * Unit(c));
    ReadPrintable(s);
    FieldsDirected(s, ReadFields(s, 0, 0.0));
    assert UnitAt(k + 1) == Unit(c) / 60.0;
  }

  /** For instance: n radians, n degrees, and with a fraction. */
  lemma WrittenNumbers(n: nat, f: string)
    requires AllDigits(f) && |Digits(n)| + |f| <= 61
    ensures Read(Digits(n) + "r") == Angle(n as real, |Digits(n)| + 1)
    ensures Read(Digits(n) + "d") == Angle(n as real * DEGREE, |Digits(n)| + 1)
    ensures Read(Digits(n) + "." + f + "r") == Angle(n as real + FractionOf(f), |Digits(n)| + |f| + 2)
  {
    hide Read, IsNumeral, Digits, FractionOf, ValueOf;
    var d, x := Digits(n), n as real + FractionOf(f);
    WholeNumeral(n);
    DigitsValue(n);
    FractionNumeral(d, f, d + "." + f, x);
    MarkedNumber(d, n as real, 'r');
    MarkedNumber(d, n as real, 'd');
    MarkedNumber(d + "." + f, x, 'r');
    RadiansUnit(n as real, 'r');
    RadiansUnit(x, 'r');
  }

  // --- Around the text

  ghost predicate AllSpaces(p: string) {
    forall k {:trigger p[k]} :: 0 <= k < |p| ==> IsSpace(p[k])
  }

  lemma {:induction false} SpacesBefore(p: string, s: string)
    requires AllSpaces(p)
    ensures Spaces(p + s) == |p| + Spaces(s)
  {
    if p == "" {
      assert p + s == s;
    } else {
      assert (p + s)[1..] == p[1..] + s;
      SpacesBefore(p[1..], s);
    }
  }

  function Later(r: Reading, n: nat): Reading {
    if r.Angle? then Angle(r.value, r.end + n) else r
  }

  /** Spaces in front are skipped. */
  lemma SpacesSkipped(p: string, s: string)
    requires AllSpaces(p)
    ensures Read(p + s) == Later(Read(s), |p|)
  {
    hide ReadFields;
    SpacesBefore(p, s);
    var n := Spaces(s);
    assert (p + s)[|p| + n..] == s[n..];
  }

  lemma {:induction false} VisibleUpTo(s: string, t: string, limit: nat)
    requires Printable(s) && |s| <= limit && t != "" && !IsGraph(t[0])
    ensures Visible(s + t, limit) == |s|
  {
    if s == "" {
      assert s + t == t;
    } else {
      assert (s + t)[1..] == s[1..] + t;
      VisibleUpTo(s[1..], t, limit - 1);
    }
  }

  /** A plus sign in front makes no difference, and no sign does if there is a letter for the direction. */
  lemma SignBefore(s: string, sign: char)
    requires Printable(s) && 0 < |s| <= 62 && !HasSign(s) && (sign == '+' || sign == '-')
    requires sign == '+' || (ReadFields(s, 0, 0.0).Fields? && IsSuffix(ReadFields(s, 0, 0.0).rest))
    ensures Read([sign] + s) == Later(Read(s), 1)
  {
    hide ReadFields, Read, ReadWork;
    var signed, f := [sign] + s, ReadFields(s, 0, 0.0);
    assert Printable(signed);
    ReadPrintable(s);
    ReadPrintable(signed);
    assert signed[1..] == s && Body(signed) == s && Body(s) == s;
    FieldsDirected(s, f);
    FieldsDirected(signed, f);
  }

  lemma {:induction false} VisibleLimit(s: string, limit: nat)
    requires Printable(s) && limit <= |s|
    ensures Visible(s, limit) == limit
  {
    if limit > 0 { VisibleLimit(s[1..], limit - 1); }
  }

  /** Of a longer text, only the first 63 characters are read. */
  lemma OnlyTheFirst(s: string)
    requires Printable(s) && |s| >= 63
    ensures Read(s) == Read(s[..63])
  {
    hide ReadFields, ReadWork;
    VisibleLimit(s, 63);
    ReadPrintable(s[..63]);
    assert s[0..] == s && Spaces(s) == 0;
  }

  /** What comes after a character that is not visible is not read. */
  lemma RestIgnored(s: string, t: string)
    requires Printable(s) && 0 < |s| < MAX_WORK && t != "" && !IsGraph(t[0])
    ensures Read(s + t) == Read(s)
  {
    hide ReadFields, ReadWork;
    VisibleUpTo(s, t, MAX_WORK - 1);
    ReadPrintable(s);
    assert (s + t)[0..] == s + t && (s + t)[..|s|] == s;
    assert (s + t)[0] == s[0] && Spaces(s + t) == 0;
  }
}
