/** Which letters let the text of an angle be read back, those that dmstor does not know included. */
module DmsLetters {
  import opened Decimal
  import opened Dmstor
  import opened DmsRoundTrip
  import opened Rtodms
  import opened Wrappers

  /** The reading goes to the end, and is n units of 1/res seconds in the direction given. */
  ghost predicate Means(q: Reading, end: nat, negative: bool, n: int, res: nat) {
    q.Angle? && q.end == end && IsAngle(if negative then -q.value else q.value, n, res)
  }

  /** The letter after the fields gives the direction. A letter that dmstor does not know is left over, except for a
      digit after a text without seconds, which is read as one more field: a zero does no harm. */
  ghost predicate Directs(c: Option<char>, negative: bool, n: int, short: bool) {
    if c == None then !negative || n == 0
    else if NorthOrEast(c.value) then !negative || n == 0
    else if SouthOrWest(c.value) then negative || n == 0
    else c.value == '0' && short && (!negative || n == 0)
  }

  /** No seconds are written. */
  predicate IsShort(n: nat, fract: nat, dolong: bool) {
    !dolong && Seconds(n, Pow10(fract)) == 0
  }

  // --- Angles

  /** An angle is that of one number of units only, and the opposite angle that of the opposite number. */
  lemma AngleUnits(v: real, k: int, n: int, res: nat)
    requires IsAngle(v, k, res)
    ensures IsAngle(v, n, res) <==> n == k
    ensures IsAngle(-v, n, res) <==> n == -k
  {
    var u := 3600.0 * res as real;
    assert (-v) * u == -(v * u);
    assert (-k) as real * DEGREE == -(k as real * DEGREE);
  }

  /** An angle with or without a turn, meant with or without one. */
  lemma TurnedUnits(v: real, k: nat, n: nat, res: nat, south: bool, negative: bool, w: real)
    requires IsAngle(v, k, res) && w == if south then -v else v
    ensures IsAngle(if negative then -w else w, n, res) <==> n == k && (negative == south || n == 0)
  {
    AngleUnits(v, k, n, res);
  }

  lemma Meaning(q: Reading, end: nat, v: real, k: nat, n: nat, res: nat, south: bool, negative: bool)
    requires q == Angle(if south then -v else v, end) && IsAngle(v, k, res)
    ensures Means(q, end, negative, n, res) <==> n == k && (negative == south || n == 0)
  {
    TurnedUnits(v, k, n, res, south, negative, q.value);
  }

  /** j minutes or seconds more. */
  lemma AddUnits(v: real, n: int, res: nat, j: nat, nl: nat) returns (k: nat)
    requires IsAngle(v, n, res) && 1 <= nl < 3 && res > 0
    ensures IsAngle(AddField(v, j as real, nl), n + k, res) && (k == 0 <==> j == 0)
  {
    if nl == 1 {
      k := j * (60 * res);
      MoreUnits(v, n, res, j, 60 * res, DEGREE / 60.0, AddField(v, j as real, 1));
    } else {
      k := j * res;
      MoreUnits(v, n, res, j, res, DEGREE / 3600.0, AddField(v, j as real, 2));
    }
  }

  lemma MoreUnits(v: real, n: int, res: nat, j: nat, p: nat, unit: real, w: real)
    requires IsAngle(v, n, res) && w == v + j as real * unit && unit * (3600.0 * res as real) == p as real * DEGREE
    ensures IsAngle(w, n + j * p, res)
  {
    var u := 3600.0 * res as real;
    assert w * u == v * u + j as real * (unit * u);
    assert (j * p) as real == j as real * p as real;
    assert (n + j * p) as real * DEGREE == n as real * DEGREE + j as real * (p as real * DEGREE);
  }

  // --- One more field

  lemma PointLast(nl: nat, v: real)
    requires nl < 3
    ensures ReadFields(".", nl, v) == Fields(v, ".")
  {
    hide NumberLength, NumberValue;
    NoNumber();
    assert "."[0..] == ".";
    NullField(v, nl);
    assert TakeField(".", nl, v) == Step(LAST, v, ".");
  }

  lemma NullField(v: real, nl: nat)
    requires nl < 3
    ensures AddField(v, 0.0, nl) == v
  {
  }

  /** A point alone is no number. */
  lemma NoNumber()
    ensures NumberLength(".") == 0 && NumberValue(".") == 0.0
  {
    assert DigitRun(".") == 0 && "."[1..] == "" && DigitRun("") == 0;
    NoDigits();
    assert MantissaLength(".") == 0;
    assert ExponentHead("."[0..]) == 0;
  }

  lemma NoDigits()
    ensures MantissaValue(".") == 0.0
  {
    assert DigitRun(".") == 0 && "."[1..] == "" && DigitRun("") == 0;
    assert "."[..0] == "" && ""[..0] == "";
  }

  lemma DigitLast(c: char, nl: nat, v: real)
    requires IsDigit(c) && nl < 3
    ensures ReadFields([c], nl, v) == Fields(AddField(v, DigitValue(c) as real, nl), "")
  {
    var s := [c];
    assert AllDigits(s) && s + "" == s;
    ReadsWhole(s, "");
    assert ValueOf(s) == DigitValue(c) by { assert s[..0] == "" && ValueOf("") == 0; }
    assert s[1..] == "";
    assert TakeField(s, nl, v) == Step(LAST, AddField(v, DigitValue(c) as real, nl), "");
  }

  // --- Letters that are left over

  lemma LeftOver(s: string, v: real, c: char)
    requires Printable(s) && 0 < |s| < MAX_WORK && IsDigit(s[0]) && !IsDirection(c)
    requires ReadFields(s, 0, 0.0) == Fields(v, [c])
    ensures Read(s) == Angle(v, |s| - 1)
  {
    WorkLeft(s, v, c);
    ReadPrintable(s);
  }

  lemma WorkLeft(s: string, v: real, c: char)
    requires s != "" && IsDigit(s[0]) && !IsDirection(c) && ReadFields(s, 0, 0.0) == Fields(v, [c])
    ensures ReadWork(s, 0) == Angle(v, |s| - 1)
  {
    UnsignedDirected(s, Fields(v, [c]));
    NothingDirected(v, c, |s|);
  }

  lemma NothingDirected(v: real, c: char, end: nat)
    requires !IsDirection(c) && end >= 1
    ensures Directed(false, Fields(v, [c]), end) == Angle(v, end - 1)
  {
  }

  lemma {:induction false} VisiblePart(s: string, c: char, limit: nat)
    requires Printable(s) && |s| <= limit && !IsGraph(c)
    ensures Visible(s + [c], limit) == |s|
  {
    if s != "" {
      assert (s + [c])[1..] == s[1..] + [c];
      VisiblePart(s[1..], c, limit - 1);
    }
  }

  lemma CutShort(plain: string, c: char, s: string)
    requires Printable(plain) && 0 < |plain| < MAX_WORK && IsDigit(plain[0]) && s == plain + [c] && !IsGraph(c)
    ensures Read(s).Angle? ==> Read(s).end < |s|
  {
    VisiblePart(plain, c, MAX_WORK - 1);
    assert s[0] == plain[0] && Spaces(s) == 0 && s[0..] == s && s[..|plain|] == plain;
    WorkEnds(plain);
  }

  lemma WorkEnds(work: string)
    ensures ReadWork(work, 0).Angle? ==> ReadWork(work, 0).end <= |work|
  {
  }

  // --- The text with a letter

  /** The text for n units, with its properties. */
  ghost predicate IsPlain(plain: string, n: nat, fract: nat, dolong: bool) {
    && fract < 9 && plain == Plain(n, fract, dolong)
    && Printable(plain) && 0 < |plain| <= 30 && IsDigit(plain[0])
  }

  /** A known letter, or none: v is read, with the sign of the letter, and it is k units. */
  lemma KnownReading(plain: string, c: Option<char>, s: string, n: nat, fract: nat, dolong: bool)
    returns (v: real, k: nat)
    requires IsPlain(plain, n, fract, dolong) && s == plain + Letter(c) && (c.Some? ==> IsDirection(c.value))
    ensures Read(s) == Angle(if IsSouth(c) then -v else v, |s|)
    ensures IsAngle(v, k, Pow10(fract)) && (k == n <==> KeepsDigits(n, fract, dolong))
  {
    LetterEnds(c);
    if KeepsDigits(n, fract, dolong) {
      k := n;
      v := PlainRead(n, fract, dolong, Letter(c));
    } else {
      v, k := OtherUnits(n, Letter(c));
    }
    LetterTextRead(s, plain, c, v);
  }

  lemma OtherUnits(n: nat, end: string) returns (v: real, k: nat)
    requires !KeepsDigits(n, 0, false)
    ensures ReadFields(Plain(n, 0, false) + end, 0, 0.0) == Fields(v, end)
    ensures IsAngle(v, k, Pow10(0)) && k != n
  {
    var deg, min, m := Parts(n, 1);
    assert Pow10(0) == 1;
    v := PlainMisread(n, end);
    k := n - m + m / 10;
  }

  predicate IsSouth(c: Option<char>) {
    c.Some? && SouthOrWest(c.value)
  }

  lemma KnownDirects(c: Option<char>, negative: bool, n: int, short: bool)
    requires c.Some? ==> IsDirection(c.value)
    ensures Directs(c, negative, n, short) <==> negative == IsSouth(c) || n == 0
  {
  }

  lemma KnownLetter(plain: string, c: Option<char>, s: string, negative: bool, n: nat, fract: nat, dolong: bool,
                    q: Reading)
    requires IsPlain(plain, n, fract, dolong) && s == plain + Letter(c) && (c.Some? ==> IsDirection(c.value))
    requires q == Read(s)
    ensures Means(q, |s|, negative, n, Pow10(fract)) <==>
      KeepsDigits(n, fract, dolong) && Directs(c, negative, n, IsShort(n, fract, dolong))
  {
    var v, k := KnownReading(plain, c, s, n, fract, dolong);
    KnownDirects(c, negative, n, IsShort(n, fract, dolong));
    Meaning(q, |s|, v, k, n, Pow10(fract), IsSouth(c), negative);
  }

  /** A letter that is not known: the reading does not go to the end, unless it is a digit after a short text. */
  lemma OtherLetter(plain: string, c: char, s: string, n: nat, fract: nat, dolong: bool)
    requires IsPlain(plain, n, fract, dolong) && s == plain + [c] && !IsDirection(c)
    requires !(IsShort(n, fract, dolong) && IsDigit(c))
    ensures Read(s).Angle? ==> Read(s).end < |s|
  {
    if !IsGraph(c) {
      CutShort(plain, c, s);
    } else {
      Joined(plain, [c], s);
      var v := LeftAfter(plain, c, s, n, fract, dolong);
      LeftOver(s, v, c);
    }
  }

  /** The letter remains after all fields. */
  lemma LeftAfter(plain: string, c: char, s: string, n: nat, fract: nat, dolong: bool) returns (v: real)
    requires IsPlain(plain, n, fract, dolong) && s == plain + [c] && !(IsShort(n, fract, dolong) && IsDigit(c))
    ensures ReadFields(s, 0, 0.0) == Fields(v, [c])
  {
    if !KeepsDigits(n, fract, dolong) {
      v := PlainMisread(n, [c]);
    } else if IsShort(n, fract, dolong) && c == '.' {
      var deg, min, m := Parts(n, Pow10(fract));
      v := Angled(deg as real, min as real, 0.0);
      PointLast(FieldsWritten(min), v);
      ShortFields(deg, min, fract, ".", Fields(v, "."));
    } else {
      v := PlainRead(n, fract, dolong, [c]);
    }
  }

  /** A digit after a short text is read as minutes or seconds. */
  lemma DigitReading(plain: string, c: char, s: string, n: nat, fract: nat, dolong: bool) returns (v: real, k: nat)
    requires IsPlain(plain, n, fract, dolong) && s == plain + [c] && IsShort(n, fract, dolong) && IsDigit(c)
    ensures Read(s) == Angle(v, |s|) && IsAngle(v, k, Pow10(fract)) && (k == n <==> c == '0')
  {
    v, k := DigitText(c, n, fract, dolong);
    Joined(plain, [c], s);
    SignedRead(s, v, None);
  }

  lemma DigitText(c: char, n: nat, fract: nat, dolong: bool) returns (v: real, k: nat)
    requires IsShort(n, fract, dolong) && IsDigit(c)
    ensures ReadFields(Plain(n, fract, dolong) + [c], 0, 0.0) == Fields(v, "")
    ensures IsAngle(v, k, Pow10(fract)) && (k == n <==> c == '0')
  {
    var deg, min, m := Parts(n, Pow10(fract));
    v := DigitFields(deg, min, fract, c);
    k := DigitUnits(deg, min, n, Pow10(fract), DigitValue(c), v);
    ZeroDigit(c);
  }

  lemma ZeroDigit(c: char)
    requires IsDigit(c)
    ensures DigitValue(c) == 0 <==> c == '0'
  {
    assert DigitChar(DigitValue(c)) == c;
  }

  lemma DigitFields(deg: nat, min: nat, fract: nat, c: char) returns (v: real)
    requires IsDigit(c)
    ensures ReadFields(PlainFields(deg, min, 0, fract, false) + [c], 0, 0.0) == Fields(v, "")
    ensures v == AddField(Angled(deg as real, min as real, 0.0), DigitValue(c) as real, FieldsWritten(min))
  {
    var before := Angled(deg as real, min as real, 0.0);
    v := AddField(before, DigitValue(c) as real, FieldsWritten(min));
    DigitLast(c, FieldsWritten(min), before);
    ShortFields(deg, min, fract, [c], Fields(v, ""));
  }

  lemma DigitUnits(deg: nat, min: nat, n: nat, res: nat, j: nat, v: real) returns (k: nat)
    requires IsSplit(n, deg, min, 0, res) && res > 0
    requires v == AddField(Angled(deg as real, min as real, 0.0), j as real, FieldsWritten(min))
    ensures IsAngle(v, k, res) && (k == n <==> j == 0)
  {
    NoSecondsAngle(deg, min, n, res);
    var more := AddUnits(Angled(deg as real, min as real, 0.0), n, res, j, FieldsWritten(min));
    k := n + more;
  }

  lemma NoSecondsAngle(deg: nat, min: nat, n: nat, res: nat)
    requires IsSplit(n, deg, min, 0, res)
    ensures IsAngle(Angled(deg as real, min as real, 0.0), n, res)
  {
    assert IsWorth(0.0, 0, res);
    AngleOfFields(deg, min, 0.0, 0, n, res);
  }

  lemma NoDigitLost(n: nat, fract: nat)
    requires Seconds(n, Pow10(fract)) == 0
    ensures KeepsDigits(n, fract, false)
  {
    assert Pow10(0) == 1;
  }

  lemma DigitDirects(c: char, negative: bool, n: int)
    requires IsDigit(c)
    ensures Directs(Some(c), negative, n, true) <==> c == '0' && (!negative || n == 0)
  {
  }

  lemma DigitLetter(plain: string, c: char, s: string, negative: bool, n: nat, fract: nat, dolong: bool, q: Reading)
    requires IsPlain(plain, n, fract, dolong) && s == plain + [c] && IsShort(n, fract, dolong) && IsDigit(c)
    requires q == Read(s)
    ensures Means(q, |s|, negative, n, Pow10(fract)) <==>
      KeepsDigits(n, fract, dolong) && Directs(Some(c), negative, n, true)
  {
    var v, k := DigitReading(plain, c, s, n, fract, dolong);
    NoDigitLost(n, fract);
    DigitDirects(c, negative, n);
    Meaning(q, |s|, v, k, n, Pow10(fract), false, negative);
  }

  /** Every letter after the text, or none. */
  lemma AnyLetter(plain: string, c: Option<char>, s: string, negative: bool, n: nat, fract: nat, dolong: bool,
                  q: Reading)
    requires IsPlain(plain, n, fract, dolong) && s == plain + Letter(c) && q == Read(s)
    ensures Means(q, |s|, negative, n, Pow10(fract)) <==>
      KeepsDigits(n, fract, dolong) && Directs(c, negative, n, IsShort(n, fract, dolong))
  {
    if c == None || IsDirection(c.value) {
      KnownLetter(plain, c, s, negative, n, fract, dolong, q);
    } else if IsShort(n, fract, dolong) && IsDigit(c.value) {
      DigitLetter(plain, c.value, s, negative, n, fract, dolong, q);
    } else {
      OtherLetter(plain, c.value, s, n, fract, dolong);
    }
  }

  lemma TextIsPlain(r: real, fract: nat, dolong: bool, n: nat)
    requires fract < 9 && InReach(r, fract) && n == Units(Magnitude(r), Pow10(fract))
    ensures IsPlain(Plain(n, fract, dolong), n, fract, dolong)
  {
    var deg, min, m := Parts(n, Pow10(fract));
    PlainPrintable(deg, min, m, fract, dolong);
  }

  lemma MinusReading(r: real, fract: nat, dolong: bool, n: nat) returns (v: real, k: nat)
    requires fract < 9 && InReach(r, fract) && n == Units(Magnitude(r), Pow10(fract)) && r < 0.0
    ensures var s := Text(r, fract, dolong, None, None); Read(s) == Angle(-v, |s|)
    ensures IsAngle(v, k, Pow10(fract)) && (k == n <==> KeepsDigits(n, fract, dolong))
  {
    var plain := Plain(n, fract, dolong);
    TextIsPlain(r, fract, dolong, n);
    TextParts(r, fract, dolong, None, None, plain);
    if KeepsDigits(n, fract, dolong) {
      k := n;
      v := PlainRead(n, fract, dolong, "");
    } else {
      v, k := OtherUnits(n, "");
    }
    MinusTextRead("-" + plain, plain, v);
  }

  lemma MinusSign(r: real, fract: nat, dolong: bool, n: nat, q: Reading, s: string)
    requires fract < 9 && InReach(r, fract) && n == Units(Magnitude(r), Pow10(fract)) && r < 0.0
    requires s == Text(r, fract, dolong, None, None) && q == Read(s)
    ensures Means(q, |s|, true, n, Pow10(fract)) <==> KeepsDigits(n, fract, dolong)
  {
    var v, k := MinusReading(r, fract, dolong, n);
    Meaning(q, |s|, v, k, n, Pow10(fract), true, true);
  }

  /** Every text of rtodms, with whatever letters, is read back by dmstor to its end and as exactly the signed rounded
      angle if and only if no digit was stripped off whole seconds and the direction was given by a minus sign or by the
      letters. */
  lemma ReadsBack(r: real, fract: nat, dolong: bool, pos: Option<char>, neg: Option<char>, n: nat, s: string)
    requires fract < 9 && InReach(r, fract) && n == Units(Magnitude(r), Pow10(fract))
    requires s == Text(r, fract, dolong, pos, neg)
    ensures Means(Read(s), |s|, r < 0.0, n, Pow10(fract)) <==>
      && KeepsDigits(n, fract, dolong)
      && ((r < 0.0 && pos == None) || Directs(EndLetter(r, pos, neg), r < 0.0, n, IsShort(n, fract, dolong)))
  {
    var plain := Plain(n, fract, dolong);
    TextParts(r, fract, dolong, pos, neg, plain);
    if r < 0.0 && pos == None {
      TextParts(r, fract, dolong, None, None, plain);
      MinusSign(r, fract, dolong, n, Read(s), s);
    } else {
      TextIsPlain(r, fract, dolong, n);
      AnyLetter(plain, EndLetter(r, pos, neg), s, r < 0.0, n, fract, dolong, Read(s));
    }
  }

  /** With E but no letter for the other direction, an angle to the west is not read back. */
  lemma LostDirection(r: real, fract: nat, dolong: bool, n: nat, s: string)
    requires fract < 9 && InReach(r, fract) && n == Units(Magnitude(r), Pow10(fract)) && r < 0.0 && n > 0
    requires s == Text(r, fract, dolong, Some('E'), None)
    ensures !Means(Read(s), |s|, true, n, Pow10(fract))
  {
    ReadsBack(r, fract, dolong, Some('E'), None, n, s);
  }
}
