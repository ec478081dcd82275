/** Writing an angle in degrees, minutes and seconds. */
module Rtodms {
  import opened Decimal
  import opened Dmstor
  import opened Wrappers

  /** The number of units of 1/res seconds in r radians, rounded. */
  function Units(r: real, res: nat): int
    requires r >= 0.0
  {
    (r * (3600.0 * res as real / DEGREE) + 0.5).Floor
  }

  // --- The parts of an angle of n units

  function Seconds(n: nat, res: nat): (m: nat)
    requires res > 0
    ensures m < 60 * res
  {
    n % (60 * res)
  }

  function Minutes(n: nat, res: nat): (m: nat)
    requires res > 0
    ensures m < 60
  {
    n / (60 * res) % 60
  }

  function Degrees(n: nat, res: nat): (d: nat)
    requires res > 0
  {
    n / (60 * res) / 60
  }

  lemma PartsAddUp(n: nat, res: nat)
    requires res > 0
    ensures n == (Degrees(n, res) * 60 + Minutes(n, res)) * (60 * res) + Seconds(n, res)
  {
    var q := n / (60 * res);
    assert q == q / 60 * 60 + q % 60;
    assert n == q * (60 * res) + n % (60 * res);
  }

  // --- The text

  /** The digits of a fraction with the point before them; no point if there are none. */
  function Fraction(n: nat, fract: nat): string {
    if fract == 0 then "" else "." + Fixed(n, fract)
  }

  function Quotient(m: nat, p: nat): nat
    requires p > 0
  {
    m / p
  }

  function Remainder(m: nat, p: nat): nat
    requires p > 0
  {
    m % p
  }

  /** m units of 10^-fract, as %.nf writes them. */
  function PlainSeconds(m: nat, fract: nat): string {
    Digits(Quotient(m, Pow10(fract))) + Fraction(Remainder(m, Pow10(fract)), fract)
  }

  /** The same with two digits before the point. */
  function WideSeconds(m: nat, fract: nat): string {
    Fixed(Quotient(m, Pow10(fract)), 2) + Fraction(Remainder(m, Pow10(fract)), fract)
  }

  /** Without trailing zeros, and without the point if it comes last then. */
  function Stripped(s: string): (r: string)
    ensures |r| <= |s|
  {
    if s == "" then s
    else if s[|s| - 1] == '0' then Stripped(s[..|s| - 1])
    else if s[|s| - 1] == '.' then s[..|s| - 1]
    else s
  }

  function AllFields(deg: string, min: string, sec: string): string {
    deg + "d" + min + "'" + sec + "\""
  }

  /** The text for degrees, minutes and m units of seconds, without a sign. */
  function PlainFields(deg: nat, min: nat, m: nat, fract: nat, dolong: bool): string {
    if dolong then AllFields(Digits(deg), Fixed(min, 2), WideSeconds(m, fract))
    else if m != 0 then AllFields(Digits(deg), Digits(min), Stripped(PlainSeconds(m, fract)))
    else if min != 0 then Digits(deg) + "d" + Digits(min) + "'"
    else Digits(deg) + "d"
  }

  /** The text for n units. */
  function Plain(n: nat, fract: nat, dolong: bool): string {
    PlainFields(Degrees(n, Pow10(fract)), Minutes(n, Pow10(fract)), Seconds(n, Pow10(fract)), fract, dolong)
  }

  function Letter(c: Option<char>): string {
    if c.Some? then [c.value] else ""
  }

  /** The text for r radians. A negative angle has a minus sign in front if there is no letter for positive ones. */
  function Text(r: real, fract: nat, dolong: bool, pos: Option<char>, neg: Option<char>): string {
    var n := Units(if r < 0.0 then -r else r, Pow10(fract));
    var plain := if n >= 0 then Plain(n, fract, dolong) else "";
    if r < 0.0 then
      if pos == None then "-" + plain else plain + Letter(neg)
    else plain + Letter(pos)
  }

  class Rtodms {
    var fract: nat
    var res: nat
    var dolong: bool

    ghost predicate Valid()
      reads this
    {
      fract < 9 && res == Pow10(fract)
    }

    constructor ()
      ensures Valid() && fract == 3 && !dolong
    {
      fract, res, dolong := 3, 1000, false;
      new;
      ThousandIsPower();
    }

    /** Sets the number of digits of fractional seconds and whether all fields have fixed widths. */
    method SetRtodms(digits: int, conW: bool)
      requires Valid()
      modifies this
      ensures Valid()
      ensures 0 <= digits < 9 ==> fract == digits && dolong == conW
      ensures !(0 <= digits < 9) ==> fract == old(fract) && dolong == old(dolong)
    {
      if digits >= 0 && digits < 9 {
        res := 1;
        for i := 0 to digits
          invariant res == Pow10(i)
        {
          res := res * 10;
        }
        fract := digits;
        dolong := conW;
      }
    }

    /** Takes trailing zeros out of the text before position q. */
    method StripZeros(text: string, q: nat, ghost head: string, ghost number: string) returns (s: string)
      requires q <= |text| && text[..q] == head + number && head != "" && head[|head| - 1] == '\''
      ensures s == head + Stripped(number) + text[q..]
    {
      var p := q - 1;
      ghost var left := number;
      while text[p] == '0'
        invariant |head| - 1 <= p < q && p == |head| + |left| - 1
        invariant text[..p + 1] == head + left && Stripped(left) == Stripped(number)
        decreases p
      {
        assert left != "" && left[|left| - 1] == '0' by { assert text[p] == text[..p + 1][p]; }
        assert text[..p] == text[..p + 1][..p];
        left := left[..|left| - 1];
        p := p - 1;
      }
      assert text[p] == text[..p + 1][p];
      if text[p] != '.' { p := p + 1; }
      assert text[..p] == head + Stripped(number);
      s := text[..p] + text[q..];
    }

    /** The text for n units between a prefix and a letter. */
    method WriteUnits(ss: string, n: nat, sign: Option<char>) returns (s: string)
      requires Valid()
      ensures s == ss + Plain(n, fract, dolong) + Letter(sign)
    {
      s := WriteFields(ss, Degrees(n, res), Minutes(n, res), Seconds(n, res), sign);
    }

    method WriteFields(ss: string, deg: nat, min: nat, sec: nat, sign: Option<char>) returns (s: string)
      ensures s == ss + PlainFields(deg, min, sec, fract, dolong) + Letter(sign)
    {
      if dolong {
        var d, m, w := Digits(deg), Fixed(min, 2), WideSeconds(sec, fract);
        s := ss + d + "d" + m + "'" + w + "\"" + Letter(sign);
        Regroup(ss, d, m, w, Letter(sign));
      } else if sec != 0 {
        var d, m, w := Digits(deg), Digits(min), PlainSeconds(sec, fract);
        s := WriteSeconds(ss + d + "d" + m + "'", w, "\"" + Letter(sign));
        Regroup(ss, d, m, Stripped(w), Letter(sign));
      } else if min != 0 {
        s := ss + (Digits(deg) + "d" + Digits(min) + "'") + Letter(sign);
      } else {
        s := ss + (Digits(deg) + "d") + Letter(sign);
      }
    }

    /** Writes all fields and takes trailing zeros out of the seconds again. */
    method WriteSeconds(head: string, number: string, tail: string) returns (s: string)
      requires head != "" && head[|head| - 1] == '\''
      ensures s == head + Stripped(number) + tail
    {
      var text, q := head + number + tail, |head + number|;
      assert text[..q] == head + number && text[q..] == tail;
      s := StripZeros(text, q, head, number);
    }

    /** The text for r radians, with the letters for positive and negative angles. */
    method Write(r: real, pos: Option<char>, neg: Option<char>) returns (s: string)
      requires Valid()
      ensures s == Text(r, fract, dolong, pos, neg)
    {
      var x, ss, sign := r, "", pos;
      if x < 0.0 {
        x := -x;
        if pos == None {
          ss, sign := "-", None;
        } else {
          sign := neg;
        }
      }
      UnitsNonNegative(x, res);
      var n := Units(x, res);
      s := WriteUnits(ss, n, sign);
      TextByParts(r, fract, dolong, pos, neg, x, n, ss, sign);
    }
  }

  lemma TextByParts(r: real, fract: nat, dolong: bool, pos: Option<char>, neg: Option<char>,
                    x: real, n: nat, ss: string, sign: Option<char>)
    requires x == (if r < 0.0 then -r else r) && n == Units(x, Pow10(fract))
    requires ss == (if r < 0.0 && pos == None then "-" else "")
    requires sign == if r < 0.0 then (if pos == None then None else neg) else pos
    ensures Text(r, fract, dolong, pos, neg) == ss + Plain(n, fract, dolong) + Letter(sign)
  {
    var plain := Plain(n, fract, dolong);
    assert "" + plain == plain && "-" + plain + "" == "-" + plain;
  }

  lemma Regroup(ss: string, d: string, m: string, w: string, letter: string)
    ensures ss + d + "d" + m + "'" + w + "\"" + letter == ss + AllFields(d, m, w) + letter
    ensures ss + d + "d" + m + "'" + w + ("\"" + letter) == ss + AllFields(d, m, w) + letter
  {
    assert ss + d + "d" + m + "'" + w + "\"" == ss + AllFields(d, m, w);
  }

  lemma ThousandIsPower()
    ensures Pow10(3) == 1000
  {
    assert Pow10(1) == 10 && Pow10(2) == 100;
  }

  lemma UnitsNonNegative(r: real, res: nat)
    requires r >= 0.0
    ensures Units(r, res) >= 0
  {
    var c := 3600.0 * res as real / DEGREE;
    assert r * c >= 0.0;
  }
}
