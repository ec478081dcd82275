/** Decimal numerals: how they are written and what they are worth. */
module Decimal {

  predicate IsDigit(c: char) {
    '0' <= c <= '9'
  }

  function DigitValue(c: char): (d: nat)
    requires IsDigit(c)
    ensures d < 10
  {
    c as int - '0' as int
  }

  function DigitChar(d: nat): (c: char)
    requires d < 10
    ensures IsDigit(c) && DigitValue(c) == d
  {
    (d + '0' as int) as char
  }

  ghost predicate AllDigits(s: string) {
    forall k :: 0 <= k < |s| ==> IsDigit(s[k])
  }

  /** The digits of n, without leading zeros. */
  function Digits(n: nat): (s: string)
    ensures AllDigits(s) && |s| >= 1
  {
    if n < 10 then [DigitChar(n)] else Digits(n / 10) + [DigitChar(n % 10)]
  }

  /** The last w digits of n. */
  function Fixed(n: nat, w: nat): (s: string)
    ensures AllDigits(s) && |s| == w
  {
    if w == 0 then "" else Fixed(n / 10, w - 1) + [DigitChar(n % 10)]
  }

  function Pow10(w: nat): (p: nat)
    ensures p >= 1
  {
    if w == 0 then 1 else 10 * Pow10(w - 1)
  }

  function ValueOf(s: string): nat
    requires AllDigits(s)
  {
    if s == "" then 0 else 10 * ValueOf(s[..|s| - 1]) + DigitValue(s[|s| - 1])
  }

  lemma ValueOfMore(s: string, c: char)
    requires AllDigits(s) && IsDigit(c)
    ensures AllDigits(s + [c]) && ValueOf(s + [c]) == 10 * ValueOf(s) + DigitValue(c)
  {
    assert (s + [c])[..|s|] == s;
  }

  lemma {:induction false} DigitsValue(n: nat)
    ensures ValueOf(Digits(n)) == n
  {
    if n < 10 {
      assert Digits(n)[..0] == "";
      assert ValueOf("") == 0;
    } else {
      DigitsValue(n / 10);
      ValueOfMore(Digits(n / 10), DigitChar(n % 10));
    }
  }

  lemma {:induction false} FixedValue(n: nat, w: nat)
    requires n < Pow10(w)
    ensures ValueOf(Fixed(n, w)) == n
  {
    if w > 0 {
      FixedValue(n / 10, w - 1);
      ValueOfMore(Fixed(n / 10, w - 1), DigitChar(n % 10));
    }
  }

  /** A numeral that is not too large has few digits. */
  lemma {:induction false} DigitsLength(n: nat, w: nat)
    requires w >= 1 && n < Pow10(w)
    ensures |Digits(n)| <= w
  {
    if n >= 10 {
      assert Pow10(w) == 10 * Pow10(w - 1);
      assert Pow10(0) == 1;
      DigitsLength(n / 10, w - 1);
    }
  }

  /** What digits after the point are worth. */
  function FractionOf(f: string): real
    requires AllDigits(f)
  {
    if f == "" then 0.0 else (DigitValue(f[0]) as real + FractionOf(f[1..])) / 10.0
  }

  /** Zeros at the end of the fraction do not matter. */
  lemma {:induction false} DropZero(f: string)
    requires f != "" && AllDigits(f) && f[|f| - 1] == '0'
    ensures FractionOf(f[..|f| - 1]) == FractionOf(f)
  {
    if |f| == 1 {
      assert FractionOf(f[1..]) == 0.0;
    } else {
      DropZero(f[1..]);
      assert f[..|f| - 1][1..] == f[1..][..|f| - 2];
    }
  }

  /** What the digit d is worth at place k after the point. */
  ghost function Place(d: real, k: nat): real {
    if k == 0 then d else Place(d, k - 1) / 10.0
  }

  lemma {:induction false} FractionOfMore(s: string, c: char)
    requires AllDigits(s) && IsDigit(c)
    ensures FractionOf(s + [c]) == FractionOf(s) + Place(DigitValue(c) as real, |s| + 1)
  {
    if s == "" {
      assert FractionOf((s + [c])[1..]) == 0.0;
      assert Place(DigitValue(c) as real, 0) == DigitValue(c) as real;
    } else {
      FractionOfMore(s[1..], c);
      assert (s + [c])[1..] == s[1..] + [c];
    }
  }

  lemma {:induction false} PlaceTimesPower(d: real, k: nat, p: real)
    requires p == Pow10(k) as real
    ensures Place(d, k) * p == d
  {
    if k > 0 {
      var q := Pow10(k - 1) as real;
      PlaceTimesPower(d, k - 1, q);
      TenTimes(Place(d, k - 1), q, Place(d, k), p);
    }
  }

  lemma TenTimes(x: real, q: real, y: real, p: real)
    requires y == x / 10.0 && p == 10.0 * q
    ensures y * p == x * q
  {
  }

  /** The last w digits of n, as a fraction. */
  ghost function FixedFraction(n: nat, w: nat): real {
    if w == 0 then 0.0 else FixedFraction(n / 10, w - 1) + Place((n % 10) as real, w)
  }

  lemma {:induction false} FractionOfFixed(n: nat, w: nat)
    ensures FractionOf(Fixed(n, w)) == FixedFraction(n, w)
  {
    if w > 0 {
      FractionOfFixed(n / 10, w - 1);
      FractionOfMore(Fixed(n / 10, w - 1), DigitChar(n % 10));
    }
  }

  lemma {:induction false} PlaceOfTens(x: real, d: real, k: nat)
    ensures Place(10.0 * x + d, k + 1) == Place(x, k) + Place(d, k + 1)
  {
    if k == 0 {
      assert Place(10.0 * x + d, 0) == 10.0 * x + d && Place(d, 0) == d && Place(x, 0) == x;
    } else {
      PlaceOfTens(x, d, k - 1);
    }
  }

  /** The last w digits of n are worth n at place w, if there are no more. */
  lemma {:induction false} FixedFractionPlace(n: nat, w: nat)
    requires n < Pow10(w)
    ensures FixedFraction(n, w) == Place(n as real, w)
  {
    if w > 0 {
      FixedFractionPlace(n / 10, w - 1);
      PlaceOfTens((n / 10) as real, (n % 10) as real, w - 1);
      TensAndOnes(n);
    }
  }

  lemma FixedFractionValue(n: nat, w: nat) returns (x: real, p: real)
    requires n < Pow10(w)
    ensures x == FixedFraction(n, w) && p == Pow10(w) as real && x * p == n as real
  {
    x, p := FixedFraction(n, w), Pow10(w) as real;
    FixedFractionPlace(n, w);
    PlaceTimesPower(n as real, w, p);
  }

  lemma TensAndOnes(n: nat)
    ensures n as real == 10.0 * (n / 10) as real + (n % 10) as real
  {
    assert n == 10 * (n / 10) + n % 10;
  }

  // --- Numbers with a point

  /** How many digits the text begins with. */
  function DigitRun(s: string): (n: nat)
    ensures n <= |s| && AllDigits(s[..n]) && (n < |s| ==> !IsDigit(s[n]))
  {
    if s == "" || !IsDigit(s[0]) then 0
    else
      var n := DigitRun(s[1..]);
      assert s[..n + 1] == [s[0]] + s[1..][..n];
      n + 1
  }

  lemma {:induction false} DigitRunOf(d: string, rest: string)
    requires AllDigits(d) && (rest == "" || !IsDigit(rest[0]))
    ensures DigitRun(d + rest) == |d|
  {
    if d == "" {
      assert d + rest == rest;
    } else {
      assert (d + rest)[1..] == d[1..] + rest;
      DigitRunOf(d[1..], rest);
    }
  }

  /** The length of the digits at the beginning of the text, with perhaps a point between or around them. */
  function MantissaLength(s: string): (n: nat)
    ensures n <= |s|
  {
    var n := DigitRun(s);
    if n < |s| && s[n] == '.' then
      var m := DigitRun(s[n + 1..]);
      if n + m == 0 then 0 else n + 1 + m
    else n
  }

  /** What the digits at the beginning of the text are worth. */
  function MantissaValue(s: string): real {
    var n := DigitRun(s);
    if n < |s| && s[n] == '.' then
      var m := DigitRun(s[n + 1..]);
      ValueOf(s[..n]) as real + FractionOf(s[n + 1..][..m])
    else ValueOf(s[..n]) as real
  }

  /** The letter of an exponent and its sign, if there is one. */
  function ExponentHead(s: string): (n: nat)
    ensures n <= |s|
  {
    if s == "" || !(s[0] == 'e' || s[0] == 'E') then 0
    else if |s| > 1 && (s[1] == '+' || s[1] == '-') then 2 else 1
  }

  /** The length of the exponent at the beginning of the text; without digits it is none. */
  function ExponentLength(s: string): (n: nat)
    ensures n <= |s|
  {
    var n := ExponentHead(s);
    var m := DigitRun(s[n..]);
    if n == 0 || m == 0 then 0 else n + m
  }

  function ExponentValue(s: string): int {
    var n := ExponentHead(s);
    var m := DigitRun(s[n..]);
    var e: int := ValueOf(s[n..][..m]);
    if n == 0 || m == 0 then 0 else if s[1] == '-' then -e else e
  }

  /** x times the power of ten with the exponent e. */
  function TimesPower(x: real, e: int): real {
    if e == 0 then x else if e > 0 then x * Pow10(e) as real else x / Pow10(-e) as real
  }

  /** The length of the number at the beginning of the text: digits with perhaps a point, and perhaps an exponent. */
  function NumberLength(s: string): (n: nat)
    ensures n <= |s|
  {
    var n := MantissaLength(s);
    if n == 0 then 0 else n + ExponentLength(s[n..])
  }

  /** What the number at the beginning of the text is worth. */
  function NumberValue(s: string): real {
    TimesPower(MantissaValue(s), ExponentValue(s[MantissaLength(s)..]))
  }

  /** Neither the digits of a number nor an exponent go on here. */
  predicate EndsNumber(rest: string) {
    rest == "" || (!IsDigit(rest[0]) && rest[0] != '.' && rest[0] != 'e' && rest[0] != 'E')
  }

  lemma NoExponent(s: string, n: nat)
    requires 0 < n <= |s| && MantissaLength(s) == n && EndsNumber(s[n..])
    ensures NumberLength(s) == n && NumberValue(s) == MantissaValue(s)
  {
    assert ExponentHead(s[n..]) == 0;
  }

  /** The number is at the beginning of the text, with this value. */
  ghost predicate Reads(s: string, number: string, value: real) {
    number != "" && number <= s && NumberLength(s) == |number| && NumberValue(s) == value
  }

  lemma ReadsWhole(d: string, rest: string)
    requires d != "" && AllDigits(d) && EndsNumber(rest)
    ensures Reads(d + rest, d, ValueOf(d) as real)
  {
    DigitRunOf(d, rest);
    assert (d + rest)[..|d|] == d && (d + rest)[|d|..] == rest;
    NoExponent(d + rest, |d|);
  }

  lemma ReadsFraction(d: string, f: string, rest: string)
    requires d != "" && AllDigits(d) && AllDigits(f) && EndsNumber(rest)
    ensures Reads(d + "." + f + rest, d + "." + f, ValueOf(d) as real + FractionOf(f))
  {
    var s := d + "." + f + rest;
    PiecesOf(s, d, f, rest);
    Pieces(s, d, f);
  }

  lemma PiecesOf(s: string, d: string, f: string, rest: string)
    requires s == d + "." + f + rest && AllDigits(d) && AllDigits(f) && (rest == "" || !IsDigit(rest[0]))
    ensures |s| > |d| + |f| && s[..|d|] == d && s[|d|] == '.' && s[|d| + 1..] == f + rest && s[|d| + 1 + |f|..] == rest
    ensures DigitRun(s) == |d| && DigitRun(s[|d| + 1..]) == |f| && s[|d| + 1..][..|f|] == f
  {
    var tail := f + rest;
    var more := ['.'] + tail;
    Regrouped(d, f, rest);
    DigitRunOf(d, more);
    DigitRunOf(f, rest);
    Cut(s, d, more);
    Cut(more, ['.'], tail);
    Cut(tail, f, rest);
    DropTwice(s, |d|, 1);
    DropTwice(s, |d| + 1, |f|);
  }

  lemma Regrouped(d: string, f: string, rest: string)
    ensures d + "." + f + rest == d + (['.'] + (f + rest))
  {
  }

  lemma Cut(s: string, a: string, b: string)
    requires s == a + b
    ensures |s| == |a| + |b| && s[..|a|] == a && s[|a|..] == b && (b != "" ==> s[|a|] == b[0])
  {
  }

  lemma DropTwice(s: string, n: nat, m: nat)
    requires n + m <= |s|
    ensures s[n + m..] == s[n..][m..]
  {
  }

  lemma Pieces(s: string, d: string, f: string)
    requires d != "" && AllDigits(d) && AllDigits(f) && |s| > |d| + |f|
    requires DigitRun(s) == |d| && s[..|d|] == d && s[|d|] == '.'
    requires DigitRun(s[|d| + 1..]) == |f| && s[|d| + 1..][..|f|] == f && EndsNumber(s[|d| + 1 + |f|..])
    ensures Reads(s, d + "." + f, ValueOf(d) as real + FractionOf(f))
  {
    PiecesLength(s, |d|, |f|);
    PiecesValue(s, d, f);
    PiecesPrefix(s, d, f);
    NoExponent(s, |d| + 1 + |f|);
  }

  lemma PiecesPrefix(s: string, d: string, f: string)
    requires |s| > |d| + |f| && s[..|d|] == d && s[|d|] == '.' && s[|d| + 1..][..|f|] == f
    ensures d + "." + f <= s
  {
    assert s[..|d| + 1 + |f|] == d + "." + f;
  }

  lemma PiecesLength(s: string, n: nat, m: nat)
    requires 0 < n < |s| && DigitRun(s) == n && s[n] == '.' && DigitRun(s[n + 1..]) == m
    ensures MantissaLength(s) == n + 1 + m
  {
  }

  lemma PiecesValue(s: string, d: string, f: string)
    requires AllDigits(d) && AllDigits(f) && |s| > |d| + |f|
    requires DigitRun(s) == |d| && s[..|d|] == d && s[|d|] == '.'
    requires DigitRun(s[|d| + 1..]) == |f| && s[|d| + 1..][..|f|] == f
    ensures MantissaValue(s) == ValueOf(d) as real + FractionOf(f)
  {
  }
}
