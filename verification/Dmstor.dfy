/** Reading an angle in degrees, minutes and seconds. */
module Dmstor {
  import opened Decimal
  import opened Wrappers

  /** A degree in radians. */
  const DEGREE := 0.0174532925199433

  /** v and tv units of field n: degrees, minutes or seconds. */
  function AddField(v: real, tv: real, n: nat): real
    requires n < 3
  {
    if n == 0 then v + tv * DEGREE else if n == 1 then v + tv * (DEGREE / 60.0) else v + tv * (DEGREE / 3600.0)
  }

  const MAX_WORK := 64
  const BAD_DMS := -16

  predicate IsSpace(c: char) {
    c == ' ' || '\t' <= c <= '\r'
  }

  predicate IsGraph(c: char) {
    '!' <= c <= '~'
  }

  function Spaces(s: string): (n: nat)
    ensures n <= |s|
  {
    if s == "" || !IsSpace(s[0]) then 0 else 1 + Spaces(s[1..])
  }

  /** How much of the text is copied: no more than limit characters, all of them visible. */
  function Visible(s: string, limit: nat): (n: nat)
    ensures n <= |s| && n <= limit
  {
    if s == "" || limit == 0 || !IsGraph(s[0]) then 0 else 1 + Visible(s[1..], limit - 1)
  }

  /** The field that a character ends. */
  function FieldOf(c: char): Option<nat> {
    if c == 'D' || c == 'd' then Some(0) else if c == '\'' then Some(1) else if c == '"' then Some(2) else None
  }

  /** After a field: which may be the next, what has been read, and the rest of the text. From 3 on there is none. */
  datatype Step = Step(nl: nat, v: real, rest: string) | Wrong

  const LAST := 5

  /** What the mark after a number of value tv makes of it. */
  function TakeMark(t: string, nl: nat, v: real, tv: real): (r: Step)
    requires nl < 3
    ensures r.Step? ==> nl < r.nl <= LAST && |r.rest| <= |t|
  {
    if t == "" then Step(LAST, AddField(v, tv, nl), t)
    else if FieldOf(t[0]).Some? then
      var n := FieldOf(t[0]).value;
      if n < nl then Wrong else Step(n + 1, AddField(v, tv, n), t[1..])
    else if t[0] == 'r' || t[0] == 'R' then
      if nl > 0 then Wrong else Step(LAST, tv, t[1..])
    else Step(LAST, AddField(v, tv, nl), t)
  }

  /** Reads one field, which must not belong before number nl. */
  function TakeField(s: string, nl: nat, v: real): (r: Step)
    requires nl < 3
    ensures r.Step? ==> nl < r.nl <= LAST && |r.rest| <= |s|
  {
    if s == "" || !(IsDigit(s[0]) || s[0] == '.') then Step(LAST, v, s)
    else TakeMark(s[NumberLength(s)..], nl, v, NumberValue(s))
  }

  datatype Fields = Fields(v: real, rest: string) | BadFields

  /** Reads fields from number nl on, where v has been read so far. */
  function ReadFields(s: string, nl: nat, v: real): (f: Fields)
    requires nl <= LAST
    ensures f.Fields? ==> |f.rest| <= |s|
    decreases LAST - nl
  {
    if nl >= 3 then Fields(v, s)
    else
      var r := TakeField(s, nl, v);
      if r.Wrong? then BadFields else ReadFields(r.rest, r.nl, r.v)
  }

  /** The letters after the fields that say which way the angle goes. */
  predicate NorthOrEast(c: char) {
    c == 'N' || c == 'n' || c == 'E' || c == 'e'
  }

  predicate SouthOrWest(c: char) {
    c == 'S' || c == 's' || c == 'W' || c == 'w'
  }

  predicate IsDirection(c: char) {
    NorthOrEast(c) || SouthOrWest(c)
  }

  predicate IsSuffix(s: string) {
    s != "" && IsDirection(s[0])
  }

  predicate IsMinusSuffix(s: string) {
    s != "" && SouthOrWest(s[0])
  }

  predicate HasSign(s: string) {
    s != "" && (s[0] == '+' || s[0] == '-')
  }

  /** The angle, and how much of the text it takes up. */
  datatype Reading = Angle(value: real, end: nat) | BadDms

  /** The text without a sign before it. */
  function Body(work: string): string {
    if HasSign(work) then work[1..] else work
  }

  /** The fields with their direction: that of a letter after them, or the sign before them. */
  function Directed(minus: bool, f: Fields, end: nat): Reading
    requires f.Fields? ==> |f.rest| <= end
  {
    match f
    case BadFields => BadDms
    case Fields(v, rest) =>
      var south := if IsSuffix(rest) then IsMinusSuffix(rest) else minus;
      var left := if IsSuffix(rest) then |rest| - 1 else |rest|;
      Angle(if south then -v else v, end - left)
  }

  function ReadWork(work: string, start: nat): Reading {
    Directed(HasSign(work) && work[0] == '-', ReadFields(Body(work), 0, 0.0), start + |work|)
  }

  /** What the text says. */
  function Read(s: string): Reading {
    var start := Spaces(s);
    ReadWork(s[start..][..Visible(s[start..], MAX_WORK - 1)], start)
  }

  // --- The parser

  method ParseMark(work: string, from: nat, nl: nat, sum: real, tv: real) returns (ok: bool, v: real, s: nat, next: nat)
    requires from <= |work| && nl < 3
    ensures from <= s <= |work| && nl < next <= LAST
    ensures TakeMark(work[from..], nl, sum, tv) == if ok then Step(next, v, work[s..]) else Wrong
  {
    v, s, ok, next := sum, from, true, LAST;
    if s == |work| {
      v := AddField(v, tv, nl);
      return;
    }
    ghost var t := work[s..];
    assert t[0] == work[s] && t[1..] == work[s + 1..];
    var n;
    if work[s] == 'D' || work[s] == 'd' {
      n := 0;
    } else if work[s] == '\'' {
      n := 1;
    } else if work[s] == '"' {
      n := 2;
    } else if work[s] == 'r' || work[s] == 'R' {
      ok := nl == 0;
      s := s + 1;
      v := tv;
      return;
    } else {
      v := AddField(v, tv, nl);
      return;
    }
    if n < nl {
      ok := false;
      return;
    }
    v := AddField(v, tv, n);
    s := s + 1;
    next := n + 1;
  }

  /** The body of the loop over the fields: one field from position s on. */
  method ParseField(work: string, from: nat, nl: nat, sum: real) returns (ok: bool, v: real, s: nat, next: nat)
    requires from <= |work| && nl < 3
    ensures from <= s <= |work| && nl < next <= LAST
    ensures TakeField(work[from..], nl, sum) == if ok then Step(next, v, work[s..]) else Wrong
  {
    hide NumberValue, NumberLength;
    v, s, ok, next := sum, from, true, LAST;
    if s == |work| || !(IsDigit(work[s]) || work[s] == '.') { return; }
    var tv := NumberValue(work[s..]);
    s := s + NumberLength(work[s..]);
    assert work[from..][NumberLength(work[from..])..] == work[s..];
    ok, v, s, next := ParseMark(work, s, nl, sum, tv);
  }

  /** The loop over the fields. */
  method ParseFields(work: string, from: nat) returns (ok: bool, v: real, s: nat)
    requires from <= |work|
    ensures from <= s <= |work|
    ensures ReadFields(work[from..], 0, 0.0) == if ok then Fields(v, work[s..]) else BadFields
  {
    v := 0.0;
    s := from;
    ok := true;
    var nl := 0;
    ghost var whole := ReadFields(work[from..], 0, 0.0);
    while nl < 3
      invariant nl <= LAST && from <= s <= |work| && ok
      invariant whole == ReadFields(work[s..], nl, v)
      decreases LAST - nl
    {
      ok, v, s, nl := ParseField(work, s, nl, v);
      if !ok { return; }
    }
  }

  /** Copies the visible part of the text. */
  method Copy(text: string) returns (work: string, start: nat)
    ensures start == Spaces(text) && work == text[start..][..Visible(text[start..], MAX_WORK - 1)]
  {
    start := Skip(text);
    var p := CopyEnd(text, start);
    work := text[start..p];
    assert work == text[start..][..p - start];
  }

  method Skip(text: string) returns (start: nat)
    ensures start == Spaces(text)
  {
    start := 0;
    while start < |text| && IsSpace(text[start])
      invariant start <= |text| && Spaces(text) == start + Spaces(text[start..])
    {
      SpaceNext(text, start);
      start := start + 1;
    }
  }

  lemma SpaceNext(text: string, k: nat)
    requires k < |text| && IsSpace(text[k])
    ensures Spaces(text[k..]) == 1 + Spaces(text[k + 1..])
  {
    assert text[k..][1..] == text[k + 1..];
  }

  /** Where the copy ends. */
  method CopyEnd(text: string, start: nat) returns (p: nat)
    requires start <= |text|
    ensures start <= p <= |text| && p - start == Visible(text[start..], MAX_WORK - 1)
  {
    p := start;
    var n := MAX_WORK - 1;
    while p < |text| && IsGraph(text[p]) && n > 0
      invariant start <= p <= |text| && n >= 0
      invariant Visible(text[start..], MAX_WORK - 1) == p - start + Visible(text[p..], n)
    {
      VisibleNext(text, p, n);
      p, n := p + 1, n - 1;
    }
  }

  lemma VisibleNext(text: string, p: nat, n: nat)
    requires p < |text| && IsGraph(text[p]) && n > 0
    ensures Visible(text[p..], n) == 1 + Visible(text[p + 1..], n - 1)
  {
    assert text[p..][1..] == text[p + 1..];
  }

  /** The angle in the text and where it ends, or an error. */
  method Parse(text: string) returns (r: Reading, errno: int)
    ensures r == Read(text) && errno == if r.BadDms? then BAD_DMS else 0
  {
    var work, start := Copy(text);
    var s := 0;
    var sign := '+';
    if work != "" && (work[0] == '+' || work[0] == '-') {
      sign := work[0];
      s := 1;
    }
    assert work[s..] == Body(work);
    var ok, v;
    ok, v, s := ParseFields(work, s);
    if !ok { return BadDms, BAD_DMS; }
    r := ApplySign(work, start, v, s, sign);
    errno := 0;
  }

  /** The sign of the angle v whose fields end at position s: that of a letter there, or the one before the fields. */
  method ApplySign(work: string, start: nat, angle: real, end: nat, before: char) returns (r: Reading)
    requires end <= |work|
    ensures r == Directed(before == '-', Fields(angle, work[end..]), start + |work|)
  {
    var v, s, sign := angle, end, before;
    if s < |work| && IsDirection(work[s]) {
      sign := if SouthOrWest(work[s]) then '-' else '+';
      s := s + 1;
    }
    if sign == '-' { v := -v; }
    r := Angle(v, start + s);
  }
}
