/**
  The `Create Time` column: `pd.to_datetime(..., format='%d/%m/%Y %H:%M:%S',
  errors='coerce')` on a text cell (dashboard_local.py:75-76).  The pattern is
  read the way strptime's regular expression reads it: day and month are one
  or two digits (the day may also be a space and one digit), the year exactly
  four, hour, minute and second one or two; the space matches one or more
  whitespace characters; nothing may follow the seconds.  A text that does not
  match, names no calendar day, or lies outside the range of a nanosecond
  timestamp becomes NaT, here `None`.
 */
module Timestamps {

  import opened Wrappers
  import opened Strings
  import opened Dates

  datatype DateTime = DateTime(date: Date, hour: int, minute: int, second: int)

  predicate ValidTime(t: DateTime) {
    InRange(t.date) && 0 <= t.hour < 24 && 0 <= t.minute < 60 && 0 <= t.second < 60
  }

  /** Chronological order, field by field. */
  predicate NotLater(a: DateTime, b: DateTime) {
    Before(a.date, b.date)
    || (a.date == b.date
        && (a.hour < b.hour
            || (a.hour == b.hour
                && (a.minute < b.minute || (a.minute == b.minute && a.second <= b.second)))))
  }

  /** The first and last whole seconds a pandas nanosecond timestamp can hold. */
  const Earliest := DateTime(Date(1677, 9, 21), 0, 12, 44)
  const Latest := DateTime(Date(2262, 4, 11), 23, 47, 16)

  predicate Representable(t: DateTime) {
    ValidTime(t) && NotLater(Earliest, t) && NotLater(t, Latest)
  }

  function DigitValue(c: char): (v: int)
    requires IsDigit(c)
    ensures 0 <= v <= 9
  {
    c as int - '0' as int
  }

  /** `s[i..j]` is made of digits. */
  predicate Digits(s: string, i: nat, j: nat) {
    i <= j <= |s| && forall k :: i <= k < j ==> IsDigit(s[k])
  }

  /** The number the digits `s[i..j]` write, as `int` reads them. */
  function Written(s: string, i: nat, j: nat): nat
    requires Digits(s, i, j)
    decreases j - i
  {
    if j == i then 0 else 10 * Written(s, i, j - 1) + DigitValue(s[j - 1])
  }

  lemma WrittenOne(s: string, i: nat)
    requires Digits(s, i, i + 1)
    ensures Written(s, i, i + 1) == DigitValue(s[i])
  {
  }

  lemma WrittenTwo(s: string, i: nat)
    requires Digits(s, i, i + 2)
    ensures Written(s, i, i + 2) == 10 * DigitValue(s[i]) + DigitValue(s[i + 1])
  {
    WrittenOne(s, i);
  }

  lemma WrittenFour(s: string, i: nat)
    requires Digits(s, i, i + 4)
    ensures Written(s, i, i + 4)
      == 1000 * DigitValue(s[i]) + 100 * DigitValue(s[i + 1]) + 10 * DigitValue(s[i + 2]) + DigitValue(s[i + 3])
  {
    WrittenTwo(s, i);
    assert Written(s, i, i + 3) == 10 * Written(s, i, i + 2) + DigitValue(s[i + 2]);
  }

  /** A one- or two-digit field with value in `lo..hi`, two digits preferred;
      the value its digits write and the position after it. */
  function Field(s: string, i: nat, lo: int, hi: int): (r: Option<(int, nat)>)
    requires 0 <= lo <= 1 && 9 <= hi
    ensures r.Some? ==> lo <= r.value.0 <= hi && i < r.value.1 <= i + 2 && r.value.1 <= |s|
    ensures r.Some? ==> Digits(s, i, r.value.1) && r.value.0 == Written(s, i, r.value.1)
  {
    if i + 1 < |s| && IsDigit(s[i]) && IsDigit(s[i + 1])
       && lo <= 10 * DigitValue(s[i]) + DigitValue(s[i + 1]) <= hi
    then
      WrittenTwo(s, i);
      Some((10 * DigitValue(s[i]) + DigitValue(s[i + 1]), i + 2))
    else if i < |s| && IsDigit(s[i]) && lo <= DigitValue(s[i])
    then
      WrittenOne(s, i);
      Some((DigitValue(s[i]), i + 1))
    else None
  }

  /** `%d`: also admits a space followed by one non-zero digit. */
  function DayField(s: string, i: nat): (r: Option<(int, nat)>)
    ensures r.Some? ==> 1 <= r.value.0 <= 31 && i < r.value.1 <= i + 2 && r.value.1 <= |s|
    ensures r.Some? && s[i] == ' ' ==> r.value.1 == i + 2
    ensures r.Some? ==> var j := if s[i] == ' ' then i + 1 else i;
      j < r.value.1 && Digits(s, j, r.value.1) && r.value.0 == Written(s, j, r.value.1)
  {
    if i + 1 < |s| && s[i] == ' ' && IsDigit(s[i + 1]) && 1 <= DigitValue(s[i + 1])
    then
      WrittenOne(s, i + 1);
      Some((DigitValue(s[i + 1]), i + 2))
    else Field(s, i, 1, 31)
  }

  /** `%Y`: exactly four digits. */
  function YearField(s: string, i: nat): (r: Option<(int, nat)>)
    ensures r.Some? ==> 0 <= r.value.0 <= 9999 && r.value.1 == i + 4 <= |s|
    ensures r.Some? ==> Digits(s, i, i + 4) && r.value.0 == Written(s, i, i + 4)
  {
    if i + 3 < |s| && IsDigit(s[i]) && IsDigit(s[i + 1]) && IsDigit(s[i + 2]) && IsDigit(s[i + 3])
    then
      WrittenFour(s, i);
      Some((1000 * DigitValue(s[i]) + 100 * DigitValue(s[i + 1]) + 10 * DigitValue(s[i + 2]) + DigitValue(s[i + 3]), i + 4))
    else None
  }

  /** A literal character of the pattern. */
  function Expect(s: string, i: nat, c: char): (r: Option<nat>)
    ensures r.Some? <==> i < |s| && s[i] == c
    ensures r.Some? ==> r.value == i + 1
  {
    if i < |s| && s[i] == c then Some(i + 1) else None
  }

  /** The position after the whitespace run starting at `i`. */
  function SkipSpace(s: string, i: nat): (j: nat)
    requires i <= |s|
    ensures i <= j <= |s| && (j == |s| || !IsSpace(s[j]))
    ensures forall k :: i <= k < j ==> IsSpace(s[k])
    decreases |s| - i
  {
    if i < |s| && IsSpace(s[i]) then SkipSpace(s, i + 1) else i
  }

  /** The pattern's space: one or more whitespace characters. */
  function Gap(s: string, i: nat): (r: Option<nat>)
    requires i <= |s|
    ensures r.Some? ==> i < r.value <= |s| && (r.value == |s| || !IsSpace(s[r.value]))
    ensures r.Some? <==> i < |s| && IsSpace(s[i])
  {
    var j := SkipSpace(s, i);
    if j > i then Some(j) else None
  }

  /** The checks after the pattern has matched: nothing left over, a second
      below 60, a calendar day, and a value a nanosecond timestamp can hold. */
  function Assemble(t: DateTime, atEnd: bool): (r: Option<DateTime>)
    ensures r.Some? <==> atEnd && Representable(t)
    ensures r.Some? ==> r.value == t
  {
    if atEnd && Representable(t) then Some(t) else None
  }

  function ParseCreateTime(s: string): (r: Option<DateTime>)
    ensures r.Some? ==> Representable(r.value)
  {
    var day :- DayField(s, 0);
    var p1 :- Expect(s, day.1, '/');
    var month :- Field(s, p1, 1, 12);
    var p2 :- Expect(s, month.1, '/');
    var year :- YearField(s, p2);
    var p3 :- Gap(s, year.1);
    ParseClock(s, p3, Date(year.0, month.0, day.0))
  }

  /** The `%H:%M:%S` half of the pattern from position `i`, then the checks. */
  function ParseClock(s: string, i: nat, date: Date): (r: Option<DateTime>)
    ensures r.Some? ==> Representable(r.value) && r.value.date == date
  {
    var hour :- Field(s, i, 0, 23);
    var p4 :- Expect(s, hour.1, ':');
    var minute :- Field(s, p4, 0, 59);
    var p5 :- Expect(s, minute.1, ':');
    var second :- Field(s, p5, 0, 61);
    Assemble(DateTime(date, hour.0, minute.0, second.0), second.1 == |s|)
  }

  // ---------------------------------------------------------------------------
  // the canonical rendering and its round trip

  function DigitChar(n: int): (c: char)
    requires 0 <= n <= 9
    ensures IsDigit(c) && DigitValue(c) == n
  {
    ('0' as int + n) as char
  }

  function Pad2(n: int): (r: string)
    requires 0 <= n < 100
    ensures |r| == 2 && IsDigit(r[0]) && IsDigit(r[1]) && 10 * DigitValue(r[0]) + DigitValue(r[1]) == n
  {
    [DigitChar(n / 10), DigitChar(n % 10)]
  }

  function Pad4(n: int): (r: string)
    requires 0 <= n < 10000
    ensures |r| == 4 && (forall k :: 0 <= k < 4 ==> IsDigit(r[k]))
    ensures 1000 * DigitValue(r[0]) + 100 * DigitValue(r[1]) + 10 * DigitValue(r[2]) + DigitValue(r[3]) == n
  {
    Pad2(n / 100) + Pad2(n % 100)
  }

  /** `dd/mm/YYYY HH:MM:SS`, every field zero-padded: nineteen characters. */
  function Format(t: DateTime): (r: string)
    requires ValidTime(t)
    ensures |r| == 19
  {
    var d, m, y := Pad2(t.date.day), Pad2(t.date.month), Pad4(t.date.year);
    var h, n, c := Pad2(t.hour), Pad2(t.minute), Pad2(t.second);
    [d[0], d[1], '/', m[0], m[1], '/', y[0], y[1], y[2], y[3], ' ', h[0], h[1], ':', n[0], n[1], ':', c[0], c[1]]
  }

  /** Where each field of the canonical rendering sits. */
  lemma FormatLayout(t: DateTime)
    requires ValidTime(t)
    ensures var f := Format(t);
      f[..2] == Pad2(t.date.day) && f[2] == '/' && f[3..5] == Pad2(t.date.month) && f[5] == '/'
      && f[6..10] == Pad4(t.date.year) && f[10] == ' ' && f[11..13] == Pad2(t.hour) && f[13] == ':'
      && f[14..16] == Pad2(t.minute) && f[16] == ':' && f[17..19] == Pad2(t.second)
  {
    var f := Format(t);
    var d, m, y := Pad2(t.date.day), Pad2(t.date.month), Pad4(t.date.year);
    var h, n, c := Pad2(t.hour), Pad2(t.minute), Pad2(t.second);
    assert f[..2] == [d[0], d[1]] == d;
    assert f[3..5] == [m[0], m[1]] == m;
    assert f[6..10] == [y[0], y[1], y[2], y[3]] == y;
    assert f[11..13] == [h[0], h[1]] == h;
    assert f[14..16] == [n[0], n[1]] == n;
    assert f[17..19] == [c[0], c[1]] == c;
  }

  lemma Pad2Field(s: string, i: nat, n: int, lo: int, hi: int)
    requires 0 <= lo <= 1 && 9 <= hi && lo <= n <= hi && n < 100
    requires i + 2 <= |s| && s[i..i + 2] == Pad2(n)
    ensures Field(s, i, lo, hi) == Some((n, i + 2))
  {
    assert s[i] == s[i..i + 2][0] && s[i + 1] == s[i..i + 2][1];
  }

  lemma Pad4Year(s: string, i: nat, n: int)
    requires 0 <= n < 10000 && i + 4 <= |s| && s[i..i + 4] == Pad4(n)
    ensures YearField(s, i) == Some((n, i + 4))
  {
    var w := s[i..i + 4];
    assert s[i] == w[0] && s[i + 1] == w[1] && s[i + 2] == w[2] && s[i + 3] == w[3];
  }

  /** The canonical rendering of a representable time parses back to it, and
      any text after the seconds makes the parse fail. */
  lemma FormatParses(t: DateTime, rest: string)
    requires Representable(t)
    ensures ParseCreateTime(Format(t) + rest) == if rest == [] then Some(t) else None
  {
    var s := Format(t) + rest;
    FormattedDate(t, rest);
    FormattedClock(t, rest);
    ParseChain(s, (t.date.day, 2), (t.date.month, 5), (t.date.year, 10), 11,
      (t.hour, 13), (t.minute, 16), (t.second, 19));
    assert DateTime(Date(t.date.year, t.date.month, t.date.day), t.hour, t.minute, t.second) == t;
  }

  /** How the date fields and the gap of a canonical rendering read. */
  lemma FormattedDate(t: DateTime, rest: string)
    requires ValidTime(t)
    ensures var s := Format(t) + rest;
      DayField(s, 0) == Some((t.date.day, 2)) && s[2] == '/'
      && Field(s, 3, 1, 12) == Some((t.date.month, 5)) && s[5] == '/'
      && YearField(s, 6) == Some((t.date.year, 10))
      && IsSpace(s[10]) && SkipSpace(s, 10) == 11
  {
    var f := Format(t);
    var s := f + rest;
    FormatLayout(t);
    assert s[..2] == f[..2] && s[3..5] == f[3..5] && s[6..10] == f[6..10];
    assert s[2] == '/' && s[5] == '/' && s[10] == ' ';
    assert s[0] == Pad2(t.date.day)[0];
    Pad2Field(s, 0, t.date.day, 1, 31);
    Pad2Field(s, 3, t.date.month, 1, 12);
    Pad4Year(s, 6, t.date.year);
    assert s[11] == f[11] == Pad2(t.hour)[0];
    assert !IsSpace(s[11]);
    assert SkipSpace(s, 11) == 11;
  }

  /** How the clock fields of a canonical rendering read. */
  lemma FormattedClock(t: DateTime, rest: string)
    requires ValidTime(t)
    ensures var s := Format(t) + rest;
      Field(s, 11, 0, 23) == Some((t.hour, 13)) && s[13] == ':'
      && Field(s, 14, 0, 59) == Some((t.minute, 16)) && s[16] == ':'
      && Field(s, 17, 0, 61) == Some((t.second, 19))
  {
    var f := Format(t);
    var s := f + rest;
    FormatLayout(t);
    assert s[11..13] == f[11..13] && s[14..16] == f[14..16] && s[17..19] == f[17..19];
    assert s[13] == ':' && s[16] == ':';
    Pad2Field(s, 11, t.hour, 0, 23);
    Pad2Field(s, 14, t.minute, 0, 59);
    Pad2Field(s, 17, t.second, 0, 61);
  }

  /** A text whose fields all read in turn parses to their assembly. */
  lemma ParseChain(s: string, day: (int, nat), month: (int, nat), year: (int, nat), gap: nat,
                   hour: (int, nat), minute: (int, nat), second: (int, nat))
    requires DayField(s, 0) == Some(day)
    requires day.1 < |s| && s[day.1] == '/'
    requires Field(s, day.1 + 1, 1, 12) == Some(month)
    requires month.1 < |s| && s[month.1] == '/'
    requires YearField(s, month.1 + 1) == Some(year)
    requires year.1 < |s| && IsSpace(s[year.1]) && SkipSpace(s, year.1) == gap
    requires Field(s, gap, 0, 23) == Some(hour)
    requires hour.1 < |s| && s[hour.1] == ':'
    requires Field(s, hour.1 + 1, 0, 59) == Some(minute)
    requires minute.1 < |s| && s[minute.1] == ':'
    requires Field(s, minute.1 + 1, 0, 61) == Some(second)
    ensures ParseCreateTime(s)
      == Assemble(DateTime(Date(year.0, month.0, day.0), hour.0, minute.0, second.0), second.1 == |s|)
  {
    DateChain(s, day, month, year, gap);
    ClockChain(s, gap, Date(year.0, month.0, day.0), hour, minute, second);
  }

  /** A text whose date fields and gap read in turn goes on to its clock half. */
  lemma DateChain(s: string, day: (int, nat), month: (int, nat), year: (int, nat), gap: nat)
    requires DayField(s, 0) == Some(day)
    requires day.1 < |s| && s[day.1] == '/'
    requires Field(s, day.1 + 1, 1, 12) == Some(month)
    requires month.1 < |s| && s[month.1] == '/'
    requires YearField(s, month.1 + 1) == Some(year)
    requires year.1 < |s| && IsSpace(s[year.1]) && SkipSpace(s, year.1) == gap
    ensures ParseCreateTime(s) == ParseClock(s, gap, Date(year.0, month.0, day.0))
  {
    assert Expect(s, day.1, '/') == Some(day.1 + 1);
    assert Expect(s, month.1, '/') == Some(month.1 + 1);
    assert Gap(s, year.1) == Some(gap);
  }

  /** A clock half whose fields read in turn parses to their assembly. */
  lemma ClockChain(s: string, i: nat, date: Date, hour: (int, nat), minute: (int, nat), second: (int, nat))
    requires Field(s, i, 0, 23) == Some(hour)
    requires hour.1 < |s| && s[hour.1] == ':'
    requires Field(s, hour.1 + 1, 0, 59) == Some(minute)
    requires minute.1 < |s| && s[minute.1] == ':'
    requires Field(s, minute.1 + 1, 0, 61) == Some(second)
    ensures ParseClock(s, i, date) == Assemble(DateTime(date, hour.0, minute.0, second.0), second.1 == |s|)
  {
    assert Expect(s, hour.1, ':') == Some(hour.1 + 1);
    assert Expect(s, minute.1, ':') == Some(minute.1 + 1);
  }

  // ---------------------------------------------------------------------------
  // what an accepted text writes

  /** Where the fields of a text lie: the day from `dayStart` (1 after a
      leading space) to `dayEnd`, the month up to `monthEnd`, the four year
      digits up to `yearEnd`, whitespace up to `clockStart`, then the hour up
      to `hourEnd`, the minute up to `minuteEnd` and the second up to the end. */
  datatype Layout = Layout(dayStart: nat, dayEnd: nat, monthEnd: nat, yearEnd: nat,
                           clockStart: nat, hourEnd: nat, minuteEnd: nat)

  /** A field of one or two digits, `s[i..j]`, writing `v`. */
  predicate Numeral(s: string, i: nat, j: nat, v: int) {
    i < j <= i + 2 && Digits(s, i, j) && Written(s, i, j) == v
  }

  /** `s` writes the time `t` in the pattern's shape `d/m/Y H:M:S`, with its
      fields where `l` puts them. */
  predicate Writes(s: string, t: DateTime, l: Layout) {
    DateWrites(s, t.date, l) && ClockWrites(s, t, l)
  }

  /** The date half: `d/m/Y` from the start, then whitespace up to `clockStart`. */
  predicate DateWrites(s: string, d: Date, l: Layout) {
    (l.dayStart == 0 || (l.dayStart == 1 && l.dayEnd == 2 && |s| > 0 && s[0] == ' '))
    && Numeral(s, l.dayStart, l.dayEnd, d.day)
    && l.dayEnd < |s| && s[l.dayEnd] == '/'
    && Numeral(s, l.dayEnd + 1, l.monthEnd, d.month)
    && l.monthEnd < |s| && s[l.monthEnd] == '/'
    && l.yearEnd == l.monthEnd + 5 && Digits(s, l.monthEnd + 1, l.yearEnd)
    && Written(s, l.monthEnd + 1, l.yearEnd) == d.year
    && l.yearEnd < l.clockStart <= |s| && (forall k :: l.yearEnd <= k < l.clockStart ==> IsSpace(s[k]))
  }

  /** The clock half: `H:M:S` from `clockStart` to the end of the text. */
  predicate ClockWrites(s: string, t: DateTime, l: Layout) {
    Numeral(s, l.clockStart, l.hourEnd, t.hour)
    && l.hourEnd < |s| && s[l.hourEnd] == ':'
    && Numeral(s, l.hourEnd + 1, l.minuteEnd, t.minute)
    && l.minuteEnd < |s| && s[l.minuteEnd] == ':'
    && Numeral(s, l.minuteEnd + 1, |s|, t.second)
  }

  /** A text parses to `t` exactly when `t` fits a nanosecond timestamp and the
      text writes it in the pattern's shape — with or without zero padding, a
      space-padded day, and any whitespace between the date and the time. */
  lemma ParseWrites(s: string, t: DateTime)
    ensures ParseCreateTime(s) == Some(t) <==> Representable(t) && exists l :: Writes(s, t, l)
  {
    if ParseCreateTime(s) == Some(t) {
      ParsedWrites(s);
    }
    if Representable(t) && exists l :: Writes(s, t, l) {
      var l :| Writes(s, t, l);
      WritesParse(s, t, l);
    }
  }

  /** An accepted text writes the time it parses to. */
  lemma ParsedWrites(s: string)
    requires ParseCreateTime(s).Some?
    ensures exists l :: Writes(s, ParseCreateTime(s).value, l)
  {
    var day, month, year, gap := ParsedDate(s);
    var date := Date(year.0, month.0, day.0);
    var hour, minute, second := ParsedClock(s, gap, date);
    var l := Layout(if s[0] == ' ' then 1 else 0, day.1, month.1, year.1, gap, hour.1, minute.1);
    DateWritten(s, day, month, year, l);
    var t := DateTime(date, hour.0, minute.0, second.0);
    ClockWritten(s, t, hour, minute, second, l);
    assert ParseCreateTime(s).value == t;
    assert Writes(s, t, l);
  }

  lemma DateWritten(s: string, day: (int, nat), month: (int, nat), year: (int, nat), l: Layout)
    requires DayField(s, 0) == Some(day)
    requires day.1 < |s| && s[day.1] == '/' && Field(s, day.1 + 1, 1, 12) == Some(month)
    requires month.1 < |s| && s[month.1] == '/' && YearField(s, month.1 + 1) == Some(year)
    requires year.1 < l.clockStart <= |s| && SkipSpace(s, year.1) == l.clockStart
    requires l.dayStart == (if s[0] == ' ' then 1 else 0)
    requires l.dayEnd == day.1 && l.monthEnd == month.1 && l.yearEnd == year.1
    ensures DateWrites(s, Date(year.0, month.0, day.0), l)
  {
  }

  lemma ClockWritten(s: string, t: DateTime, hour: (int, nat), minute: (int, nat), second: (int, nat), l: Layout)
    requires Field(s, l.clockStart, 0, 23) == Some(hour)
    requires hour.1 < |s| && s[hour.1] == ':' && Field(s, hour.1 + 1, 0, 59) == Some(minute)
    requires minute.1 < |s| && s[minute.1] == ':' && Field(s, minute.1 + 1, 0, 61) == Some(second)
    requires second.1 == |s| && l.hourEnd == hour.1 && l.minuteEnd == minute.1
    requires t.hour == hour.0 && t.minute == minute.0 && t.second == second.0
    ensures ClockWrites(s, t, l)
  {
  }

  /** The date fields an accepted text reads. */
  lemma ParsedDate(s: string) returns (day: (int, nat), month: (int, nat), year: (int, nat), gap: nat)
    requires ParseCreateTime(s).Some?
    ensures DayField(s, 0) == Some(day)
    ensures day.1 < |s| && s[day.1] == '/' && Field(s, day.1 + 1, 1, 12) == Some(month)
    ensures month.1 < |s| && s[month.1] == '/' && YearField(s, month.1 + 1) == Some(year)
    ensures year.1 < gap <= |s| && SkipSpace(s, year.1) == gap
    ensures ParseCreateTime(s) == ParseClock(s, gap, Date(year.0, month.0, day.0))
  {
    day := DayField(s, 0).value;
    month := Field(s, day.1 + 1, 1, 12).value;
    year := YearField(s, month.1 + 1).value;
    gap := Gap(s, year.1).value;
  }

  /** The clock fields an accepted clock half reads. */
  lemma ParsedClock(s: string, i: nat, date: Date) returns (hour: (int, nat), minute: (int, nat), second: (int, nat))
    requires ParseClock(s, i, date).Some?
    ensures Field(s, i, 0, 23) == Some(hour)
    ensures hour.1 < |s| && s[hour.1] == ':' && Field(s, hour.1 + 1, 0, 59) == Some(minute)
    ensures minute.1 < |s| && s[minute.1] == ':' && Field(s, minute.1 + 1, 0, 61) == Some(second)
    ensures second.1 == |s| && ParseClock(s, i, date) == Some(DateTime(date, hour.0, minute.0, second.0))
  {
    hour := Field(s, i, 0, 23).value;
    minute := Field(s, hour.1 + 1, 0, 59).value;
    second := Field(s, minute.1 + 1, 0, 61).value;
  }

  /** A text that writes a representable time parses to it. */
  lemma WritesParse(s: string, t: DateTime, l: Layout)
    requires Representable(t) && Writes(s, t, l)
    ensures ParseCreateTime(s) == Some(t)
  {
    DateReads(s, t.date, l);
    ClockReads(s, t, l);
  }

  lemma DateReads(s: string, d: Date, l: Layout)
    requires 1 <= d.day <= 31 && 1 <= d.month <= 12 && DateWrites(s, d, l)
    requires l.clockStart < |s| && IsDigit(s[l.clockStart])
    ensures ParseCreateTime(s) == ParseClock(s, l.clockStart, d)
  {
    DayReads(s, d.day, l);
    FieldReads(s, l.dayEnd + 1, l.monthEnd, 1, 12);
    WrittenFour(s, l.monthEnd + 1);
    assert YearField(s, l.monthEnd + 1) == Some((d.year, l.yearEnd));
    SkipTo(s, l.yearEnd, l.clockStart);
    DateChain(s, (d.day, l.dayEnd), (d.month, l.monthEnd), (d.year, l.yearEnd), l.clockStart);
  }

  lemma DayReads(s: string, day: int, l: Layout)
    requires 1 <= day <= 31 && l.dayEnd < |s| && s[l.dayEnd] == '/'
    requires l.dayStart == 0 || (l.dayStart == 1 && l.dayEnd == 2 && |s| > 0 && s[0] == ' ')
    requires Numeral(s, l.dayStart, l.dayEnd, day)
    ensures DayField(s, 0) == Some((day, l.dayEnd))
  {
    if l.dayStart == 1 {
      WrittenOne(s, 1);
    } else {
      assert s[0] != ' ';
      FieldReads(s, 0, l.dayEnd, 1, 31);
    }
  }

  lemma ClockReads(s: string, t: DateTime, l: Layout)
    requires Representable(t) && ClockWrites(s, t, l)
    ensures ParseClock(s, l.clockStart, t.date) == Some(t)
  {
    FieldReads(s, l.clockStart, l.hourEnd, 0, 23);
    FieldReads(s, l.hourEnd + 1, l.minuteEnd, 0, 59);
    FieldReads(s, l.minuteEnd + 1, |s|, 0, 61);
    ClockChain(s, l.clockStart, t.date, (t.hour, l.hourEnd), (t.minute, l.minuteEnd), (t.second, |s|));
  }

  /** A field whose digits stop at `j` and write a value in `lo..hi` reads as that value. */
  lemma FieldReads(s: string, i: nat, j: nat, lo: int, hi: int)
    requires 0 <= lo <= 1 && 9 <= hi
    requires i < j <= i + 2 && Digits(s, i, j) && (j == |s| || !IsDigit(s[j]))
    requires lo <= Written(s, i, j) <= hi
    ensures Field(s, i, lo, hi) == Some((Written(s, i, j), j))
  {
    if j == i + 1 {
      WrittenOne(s, i);
    } else {
      WrittenTwo(s, i);
    }
  }

  /** The whitespace run from `i` ends where the first non-whitespace character is. */
  lemma {:induction false} SkipTo(s: string, i: nat, j: nat)
    requires i <= j <= |s| && (forall k :: i <= k < j ==> IsSpace(s[k]))
    requires j == |s| || !IsSpace(s[j])
    ensures SkipSpace(s, i) == j
    decreases j - i
  {
    if i < j {
      SkipTo(s, i + 1, j);
    }
  }

  /** How the date fields of `5/3/2024 9:07:05` read. */
  lemma UnpaddedDateFields()
    ensures var s := "5/3/2024 9:07:05";
      DayField(s, 0) == Some((5, 1))
      && Field(s, 2, 1, 12) == Some((3, 3))
      && YearField(s, 4) == Some((2024, 8))
      && SkipSpace(s, 8) == 9
  {
  }

  /** How the time fields of `5/3/2024 9:07:05` read. */
  lemma UnpaddedTimeFields()
    ensures var s := "5/3/2024 9:07:05";
      Field(s, 9, 0, 23) == Some((9, 10))
      && Field(s, 11, 0, 59) == Some((7, 13))
      && Field(s, 14, 0, 61) == Some((5, 16))
  {
  }

  /** Fields may be unpadded. */
  lemma UnpaddedFields()
    ensures ParseCreateTime("5/3/2024 9:07:05") == Some(DateTime(Date(2024, 3, 5), 9, 7, 5))
  {
    var s := "5/3/2024 9:07:05";
    UnpaddedDateFields();
    UnpaddedTimeFields();
    ParseChain(s, (5, 1), (3, 3), (2024, 8), 9, (9, 10), (7, 13), (5, 16));
  }

  /** How the date fields of ` 5/03/2024  09:7:5` read. */
  lemma SpacePaddedDayDateFields()
    ensures var s := " 5/03/2024  09:7:5";
      DayField(s, 0) == Some((5, 2))
      && Field(s, 3, 1, 12) == Some((3, 5))
      && YearField(s, 6) == Some((2024, 10))
      && SkipSpace(s, 10) == 12
  {
  }

  /** How the time fields of ` 5/03/2024  09:7:5` read. */
  lemma SpacePaddedDayTimeFields()
    ensures var s := " 5/03/2024  09:7:5";
      Field(s, 12, 0, 23) == Some((9, 14))
      && Field(s, 15, 0, 59) == Some((7, 16))
      && Field(s, 17, 0, 61) == Some((5, 18))
  {
  }

  /** The day may be space-padded and the gap may be wider. */
  lemma SpacePaddedDay()
    ensures ParseCreateTime(" 5/03/2024  09:7:5") == Some(DateTime(Date(2024, 3, 5), 9, 7, 5))
  {
    var s := " 5/03/2024  09:7:5";
    SpacePaddedDayDateFields();
    SpacePaddedDayTimeFields();
    ParseChain(s, (5, 2), (3, 5), (2024, 10), 12, (9, 14), (7, 16), (5, 18));
  }

  /** An ISO-style timestamp is refused at its first dash. */
  lemma IsoShapeRefused()
    ensures ParseCreateTime("2024-03-05 10:00:00") == None
  {
    var s := "2024-03-05 10:00:00";
    assert DayField(s, 0) == Some((20, 2));
    assert Expect(s, 2, '/') == None;
  }

  /** How the date fields of `05/03/2024 10:00` read. */
  lemma MissingSecondsDateFields()
    ensures var s := "05/03/2024 10:00";
      DayField(s, 0) == Some((5, 2))
      && Field(s, 3, 1, 12) == Some((3, 5))
      && YearField(s, 6) == Some((2024, 10))
      && SkipSpace(s, 10) == 11
  {
  }

  /** A timestamp without seconds is refused. */
  lemma MissingSecondsRefused()
    ensures ParseCreateTime("05/03/2024 10:00") == None
  {
    var s := "05/03/2024 10:00";
    MissingSecondsDateFields();
    assert Field(s, 11, 0, 23) == Some((10, 13));
    assert Field(s, 14, 0, 59) == Some((0, 16));
    assert Expect(s, 16, ':') == None;
  }

  /** The text of a missing cell is refused. */
  lemma MissingCellRefused()
    ensures ParseCreateTime("nan") == None
  {
    assert DayField("nan", 0) == None;
  }

  /** How the date fields of `29/02/2023 10:00:00` read. */
  lemma LeapDayDateFields()
    ensures var s := "29/02/2023 10:00:00";
      DayField(s, 0) == Some((29, 2))
      && Field(s, 3, 1, 12) == Some((2, 5))
      && YearField(s, 6) == Some((2023, 10))
      && SkipSpace(s, 10) == 11
  {
  }

  /** How the time fields of `29/02/2023 10:00:00` read. */
  lemma LeapDayTimeFields()
    ensures var s := "29/02/2023 10:00:00";
      Field(s, 11, 0, 23) == Some((10, 13))
      && Field(s, 14, 0, 59) == Some((0, 16))
      && Field(s, 17, 0, 61) == Some((0, 19))
  {
  }

  /** A day the calendar does not have becomes `None`. */
  lemma LeapDayRefused()
    ensures ParseCreateTime("29/02/2023 10:00:00") == None
  {
    var s := "29/02/2023 10:00:00";
    LeapDayDateFields();
    LeapDayTimeFields();
    ParseChain(s, (29, 2), (2, 5), (2023, 10), 11, (10, 13), (0, 16), (0, 19));
    assert !ValidDate(Date(2023, 2, 29));
  }

  /** How the date fields of `05/03/2024 10:00:60` read. */
  lemma SixtiethSecondDateFields()
    ensures var s := "05/03/2024 10:00:60";
      DayField(s, 0) == Some((5, 2))
      && Field(s, 3, 1, 12) == Some((3, 5))
      && YearField(s, 6) == Some((2024, 10))
      && SkipSpace(s, 10) == 11
  {
  }

  /** How the time fields of `05/03/2024 10:00:60` read. */
  lemma SixtiethSecondTimeFields()
    ensures var s := "05/03/2024 10:00:60";
      Field(s, 11, 0, 23) == Some((10, 13))
      && Field(s, 14, 0, 59) == Some((0, 16))
      && Field(s, 17, 0, 61) == Some((60, 19))
  {
  }

  /** The pattern admits a 60th second, which is then refused. */
  lemma SixtiethSecondRefused()
    ensures ParseCreateTime("05/03/2024 10:00:60") == None
  {
    var s := "05/03/2024 10:00:60";
    SixtiethSecondDateFields();
    SixtiethSecondTimeFields();
    ParseChain(s, (5, 2), (3, 5), (2024, 10), 11, (10, 13), (0, 16), (60, 19));
  }

  /** How the date fields of `05/03/2024 10:00:00 ` read. */
  lemma TrailingSpaceDateFields()
    ensures var s := "05/03/2024 10:00:00 ";
      DayField(s, 0) == Some((5, 2))
      && Field(s, 3, 1, 12) == Some((3, 5))
      && YearField(s, 6) == Some((2024, 10))
      && SkipSpace(s, 10) == 11
  {
  }

  /** How the time fields of `05/03/2024 10:00:00 ` read. */
  lemma TrailingSpaceTimeFields()
    ensures var s := "05/03/2024 10:00:00 ";
      Field(s, 11, 0, 23) == Some((10, 13))
      && Field(s, 14, 0, 59) == Some((0, 16))
      && Field(s, 17, 0, 61) == Some((0, 19))
  {
  }

  /** Trailing whitespace is left over after the seconds and refused. */
  lemma TrailingSpaceRefused()
    ensures ParseCreateTime("05/03/2024 10:00:00 ") == None
  {
    var s := "05/03/2024 10:00:00 ";
    TrailingSpaceDateFields();
    TrailingSpaceTimeFields();
    ParseChain(s, (5, 2), (3, 5), (2024, 10), 11, (10, 13), (0, 16), (0, 19));
  }

  /** How the date fields of `01/01/1677 00:00:00` read. */
  lemma BeforeEarliestDateFields()
    ensures var s := "01/01/1677 00:00:00";
      DayField(s, 0) == Some((1, 2))
      && Field(s, 3, 1, 12) == Some((1, 5))
      && YearField(s, 6) == Some((1677, 10))
      && SkipSpace(s, 10) == 11
  {
  }

  /** How the time fields of `01/01/1677 00:00:00` read. */
  lemma BeforeEarliestTimeFields()
    ensures var s := "01/01/1677 00:00:00";
      Field(s, 11, 0, 23) == Some((0, 13))
      && Field(s, 14, 0, 59) == Some((0, 16))
      && Field(s, 17, 0, 61) == Some((0, 19))
  {
  }

  /** A time before the first nanosecond timestamp becomes `None`. */
  lemma BeforeEarliestRefused()
    ensures ParseCreateTime("01/01/1677 00:00:00") == None
  {
    var s := "01/01/1677 00:00:00";
    BeforeEarliestDateFields();
    BeforeEarliestTimeFields();
    ParseChain(s, (1, 2), (1, 5), (1677, 10), 11, (0, 13), (0, 16), (0, 19));
    assert !NotLater(Earliest, DateTime(Date(1677, 1, 1), 0, 0, 0));
  }
}
