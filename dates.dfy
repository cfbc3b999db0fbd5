/**
  Calendar dates as Python's `datetime.date` treats them: the proleptic
  Gregorian calendar, ordinals counted from 0001-01-01 (ordinal 1, a Monday),
  `weekday()` with Monday as 0, and the representable range year 1 to 9999.
  Adding a `timedelta` of whole days is stepping day by day; a result outside
  the range is Python's OverflowError, modelled as `None`.
 */
module Dates {

  import opened Wrappers

  datatype Date = Date(year: int, month: int, day: int)

  const MinYear := 1
  const MaxYear := 9999

  predicate IsLeapYear(y: int) {
    y % 4 == 0 && (y % 100 != 0 || y % 400 == 0)
  }

  function DaysInMonth(y: int, m: int): (n: int)
    requires 1 <= m <= 12
    ensures 28 <= n <= 31
    ensures m == 2 ==> (n == 29 <==> IsLeapYear(y))
  {
    if m == 2 then (if IsLeapYear(y) then 29 else 28)
    else if m == 4 || m == 6 || m == 9 || m == 11 then 30
    else 31
  }

  predicate ValidDate(d: Date) {
    1 <= d.month <= 12 && 1 <= d.day <= DaysInMonth(d.year, d.month)
  }

  /** The dates `datetime.date` can represent. */
  predicate InRange(d: Date) {
    ValidDate(d) && MinYear <= d.year <= MaxYear
  }

  /** Python's `a < b` on dates: lexicographic on (year, month, day). */
  predicate Before(a: Date, b: Date) {
    a.year < b.year || (a.year == b.year && (a.month < b.month || (a.month == b.month && a.day < b.day)))
  }

  /** Python's `a <= b` on dates. */
  predicate NotAfter(a: Date, b: Date) {
    a == b || Before(a, b)
  }

  /** The first day of the month after (y, m). */
  function FirstOfNextMonth(y: int, m: int): Date
    requires 1 <= m <= 12
  {
    if m < 12 then Date(y, m + 1, 1) else Date(y + 1, 1, 1)
  }

  /** The last day of the month before (y, m). */
  function LastOfPreviousMonth(y: int, m: int): Date
    requires 1 <= m <= 12
  {
    if m > 1 then Date(y, m - 1, DaysInMonth(y, m - 1)) else Date(y - 1, 12, 31)
  }

  /** `d + timedelta(days=1)` on the unbounded calendar. */
  function NextDay(d: Date): (r: Date)
    requires ValidDate(d)
    ensures ValidDate(r) && Before(d, r)
    ensures d.day < DaysInMonth(d.year, d.month) ==> r == Date(d.year, d.month, d.day + 1)
    ensures d.day == DaysInMonth(d.year, d.month) ==> r == FirstOfNextMonth(d.year, d.month)
  {
    if d.day < DaysInMonth(d.year, d.month) then Date(d.year, d.month, d.day + 1)
    else FirstOfNextMonth(d.year, d.month)
  }

  /** `d - timedelta(days=1)` on the unbounded calendar; the inverse of NextDay. */
  function PrevDay(d: Date): (r: Date)
    requires ValidDate(d)
    ensures ValidDate(r) && Before(r, d)
    ensures NextDay(r) == d
    ensures d.day > 1 ==> r == Date(d.year, d.month, d.day - 1)
    ensures d.day == 1 ==> r == LastOfPreviousMonth(d.year, d.month)
  {
    if d.day > 1 then Date(d.year, d.month, d.day - 1)
    else LastOfPreviousMonth(d.year, d.month)
  }

  lemma PrevOfNext(d: Date)
    requires ValidDate(d)
    ensures PrevDay(NextDay(d)) == d
  {
  }

  /** `d + timedelta(days=n)` for n >= 0, without the range check. */
  function Shift(d: Date, n: nat): (r: Date)
    requires ValidDate(d)
    ensures ValidDate(r)
  {
    if n == 0 then d else NextDay(Shift(d, n - 1))
  }

  /** `d - timedelta(days=n)` for n >= 0, without the range check. */
  function ShiftBack(d: Date, n: nat): (r: Date)
    requires ValidDate(d)
    ensures ValidDate(r)
  {
    if n == 0 then d else PrevDay(ShiftBack(d, n - 1))
  }

  lemma {:induction false} ShiftAdd(d: Date, a: nat, b: nat)
    requires ValidDate(d)
    ensures Shift(d, a + b) == Shift(Shift(d, a), b)
  {
    if b > 0 {
      ShiftAdd(d, a, b - 1);
    }
  }

  /** Going back n days and then forward n days returns to the start. */
  lemma {:induction false} ShiftOfShiftBack(d: Date, n: nat)
    requires ValidDate(d)
    ensures Shift(ShiftBack(d, n), n) == d
  {
    if n > 0 {
      var x := ShiftBack(d, n - 1);
      ShiftAdd(PrevDay(x), 1, n - 1);
      assert Shift(PrevDay(x), 1) == x;
      ShiftOfShiftBack(d, n - 1);
    }
  }

  // ---------------------------------------------------------------------------
  // ordinals and weekdays

  const CumulativeDays: seq<int> := [0, 31, 59, 90, 120, 151, 181, 212, 243, 273, 304, 334]

  function DaysBeforeYear(y: int): int {
    var n := y - 1;
    365 * n + n / 4 - n / 100 + n / 400
  }

  function DaysBeforeMonth(y: int, m: int): int
    requires 1 <= m <= 12
  {
    CumulativeDays[m - 1] + (if m > 2 && IsLeapYear(y) then 1 else 0)
  }

  function DaysInYear(y: int): int {
    if IsLeapYear(y) then 366 else 365
  }

  /** `date.toordinal()`: 0001-01-01 is day 1. */
  function Ordinal(d: Date): int
    requires ValidDate(d)
  {
    DaysBeforeYear(d.year) + DaysBeforeMonth(d.year, d.month) + d.day
  }

  lemma YearLength(y: int)
    ensures DaysBeforeYear(y + 1) == DaysBeforeYear(y) + DaysInYear(y)
  {
    var n := y - 1;
    assert (n + 1) / 4 - n / 4 == (if (n + 1) % 4 == 0 then 1 else 0);
    assert (n + 1) / 100 - n / 100 == (if (n + 1) % 100 == 0 then 1 else 0);
    assert (n + 1) / 400 - n / 400 == (if (n + 1) % 400 == 0 then 1 else 0);
  }

  lemma MonthLength(y: int, m: int)
    requires 1 <= m < 12
    ensures DaysBeforeMonth(y, m + 1) == DaysBeforeMonth(y, m) + DaysInMonth(y, m)
  {
  }

  lemma OrdinalNextDay(d: Date)
    requires ValidDate(d)
    ensures Ordinal(NextDay(d)) == Ordinal(d) + 1
  {
    if d.day == DaysInMonth(d.year, d.month) {
      if d.month < 12 {
        MonthLength(d.year, d.month);
      } else {
        YearLength(d.year);
      }
    }
  }

  lemma {:induction false} OrdinalShift(d: Date, n: nat)
    requires ValidDate(d)
    ensures Ordinal(Shift(d, n)) == Ordinal(d) + n
  {
    if n > 0 {
      OrdinalShift(d, n - 1);
      OrdinalNextDay(Shift(d, n - 1));
    }
  }

  lemma {:induction false} OrdinalShiftBack(d: Date, n: nat)
    requires ValidDate(d)
    ensures Ordinal(ShiftBack(d, n)) == Ordinal(d) - n
  {
    if n > 0 {
      OrdinalShiftBack(d, n - 1);
      OrdinalNextDay(ShiftBack(d, n));
    }
  }

  /** A valid date with a positive ordinal lies in year 1 or later. */
  lemma PositiveOrdinalYear(d: Date)
    requires ValidDate(d) && Ordinal(d) >= 1
    ensures d.year >= MinYear
  {
    if d.year <= 0 {
      YearLength(d.year);
    }
  }

  /** Every representable date has a positive ordinal. */
  lemma OrdinalPositive(d: Date)
    requires InRange(d)
    ensures Ordinal(d) >= 1
  {
    var n := d.year - 1;
    assert n / 100 <= n && n / 4 >= 0 && n / 400 >= 0;
  }

  /** `date.weekday()`: Monday is 0, Sunday is 6. */
  function Weekday(d: Date): (w: int)
    requires ValidDate(d)
    ensures 0 <= w < 7
  {
    (Ordinal(d) + 6) % 7
  }

  lemma ModSeven(a: int, b: int)
    ensures (a + b) % 7 == (a % 7 + b) % 7
  {
    var q := a / 7;
    assert a == 7 * q + a % 7;
    assert (7 * q + (a % 7 + b)) % 7 == (a % 7 + b) % 7;
  }

  lemma WeekdayShift(d: Date, n: nat)
    requires ValidDate(d)
    ensures Weekday(Shift(d, n)) == (Weekday(d) + n) % 7
  {
    OrdinalShift(d, n);
    ModSeven(Ordinal(d) + 6, n);
  }

  lemma WeekdayShiftBack(d: Date, n: nat)
    requires ValidDate(d)
    ensures Weekday(ShiftBack(d, n)) == (Weekday(d) - n) % 7
  {
    var o := Ordinal(d) + 6;
    var x := ShiftBack(d, n);
    OrdinalShiftBack(d, n);
    assert Ordinal(x) + 6 == o - n;
    ModSeven(o, -(n as int));
  }

  /** Going back `weekday()` days from a representable date stays at ordinal 1 or later. */
  lemma WeekdayBelowOrdinal(d: Date)
    requires InRange(d)
    ensures Ordinal(d) - Weekday(d) >= 1
  {
    OrdinalPositive(d);
    WeekOffsetBelow(Ordinal(d));
  }

  lemma WeekOffsetBelow(o: int)
    requires o >= 1
    ensures o - (o + 6) % 7 >= 1
  {
    if o < 7 {
      assert (o + 6) % 7 == o - 1;
    }
  }

  /** The ordinal of 9999-12-31, the last date `datetime.date` can represent. */
  const MaxOrdinal := 3652059

  lemma LastOrdinal()
    ensures Ordinal(Date(MaxYear, 12, 31)) == MaxOrdinal
  {
  }

  lemma {:induction false} DaysBeforeYearMono(y: int, z: int)
    requires y <= z
    ensures DaysBeforeYear(y) <= DaysBeforeYear(z)
    decreases z - y
  {
    if y < z {
      DaysBeforeYearMono(y, z - 1);
      YearLength(z - 1);
    }
  }

  /** A date's ordinal lies within its own year's run of ordinals. */
  lemma OrdinalBounds(d: Date)
    requires ValidDate(d)
    ensures DaysBeforeYear(d.year) < Ordinal(d) <= DaysBeforeYear(d.year + 1)
  {
    YearLength(d.year);
  }

  /** A calendar date is representable exactly when its ordinal lies in
      `1..MaxOrdinal`. */
  lemma InRangeOrdinal(d: Date)
    requires ValidDate(d)
    ensures InRange(d) <==> 1 <= Ordinal(d) <= MaxOrdinal
  {
    OrdinalBounds(d);
    if InRange(d) {
      OrdinalPositive(d);
      DaysBeforeYearMono(d.year + 1, MaxYear + 1);
    }
    if 1 <= Ordinal(d) <= MaxOrdinal {
      PositiveOrdinalYear(d);
      if d.year > MaxYear {
        DaysBeforeYearMono(MaxYear + 1, d.year);
      }
    }
  }

  /** `d + timedelta(days=n)`: `None` when Python would raise OverflowError. */
  function AddDays(d: Date, n: int): (r: Option<Date>)
    requires InRange(d)
    ensures r.Some? ==> InRange(r.value)
    ensures r.Some? ==> Ordinal(r.value) == Ordinal(d) + n
  {
    var t := if n >= 0 then Shift(d, n) else ShiftBack(d, -n);
    OrdinalShift(d, if n >= 0 then n else 0);
    OrdinalShiftBack(d, if n < 0 then -n else 0);
    if InRange(t) then Some(t) else None
  }

  /** The step overflows exactly when the target ordinal leaves `1..MaxOrdinal`. */
  lemma AddDaysRange(d: Date, n: int)
    requires InRange(d)
    ensures AddDays(d, n).None? <==> Ordinal(d) + n < 1 || Ordinal(d) + n > MaxOrdinal
  {
    var t := if n >= 0 then Shift(d, n) else ShiftBack(d, -n);
    OrdinalShift(d, if n >= 0 then n else 0);
    OrdinalShiftBack(d, if n < 0 then -n else 0);
    InRangeOrdinal(t);
  }

  lemma WeekdayAddDays(d: Date, n: int)
    requires InRange(d) && AddDays(d, n).Some?
    ensures Weekday(AddDays(d, n).value) == (Weekday(d) + n) % 7
  {
    ModSeven(Ordinal(d) + 6, n);
  }
}
