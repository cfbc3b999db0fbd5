/**
  Calendar navigation of the activity-tracking tab (dashboard_local.py:213-307):
  the previous/next buttons in week and month view, the week strip, the
  month grid, and the session state (`current_date`, `view_mode`) they update.
 */
module Calendar {

  import opened Wrappers
  import opened Dates

  function MonthStart(d: Date): Date {
    Date(d.year, d.month, 1)
  }

  lemma {:induction false} ShiftYearGrows(x: Date, k: nat)
    requires ValidDate(x)
    ensures x.year <= Shift(x, k).year
    ensures k >= 1 ==> Before(x, Shift(x, k))
  {
    if k > 0 {
      ShiftYearGrows(x, k - 1);
    }
  }

  lemma {:induction false} ShiftBackYearShrinks(x: Date, k: nat)
    requires ValidDate(x)
    ensures ShiftBack(x, k).year <= x.year
  {
    if k > 0 {
      ShiftBackYearShrinks(x, k - 1);
    }
  }

  /** Within a month, stepping k days from the 1st gives day k + 1; past the
      month's end it gives the matching day of the next month. */
  lemma {:induction false} MonthWalk(y: int, m: int, k: nat)
    requires 1 <= m <= 12 && k < DaysInMonth(y, m) + 28
    ensures var n := DaysInMonth(y, m);
      var next := FirstOfNextMonth(y, m);
      (k < n ==> Shift(Date(y, m, 1), k) == Date(y, m, k + 1))
      && (n <= k ==> Shift(Date(y, m, 1), k) == Date(next.year, next.month, k - n + 1))
  {
    if k > 0 {
      MonthWalk(y, m, k - 1);
    }
  }

  // ---------------------------------------------------------------------------
  // month view buttons

  /** "Previous" in month view: the day before the 1st of the current month. */
  function PreviousMonthTarget(d: Date): (r: Option<Date>)
    requires InRange(d)
    ensures r.None? <==> d.year == MinYear && d.month == 1
    ensures r.Some? ==> r.value == LastOfPreviousMonth(d.year, d.month)
  {
    AddDays(MonthStart(d), -1)
  }

  /** "Next" in month view: the 28th plus four days, moved back to its 1st. */
  function NextMonthTarget(d: Date): (r: Option<Date>)
    requires InRange(d)
    ensures r.None? <==> d.year == MaxYear && d.month == 12
    ensures r.Some? ==> r.value == FirstOfNextMonth(d.year, d.month)
  {
    MonthWalk(d.year, d.month, 31);
    ShiftAdd(Date(d.year, d.month, 1), 27, 4);
    MonthWalk(d.year, d.month, 27);
    match AddDays(Date(d.year, d.month, 28), 4)
    case None => None
    case Some(x) => Some(Date(x.year, x.month, 1))
  }

  /** Going back a month and then forward again lands on the 1st of the month started from. */
  lemma NextAfterPrevious(d: Date)
    requires InRange(d) && PreviousMonthTarget(d).Some?
    ensures NextMonthTarget(PreviousMonthTarget(d).value) == Some(MonthStart(d))
  {
    var p := PreviousMonthTarget(d).value;
    assert p == LastOfPreviousMonth(d.year, d.month);
    assert p.year < MaxYear || p.month < 12;
    assert FirstOfNextMonth(p.year, p.month) == MonthStart(d);
  }

  /** Going forward a month and then back lands on the last day of the month started from. */
  lemma PreviousAfterNext(d: Date)
    requires InRange(d) && NextMonthTarget(d).Some?
    ensures PreviousMonthTarget(NextMonthTarget(d).value) == Some(Date(d.year, d.month, DaysInMonth(d.year, d.month)))
  {
    var n := NextMonthTarget(d).value;
    assert n == FirstOfNextMonth(d.year, d.month);
    assert n.year > MinYear || n.month > 1;
    assert LastOfPreviousMonth(n.year, n.month) == Date(d.year, d.month, DaysInMonth(d.year, d.month));
  }

  // ---------------------------------------------------------------------------
  // week view

  /** `date - timedelta(days=date.weekday())`: the Monday on or before `d`.
      It never leaves the representable range, because 0001-01-01 is a Monday. */
  function WeekStart(d: Date): (r: Date)
    requires InRange(d)
    ensures InRange(r) && Weekday(r) == 0
    ensures Shift(r, Weekday(d)) == d
  {
    var w := Weekday(d);
    var r := ShiftBack(d, w);
    OrdinalShiftBack(d, w);
    WeekdayShiftBack(d, w);
    assert Weekday(r) == (w - w) % 7 == 0;
    WeekdayBelowOrdinal(d);
    PositiveOrdinalYear(r);
    ShiftBackYearShrinks(d, Weekday(d));
    ShiftOfShiftBack(d, Weekday(d));
    r
  }

  /** A walk of at most 31 days from `x` reaches the next year only from
      December, and then lands in January at the day that is left over. */
  lemma {:induction false} YearCrossing(x: Date, k: nat)
    requires ValidDate(x) && k <= 31
    ensures Shift(x, k).year <= x.year + 1
    ensures Shift(x, k).year > x.year <==> x.month == 12 && x.day + k > 31
    ensures Shift(x, k).year > x.year ==> Shift(x, k) == Date(x.year + 1, 1, x.day + k - 31)
  {
    if k > 0 {
      YearCrossing(x, k - 1);
      var p := Shift(x, k - 1);
      ShiftYearGrows(x, k - 1);
      assert Shift(x, k) == NextDay(p);
      if p.year == x.year {
        YearEndWithin(x, k - 1);
        assert p.month == 12 && p.day == 31 <==> x.month == 12 && x.day + k - 1 == 31;
      } else {
        assert p == Date(x.year + 1, 1, x.day + k - 1 - 31);
      }
    }
  }

  /** A walk of at most 30 days inside one year ends on 31 December exactly
      when it starts in December and covers the rest of the month. */
  lemma YearEndWithin(x: Date, k: nat)
    requires ValidDate(x) && Shift(x, k).year == x.year && k <= 30
    ensures var p := Shift(x, k); p.month == 12 && p.day == 31 <==> x.month == 12 && x.day + k == 31
  {
    var p := Shift(x, k);
    OrdinalShift(x, k);
    SameYearOrdinal(x, p);
  }

  /** Two days of one year: their ordinal distance is the distance of their places in the year. */
  lemma SameYearOrdinal(x: Date, p: Date)
    requires ValidDate(x) && ValidDate(p) && x.year == p.year
    ensures Ordinal(p) - Ordinal(x) == DaysBeforeMonth(p.year, p.month) + p.day - DaysBeforeMonth(x.year, x.month) - x.day
    ensures x.month < 12 ==> DaysBeforeMonth(x.year, x.month) + x.day <= DaysBeforeMonth(x.year, 12)
    ensures p.month < 12 ==> DaysBeforeMonth(p.year, p.month) + p.day <= DaysBeforeMonth(p.year, 12)
  {
  }

  /** The seven days of the week view, Monday first; `None` when the week's
      Sunday (computed first, as `end_of_week`) would pass the last representable date. */
  function WeekView(d: Date): (r: Option<seq<Date>>)
    requires InRange(d)
    ensures r.None? <==> d.year == MaxYear && d.month == 12 && d.day >= 27
    ensures r.Some? ==> |r.value| == 7 && r.value[0] == WeekStart(d) && r.value[Weekday(d)] == d
    ensures r.Some? ==> forall i :: 0 <= i < 7 ==> InRange(r.value[i]) && Weekday(r.value[i]) == i
    ensures r.Some? ==> forall i :: 0 <= i < 7 ==> r.value[i] == Shift(WeekStart(d), i)
  {
    var start := WeekStart(d);
    WeekViewRange(d);
    match AddDays(start, 6)
    case None => None
    case Some(_) =>
      var days := seq(7, i requires 0 <= i < 7 => Shift(start, i));
      forall i | 0 <= i < 7 ensures InRange(days[i]) && Weekday(days[i]) == i {
        WeekDay(start, i);
      }
      Some(days)
  }

  /** Each day of a week that ends in range is in range and has its place as weekday. */
  lemma WeekDay(start: Date, i: nat)
    requires InRange(start) && Weekday(start) == 0 && InRange(Shift(start, 6)) && i < 7
    ensures InRange(Shift(start, i)) && Weekday(Shift(start, i)) == i
  {
    var x := Shift(start, i);
    ShiftAdd(start, i, 6 - i);
    assert Shift(start, 6) == Shift(x, 6 - i) by { assert i + (6 - i) == 6; }
    ShiftYearGrows(x, 6 - i);
    ShiftYearGrows(start, i);
    assert start.year <= x.year <= Shift(start, 6).year;
    WeekdayShift(start, i);
    assert Weekday(x) == (Weekday(start) + i) % 7;
    SmallMod(i);
  }

  lemma SmallMod(i: nat)
    requires i < 7
    ensures (0 + i) % 7 == i
  {
  }

  /** In December 9999 (ordinal 3652028 + day) the weekday is (day + 1) mod 7. */
  lemma December9999Weekday(d: Date)
    requires ValidDate(d) && d.year == MaxYear && d.month == 12
    ensures Weekday(d) == (d.day + 1) % 7
  {
    assert Ordinal(d) + 6 == 3652034 + d.day;
    ModSeven(3652034, d.day);
  }

  lemma LastWeekArith(day: int)
    requires 1 <= day <= 31
    ensures day + 6 - (day + 1) % 7 > 31 <==> day >= 27
  {
  }

  lemma WeekViewRange(d: Date)
    requires InRange(d)
    ensures InRange(Shift(WeekStart(d), 6)) <==> !(d.year == MaxYear && d.month == 12 && d.day >= 27)
  {
    var w := Weekday(d);
    var start := WeekStart(d);
    ShiftAdd(start, w, 6 - w);
    var e := Shift(d, 6 - w);
    assert Shift(start, 6) == e;
    YearCrossing(d, 6 - w);
    ShiftYearGrows(start, 6);
    if d.year == MaxYear && d.month == 12 {
      December9999Weekday(d);
      LastWeekArith(d.day);
    }
  }

  // ---------------------------------------------------------------------------
  // month grid

  /** The grid the month view draws: whole weeks from the Monday on or before
      the 1st, every day of the month at its place, and no week after the one
      holding the month's last day. */
  predicate IsMonthGrid(d: Date, cells: seq<Date>)
    requires InRange(d)
  {
    GridFrom(cells, WeekStart(MonthStart(d)), Weekday(MonthStart(d)), d.year, d.month)
  }

  /** Whole weeks of consecutive days from `start`, the 1st of month `m` of
      year `y` after `w` of them, each day of the month at its place, and no
      week after the one holding the month's last day. */
  predicate GridFrom(cells: seq<Date>, start: Date, w: int, y: int, m: int)
    requires 1 <= m <= 12 && ValidDate(start) && 0 <= w
  {
    |cells| % 7 == 0
    && w + DaysInMonth(y, m) <= |cells| < w + DaysInMonth(y, m) + 7
    && (forall i :: 0 <= i < |cells| ==> cells[i] == Shift(start, i))
    && (forall k :: 1 <= k <= DaysInMonth(y, m) ==> cells[w + k - 1] == Date(y, m, k))
  }

  /** Cell `j` of the month grid: a day before the 1st in the leading cells,
      the matching day of the month inside it, and a day of the next month in
      the trailing cells. */
  lemma GridCell(d: Date, j: nat)
    requires InRange(d)
    requires j < Weekday(MonthStart(d)) + DaysInMonth(d.year, d.month) + 7
    ensures var first := MonthStart(d); var w := Weekday(first);
      var n := DaysInMonth(d.year, d.month); var next := FirstOfNextMonth(d.year, d.month);
      var c := Shift(WeekStart(first), j);
      (j < w ==> Before(c, first))
      && (w <= j < w + n ==> c == Date(d.year, d.month, j - w + 1))
      && (w + n <= j ==> c == Date(next.year, next.month, j - w - n + 1))
      && (j > w ==> Before(first, c))
  {
    CellAt(WeekStart(MonthStart(d)), Weekday(MonthStart(d)), d.year, d.month, j);
  }

  /** `GridCell` for a run of days from `start` that reaches the 1st of month
      `m` of year `y` after `w` days. */
  lemma CellAt(start: Date, w: nat, y: int, m: int, j: nat)
    requires ValidDate(start) && ValidDate(Date(y, m, 1)) && Shift(start, w) == Date(y, m, 1)
    requires j < w + DaysInMonth(y, m) + 7
    ensures var first := Date(y, m, 1); var n := DaysInMonth(y, m);
      var next := FirstOfNextMonth(y, m); var c := Shift(start, j);
      (j < w ==> Before(c, first))
      && (w <= j < w + n ==> c == Date(y, m, j - w + 1))
      && (w + n <= j ==> c == Date(next.year, next.month, j - w - n + 1))
      && (j > w ==> Before(first, c))
  {
    var first := Date(y, m, 1);
    if j < w {
      LeadingCell(start, first, j, w);
    } else {
      ShiftAdd(start, w, j - w);
      MonthWalk(y, m, j - w);
      ShiftYearGrows(first, j - w);
    }
  }

  /** A cell before the 1st's place in the grid is a day before the 1st. */
  lemma LeadingCell(start: Date, first: Date, j: nat, w: nat)
    requires ValidDate(start) && j < w && Shift(start, w) == first
    ensures Before(Shift(start, j), first)
  {
    ShiftAdd(start, j, w - j);
    ShiftYearGrows(Shift(start, j), w - j);
  }

  /** A run of days from `start` (in range) that reaches the 1st of month `m`
      of year `y` (in range) after `w` days. */
  predicate Anchored(start: Date, w: int, y: int, m: int) {
    0 <= w && InRange(start) && InRange(Date(y, m, 1)) && Shift(start, w) == Date(y, m, 1)
  }

  /** After `j` cells (before the month's last day has been passed by a whole
      row) the loop stops exactly when the next day lies past the 1st and in
      another month, that is once the month's last day has been placed. */
  lemma RowEnd(start: Date, w: nat, y: int, m: int, j: nat)
    requires Anchored(start, w, y, m) && j < w + DaysInMonth(y, m) + 7
    ensures var c := Shift(start, j);
      (c.month != m && Before(Date(y, m, 1), c)) <==> j >= w + DaysInMonth(y, m)
  {
    CellAt(start, w, y, m, j);
  }

  /** The only cell that can be 9999-12-31 is the last day of December 9999. */
  lemma LastRepresentableCell(start: Date, w: nat, y: int, m: int, j: nat)
    requires Anchored(start, w, y, m) && j < w + DaysInMonth(y, m) + 7
    ensures Shift(start, j) == Date(MaxYear, 12, 31) <==>
      y == MaxYear && m == 12 && j == w + DaysInMonth(y, m) - 1
  {
    CellAt(start, w, y, m, j);
  }

  /** The first `k` days from `start`, in order. */
  function Days(start: Date, k: nat): (r: seq<Date>)
    requires ValidDate(start)
    ensures |r| == k
  {
    if k == 0 then [] else Days(start, k - 1) + [Shift(start, k - 1)]
  }

  lemma {:induction false} DaysAt(start: Date, k: nat)
    requires ValidDate(start)
    ensures forall j :: 0 <= j < k ==> Days(start, k)[j] == Shift(start, j)
  {
    if k > 0 {
      DaysAt(start, k - 1);
    }
  }

  lemma WholeRows(rows: nat)
    ensures (7 * rows) % 7 == 0
  {
  }

  /** Whole rows of consecutive days from `start`, passing the month's last
      day by less than a row, form its grid: every day of the month sits `w`
      cells after its place in the month. */
  lemma GridOfRows(cells: seq<Date>, start: Date, w: nat, y: int, m: int)
    requires Anchored(start, w, y, m) && |cells| % 7 == 0
    requires w + DaysInMonth(y, m) <= |cells| < w + DaysInMonth(y, m) + 7
    requires forall i :: 0 <= i < |cells| ==> cells[i] == Shift(start, i)
    ensures GridFrom(cells, start, w, y, m)
  {
    forall k | 1 <= k <= DaysInMonth(y, m) ensures cells[w + k - 1] == Date(y, m, k) {
      ShiftAdd(start, w, k - 1);
      MonthWalk(y, m, k - 1);
    }
  }

  /** One row of the month-view loop (`for i in range(7)`): seven cells
      appended, each followed by a step to the next day. `overflow` when the
      step after 9999-12-31 would leave the representable range, which
      happens only for December 9999. */
  method FillRow(cells0: seq<Date>, current0: Date, ghost start: Date, ghost w: nat, ghost y: int, ghost m: int)
    returns (cells: seq<Date>, current: Date, overflow: bool)
    requires Anchored(start, w, y, m) && |cells0| < w + DaysInMonth(y, m)
    requires cells0 == Days(start, |cells0|) && current0 == Shift(start, |cells0|)
    ensures overflow ==> y == MaxYear && m == 12
    ensures !overflow ==>
      (|cells| == |cells0| + 7 && cells == Days(start, |cells|) && current == Shift(start, |cells|)
       && (y == MaxYear && m == 12 ==> |cells| < w + DaysInMonth(y, m)))
  {
    cells, current := cells0, current0;
    for i := 0 to 7
      invariant |cells| == |cells0| + i
      invariant current == Shift(start, |cells|)
      invariant cells == Days(start, |cells|)
      invariant y == MaxYear && m == 12 ==> |cells| < w + DaysInMonth(y, m)
    {
      LastRepresentableCell(start, w, y, m, |cells|);
      cells := cells + [current];
      if current == Date(MaxYear, 12, 31) {
        return cells, current, true;
      }
      current := NextDay(current);
    }
    overflow := false;
  }

  /** The month-view loop (`while True`, seven cells per row, stopping once the
      day after a row is past the 1st and in another month).  `None` when
      stepping past the last cell would leave the representable range. */
  method MonthGrid(d: Date) returns (r: Option<seq<Date>>)
    requires InRange(d)
    ensures r.None? <==> d.year == MaxYear && d.month == 12
    ensures r.Some? ==> IsMonthGrid(d, r.value)
  {
    var first := MonthStart(d);
    var start := WeekStart(first);
    ghost var w: nat := Weekday(first);
    ghost var rows: nat := 0;
    var cells: seq<Date> := [];
    var current := start;
    while true
      invariant |cells| == 7 * rows && |cells| < w + DaysInMonth(d.year, d.month)
      invariant current == Shift(start, |cells|)
      invariant cells == Days(start, |cells|)
      decreases w + DaysInMonth(d.year, d.month) - |cells|
    {
      var overflow;
      cells, current, overflow := FillRow(cells, current, start, w, d.year, d.month);
      if overflow {
        return None;
      }
      rows := rows + 1;
      RowEnd(start, w, d.year, d.month, |cells|);
      if current.month != d.month && Before(first, current) {
        WholeRows(rows);
        DaysAt(start, |cells|);
        GridOfRows(cells, start, w, d.year, d.month);
        return Some(cells);
      }
    }
  }

  // ---------------------------------------------------------------------------
  // session state

  datatype ViewMode = Week | Month

  /** Where the "previous" button moves `current_date`: a week back, or to the
      end of the previous month; `None` when Python would raise OverflowError. */
  function PreviousTarget(mode: ViewMode, d: Date): Option<Date>
    requires InRange(d)
  {
    match mode
    case Week => AddDays(d, -7)
    case Month => PreviousMonthTarget(d)
  }

  /** Where the "next" button moves `current_date`. */
  function NextTarget(mode: ViewMode, d: Date): Option<Date>
    requires InRange(d)
  {
    match mode
    case Week => AddDays(d, 7)
    case Month => NextMonthTarget(d)
  }

  lemma WeekPeriod(w: int)
    requires 0 <= w < 7
    ensures (w + 7) % 7 == w && (w - 7) % 7 == w
  {
  }

  /** A week step keeps the weekday and stays exactly seven days away. */
  lemma WeekStepKeepsWeekday(d: Date)
    requires InRange(d)
    ensures NextTarget(Week, d).Some? ==> Weekday(NextTarget(Week, d).value) == Weekday(d)
    ensures PreviousTarget(Week, d).Some? ==> Weekday(PreviousTarget(Week, d).value) == Weekday(d)
  {
    WeekPeriod(Weekday(d));
    if AddDays(d, 7).Some? {
      WeekdayAddDays(d, 7);
    }
    if AddDays(d, -7).Some? {
      WeekdayAddDays(d, -7);
    }
  }

  /** "Next" in week view overflows exactly from 9999-12-25 on. */
  lemma NextWeekOverflow(d: Date)
    requires InRange(d)
    ensures NextTarget(Week, d).None? <==> d.year == MaxYear && d.month == 12 && d.day > 24
  {
    AddDaysRange(d, 7);
    OrdinalPositive(d);
    OrdinalBounds(d);
    if d.year < MaxYear {
      DaysBeforeYearMono(d.year + 1, MaxYear);
    } else {
      SameYearOrdinal(d, Date(MaxYear, 12, 31));
    }
  }

  /** "Previous" in week view overflows exactly up to 0001-01-07. */
  lemma PreviousWeekOverflow(d: Date)
    requires InRange(d)
    ensures PreviousTarget(Week, d).None? <==> d.year == MinYear && d.month == 1 && d.day <= 7
  {
    AddDaysRange(d, -7);
    OrdinalBounds(d);
    if d.year > MinYear {
      DaysBeforeYearMono(MinYear + 1, d.year);
    }
  }

  /** The dashboard's `st.session_state` for the calendar: the date in view and the view mode. */
  class Session {
    var current: Date
    var mode: ViewMode

    predicate Valid()
      reads this
    {
      InRange(current)
    }

    /** First visit: `current_date` defaults to today (passed in: the clock is not modelled), the radio to week view. */
    constructor (today: Date)
      requires InRange(today)
      ensures Valid() && current == today && mode == Week
    {
      current := today;
      mode := Week;
    }

    /** The view-mode radio button. */
    method SetMode(m: ViewMode)
      requires Valid()
      modifies this
      ensures Valid() && mode == m && current == old(current)
    {
      mode := m;
    }

    /** The "previous" button; on overflow the exception leaves the state as it was. */
    method Previous() returns (ok: bool)
      requires Valid()
      modifies this
      ensures Valid() && mode == old(mode)
      ensures ok == PreviousTarget(old(mode), old(current)).Some?
      ensures current == if ok then PreviousTarget(old(mode), old(current)).value else old(current)
    {
      var target := PreviousTarget(mode, current);
      ok := target.Some?;
      if ok {
        current := target.value;
      }
    }

    /** The "next" button. */
    method Next() returns (ok: bool)
      requires Valid()
      modifies this
      ensures Valid() && mode == old(mode)
      ensures ok == NextTarget(old(mode), old(current)).Some?
      ensures current == if ok then NextTarget(old(mode), old(current)).value else old(current)
    {
      var target := NextTarget(mode, current);
      ok := target.Some?;
      if ok {
        current := target.value;
      }
    }

    /** The "today" button. */
    method GoToday(today: Date)
      requires Valid() && InRange(today)
      modifies this
      ensures Valid() && current == today && mode == old(mode)
    {
      current := today;
    }

    /** `switch_to_week_view`: the "view" button under a month-grid cell. */
    method SwitchToWeekView(day: Date)
      requires Valid() && InRange(day)
      modifies this
      ensures Valid() && current == day && mode == Week
    {
      current := day;
      mode := Week;
    }
  }
}
