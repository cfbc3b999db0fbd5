// The dashboard's views over the loaded visit records: the sidebar filters,
// the records of one day, the month heat map, the date window of the two
// chart tabs and the three aging charts built on it.

module Metrics {
  import opened Wrappers
  import opened Dates
  import opened Tables
  import opened Loader
  import opened Aging

  // ---------------------------------------------------------------------------
  // boolean-mask filtering

  /** `df[mask]`: the rows satisfying `p`, in their original order. */
  function Filter<T(!new)>(xs: seq<T>, p: T -> bool): (r: seq<T>)
    ensures |r| <= |xs|
    ensures forall x :: x in r <==> x in xs && p(x)
  {
    if xs == [] then []
    else
      var front := xs[..|xs| - 1];
      var last := xs[|xs| - 1];
      assert xs == front + [last];
      Filter(front, p) + (if p(last) then [last] else [])
  }

  /** Each kept row is kept as often as it occurs; each other row is gone. */
  lemma {:induction false} FilterMultiset<T(!new)>(xs: seq<T>, p: T -> bool, x: T)
    ensures multiset(Filter(xs, p))[x] == if p(x) then multiset(xs)[x] else 0
  {
    if xs != [] {
      var front := xs[..|xs| - 1];
      assert xs == front + [xs[|xs| - 1]];
      FilterMultiset(front, p, x);
    }
  }

  /** FilterMultiset for every row at once. */
  lemma FilterCounts<T(!new)>(xs: seq<T>, p: T -> bool)
    ensures forall x :: multiset(Filter(xs, p))[x] == if p(x) then multiset(xs)[x] else 0
  {
    forall x ensures multiset(Filter(xs, p))[x] == if p(x) then multiset(xs)[x] else 0 {
      FilterMultiset(xs, p, x);
    }
  }

  /** Filtering a concatenation filters each part: kept rows keep their order. */
  lemma {:induction false} FilterAppend<T(!new)>(a: seq<T>, b: seq<T>, p: T -> bool)
    ensures Filter(a + b, p) == Filter(a, p) + Filter(b, p)
  {
    if b != [] {
      var front := b[..|b| - 1];
      assert a + b == (a + front) + [b[|b| - 1]];
      assert (a + b)[..|a + b| - 1] == a + front;
      FilterAppend(a, front, p);
    } else {
      assert a + b == a;
    }
  }

  /** A non-empty sequence is its front followed by its last element. */
  lemma FrontLast<T>(xs: seq<T>)
    requires xs != []
    ensures xs[..|xs| - 1] + [xs[|xs| - 1]] == xs
  {
  }

  /** A mask that holds everywhere keeps the frame as it is. */
  lemma {:induction false} FilterAll<T(!new)>(xs: seq<T>, p: T -> bool)
    requires forall i :: 0 <= i < |xs| ==> p(xs[i])
    ensures Filter(xs, p) == xs
  {
    if xs != [] {
      var front := xs[..|xs| - 1];
      var last := xs[|xs| - 1];
      assert forall i :: 0 <= i < |front| ==> p(front[i]) by {
        forall i | 0 <= i < |front| ensures p(front[i]) {
          assert front[i] == xs[i];
        }
      }
      FilterAll(front, p);
      assert p(last);
      assert Filter(xs, p) == Filter(front, p) + [last];
      FrontLast(xs);
    }
  }

  /** Two masks applied one after the other keep the rows satisfying both. */
  lemma {:induction false} FilterTwice<T(!new)>(xs: seq<T>, p: T -> bool, q: T -> bool, both: T -> bool)
    requires forall x :: both(x) == (p(x) && q(x))
    ensures Filter(Filter(xs, p), q) == Filter(xs, both)
  {
    if xs != [] {
      var front := xs[..|xs| - 1];
      var last := xs[|xs| - 1];
      FilterTwice(front, p, q, both);
      FilterAppend(Filter(front, p), if p(last) then [last] else [], q);
      if p(last) {
        assert ([last] + [])[..0] == [];
        assert Filter([last], q) == Filter([], q) + (if q(last) then [last] else []);
      }
    }
  }

  // ---------------------------------------------------------------------------
  // sidebar selection (lines 201-206)

  /** The "all teams" entry of the team selector. */
  const AllGroups: string := "所有團隊"
  /** The "all collectors" entry of the collector selector. */
  const AllCollectors: string := "所有催收員"

  /** `series == name`: a missing value equals nothing. */
  predicate CellIs(c: Cell, name: string) {
    c == Text(name)
  }

  predicate InView(v: Visit, group: string, collector: string) {
    (group == AllGroups || CellIs(v.group, group))
    && (collector == AllCollectors || CellIs(v.collectorName, collector))
  }

  /** `base_filtered_data`: the team filter, then the collector filter. */
  function BaseView(visits: seq<Visit>, group: string, collector: string): (r: seq<Visit>)
    ensures forall v :: v in r <==> v in visits && InView(v, group, collector)
  {
    var byGroup := if group != AllGroups then Filter(visits, (v: Visit) => CellIs(v.group, group)) else visits;
    if collector != AllCollectors then Filter(byGroup, (v: Visit) => CellIs(v.collectorName, collector)) else byGroup
  }

  /** With both selectors on "all" every record is on view. */
  lemma BaseViewAll(visits: seq<Visit>)
    ensures BaseView(visits, AllGroups, AllCollectors) == visits
  {
  }

  /** The two filters amount to one mask, so the view keeps the records' order. */
  lemma BaseViewIsOneMask(visits: seq<Visit>, group: string, collector: string)
    ensures BaseView(visits, group, collector) == Filter(visits, (v: Visit) => InView(v, group, collector))
  {
    var g := (v: Visit) => CellIs(v.group, group);
    var c := (v: Visit) => CellIs(v.collectorName, collector);
    var both := (v: Visit) => InView(v, group, collector);
    if group != AllGroups && collector != AllCollectors {
      BothMasks(visits, group, collector);
    } else if group != AllGroups {
      FilterSameMask(visits, g, both);
    } else if collector != AllCollectors {
      FilterSameMask(visits, c, both);
    } else {
      FilterAll(visits, both);
    }
  }

  lemma BothMasks(visits: seq<Visit>, group: string, collector: string)
    requires group != AllGroups && collector != AllCollectors
    ensures BaseView(visits, group, collector) == Filter(visits, (v: Visit) => InView(v, group, collector))
  {
    var g := (v: Visit) => CellIs(v.group, group);
    var c := (v: Visit) => CellIs(v.collectorName, collector);
    assert BaseView(visits, group, collector) == Filter(Filter(visits, g), c);
    FilterTwice(visits, g, c, (v: Visit) => InView(v, group, collector));
  }

  /** Masks that agree on every row select the same rows. */
  lemma {:induction false} FilterSameMask<T(!new)>(xs: seq<T>, p: T -> bool, q: T -> bool)
    requires forall x :: p(x) == q(x)
    ensures Filter(xs, p) == Filter(xs, q)
  {
    if xs != [] {
      FilterSameMask(xs[..|xs| - 1], p, q);
    }
  }

  // ---------------------------------------------------------------------------
  // week view (lines 257-266)

  /** `base_filtered_data[Date == day]`, whose length the day's tile shows. */
  function DayRecords(visits: seq<Visit>, day: Date): (r: seq<Visit>)
    ensures forall v :: v in r <==> v in visits && v.date == day
    ensures forall v :: multiset(r)[v] == if v.date == day then multiset(visits)[v] else 0
  {
    var onDay := (v: Visit) => v.date == day;
    FilterCounts(visits, onDay);
    Filter(visits, onDay)
  }

  /** Sorted by `key`, largest first. */
  predicate SortedDown<T(!new)>(xs: seq<T>, key: T -> nat) {
    forall i, j :: 0 <= i < j < |xs| ==> key(xs[j]) <= key(xs[i])
  }

  /** Puts `x` after every leading element whose key is not smaller. */
  function InsertDown<T(!new)>(xs: seq<T>, x: T, key: T -> nat): seq<T> {
    if xs == [] || key(x) > key(xs[0]) then [x] + xs
    else [xs[0]] + InsertDown(xs[1..], x, key)
  }

  lemma {:induction false} InsertDownPermutes<T(!new)>(xs: seq<T>, x: T, key: T -> nat)
    ensures multiset(InsertDown(xs, x, key)) == multiset(xs) + multiset{x}
  {
    if xs != [] && key(x) <= key(xs[0]) {
      var rest := InsertDown(xs[1..], x, key);
      InsertDownPermutes(xs[1..], x, key);
      assert InsertDown(xs, x, key) == [xs[0]] + rest;
      assert multiset([xs[0]] + rest) == multiset{xs[0]} + multiset(rest);
      assert xs == [xs[0]] + xs[1..];
      assert multiset(xs) == multiset{xs[0]} + multiset(xs[1..]);
    }
  }

  lemma {:induction false} InsertDownSorted<T(!new)>(xs: seq<T>, x: T, key: T -> nat)
    requires SortedDown(xs, key)
    ensures SortedDown(InsertDown(xs, x, key), key)
  {
    if xs != [] && key(x) <= key(xs[0]) {
      var rest := InsertDown(xs[1..], x, key);
      InsertDownSorted(xs[1..], x, key);
      InsertDownKeysTo(xs[1..], x, key, key(xs[0]));
      assert InsertDown(xs, x, key) == [xs[0]] + rest;
    }
  }

  /** Every key in `xs` is at most `b`. */
  predicate KeysTo<T(!new)>(xs: seq<T>, b: nat, key: T -> nat) {
    forall i :: 0 <= i < |xs| ==> key(xs[i]) <= b
  }

  /** Inserting an element whose key is at most `b` keeps every key at most `b`. */
  lemma {:induction false} InsertDownKeysTo<T(!new)>(xs: seq<T>, x: T, key: T -> nat, b: nat)
    requires KeysTo(xs, b, key) && key(x) <= b
    ensures KeysTo(InsertDown(xs, x, key), b, key)
  {
    if xs != [] && key(x) <= key(xs[0]) {
      assert KeysTo(xs[1..], b, key) by {
        forall i | 0 <= i < |xs[1..]| ensures key(xs[1..][i]) <= b {
          assert xs[1..][i] == xs[i + 1];
        }
      }
      InsertDownKeysTo(xs[1..], x, key, b);
      assert InsertDown(xs, x, key) == [xs[0]] + InsertDown(xs[1..], x, key);
    }
  }

  /** Insertion sort, largest key first. */
  function SortDown<T(!new)>(xs: seq<T>, key: T -> nat): seq<T> {
    if xs == [] then [] else InsertDown(SortDown(xs[..|xs| - 1], key), xs[|xs| - 1], key)
  }

  lemma {:induction false} SortDownSpec<T(!new)>(xs: seq<T>, key: T -> nat)
    ensures multiset(SortDown(xs, key)) == multiset(xs)
    ensures SortedDown(SortDown(xs, key), key)
  {
    if xs != [] {
      var front := xs[..|xs| - 1];
      assert xs == front + [xs[|xs| - 1]];
      SortDownSpec(front, key);
      InsertDownPermutes(SortDown(front, key), xs[|xs| - 1], key);
      InsertDownSorted(SortDown(front, key), xs[|xs| - 1], key);
    }
  }

  /** The sort key of a record's aging label. */
  function AgingKey(v: Visit): nat {
    SortKey(v.aging)
  }

  /** The cards of one day, highest aging digits first. */
  function DayCards(visits: seq<Visit>, day: Date): seq<Visit> {
    SortDown(DayRecords(visits, day), AgingKey)
  }

  /** The cards are exactly that day's records, each once, ordered by falling key. */
  lemma DayCardsSpec(visits: seq<Visit>, day: Date)
    ensures multiset(DayCards(visits, day)) == multiset(DayRecords(visits, day))
    ensures SortedDown(DayCards(visits, day), AgingKey)
    ensures forall v :: v in DayCards(visits, day) <==> v in visits && v.date == day
  {
    SortDownSpec(DayRecords(visits, day), AgingKey);
    var r := DayCards(visits, day);
    forall v ensures v in r <==> v in DayRecords(visits, day) {
      assert v in r <==> v in multiset(r);
    }
  }

  // ---------------------------------------------------------------------------
  // month heat map (lines 272-275, 139-145)

  /** Records whose `Create Time` falls in the shown month. */
  function MonthRecords(visits: seq<Visit>, year: int, month: int): (r: seq<Visit>)
    ensures forall v :: v in r <==> v in visits && v.createTime.date.year == year && v.createTime.date.month == month
    ensures forall v :: multiset(r)[v] == (if v.createTime.date.year == year && v.createTime.date.month == month
                                           then multiset(visits)[v] else 0)
  {
    var inMonth := (v: Visit) => v.createTime.date.year == year && v.createTime.date.month == month;
    FilterCounts(visits, inMonth);
    Filter(visits, inMonth)
  }

  /** `groupby('Date').size().get(day, 0)`. */
  function CountOn(records: seq<Visit>, day: Date): (n: nat)
    ensures n <= |records|
    ensures n == 0 <==> forall i :: 0 <= i < |records| ==> records[i].date != day
  {
    if records == [] then 0
    else
      var rest := CountOn(records[1..], day);
      assert forall i :: 1 <= i < |records| ==> records[1..][i - 1] == records[i];
      (if records[0].date == day then 1 else 0) + rest
  }

  /** The heat map's count of a day is the length of the week tile's rows for it. */
  lemma {:induction false} CountOnDayRecords(records: seq<Visit>, day: Date)
    ensures CountOn(records, day) == |DayRecords(records, day)|
  {
    if records != [] {
      CountOnDayRecords(records[1..], day);
      DayRecordsCons(records, day);
    }
  }

  /** The day's rows of a frame are its first row's, if on the day, then the rest's. */
  lemma DayRecordsCons(records: seq<Visit>, day: Date)
    requires records != []
    ensures |DayRecords(records, day)| == (if records[0].date == day then 1 else 0) + |DayRecords(records[1..], day)|
  {
    var onDay := (v: Visit) => v.date == day;
    assert records == [records[0]] + records[1..];
    FilterAppend([records[0]], records[1..], onDay);
    assert Filter([records[0]], onDay) == Filter([], onDay) + (if onDay(records[0]) then [records[0]] else []);
  }

  /** The largest of the counts on the dates of `keys`. */
  function MaxOver(records: seq<Visit>, keys: seq<Visit>): (m: nat)
    requires keys != []
    ensures forall i :: 0 <= i < |keys| ==> CountOn(records, keys[i].date) <= m
    ensures exists i :: 0 <= i < |keys| && CountOn(records, keys[i].date) == m
  {
    var here := CountOn(records, keys[0].date);
    if |keys| == 1 then here
    else
      var rest := MaxOver(records, keys[1..]);
      assert forall i :: 1 <= i < |keys| ==> keys[1..][i - 1] == keys[i];
      var i :| 0 <= i < |keys[1..]| && CountOn(records, keys[1..][i].date) == rest;
      assert CountOn(records, keys[i + 1].date) == rest;
      if here < rest then rest else here
  }

  /** `daily_counts.max() if not daily_counts.empty else 1`. */
  function MaxDaily(records: seq<Visit>): (m: nat)
    ensures records == [] ==> m == 1
    ensures forall d :: CountOn(records, d) <= m
    ensures records != [] ==> exists i :: 0 <= i < |records| && CountOn(records, records[i].date) == m
    ensures m >= 1
  {
    if records == [] then 1
    else
      var m := MaxOver(records, records);
      assert CountOn(records, records[0].date) >= 1;
      ZeroOffDates(records, m);
      m
  }

  lemma ZeroOffDates(records: seq<Visit>, m: nat)
    requires forall i :: 0 <= i < |records| ==> CountOn(records, records[i].date) <= m
    ensures forall d :: CountOn(records, d) <= m
  {
    forall d ensures CountOn(records, d) <= m {
      if exists i :: 0 <= i < |records| && records[i].date == d {
        var i :| 0 <= i < |records| && records[i].date == d;
      }
    }
  }

  /** A colour of the heat map: a fixed hex code or an HSL triple. */
  datatype HeatColor = Hex(code: string) | Hsl(hue: nat, saturation: nat, lightness: real)

  const EmptyDay: HeatColor := Hex("#F3F4F6")

  /** `get_heatmap_color`, with the lightness as an exact real. */
  function HeatmapColor(count: nat, maxCount: nat): (c: HeatColor)
    ensures c == EmptyDay <==> count == 0
    ensures c.Hsl? ==> c.hue == 220 && c.saturation == 80
  {
    if count == 0 then EmptyDay
    else
      var denominator := if maxCount == 0 then 1 else maxCount;
      var normalized := (count as real / denominator as real) * 0.9 + 0.1;
      Hsl(220, 80, 95.0 - normalized * 55.0)
  }

  /** A day with at least one record and at most the maximum gets a lightness in [40, 95). */
  lemma HeatBounds(count: nat, maxCount: nat)
    requires 0 < count <= maxCount
    ensures 40.0 <= HeatmapColor(count, maxCount).lightness < 95.0
  {
    var q := count as real / maxCount as real;
    assert q * maxCount as real == count as real;
    assert 0.0 < q <= 1.0;
  }

  /** More records on a day never give a lighter tile. */
  lemma HeatMonotone(a: nat, b: nat, maxCount: nat)
    requires 0 < a <= b
    ensures HeatmapColor(b, maxCount).lightness <= HeatmapColor(a, maxCount).lightness
  {
    var d := if maxCount == 0 then 1 else maxCount;
    var qa := a as real / d as real;
    var qb := b as real / d as real;
    assert qa * d as real == a as real;
    assert qb * d as real == b as real;
    assert qa <= qb;
  }

  /** A day tile of the month grid: its count and colour. */
  function DayTile(visits: seq<Visit>, year: int, month: int, day: Date): (nat, HeatColor) {
    var records := MonthRecords(visits, year, month);
    var n := CountOn(records, day);
    (n, HeatmapColor(n, MaxDaily(records)))
  }

  /** A tile is blank exactly when no record of the month is on that day;
      otherwise its count is within the month's maximum and its lightness in [40, 95). */
  lemma DayTileSpec(visits: seq<Visit>, year: int, month: int, day: Date)
    ensures var (n, c) := DayTile(visits, year, month, day);
      (c == EmptyDay <==> forall v ::
        (v in visits && v.createTime.date.year == year && v.createTime.date.month == month) ==> v.date != day)
      && (n > 0 ==> c.Hsl? && 40.0 <= c.lightness < 95.0)
  {
    var records := MonthRecords(visits, year, month);
    var n := CountOn(records, day);
    if n > 0 {
      HeatBounds(n, MaxDaily(records));
    }
    if n == 0 {
      forall v | v in visits && v.createTime.date.year == year && v.createTime.date.month == month
        ensures v.date != day
      {
        assert v in records;
        var i :| 0 <= i < |records| && records[i] == v;
      }
    }
  }

  // ---------------------------------------------------------------------------
  // date window and aging charts (lines 312-327, 366-417)

  predicate InWindow(v: Visit, start: Date, end: Date) {
    NotAfter(start, v.date) && NotAfter(v.date, end)
  }

  /** The inclusive window; refused when it starts after it ends. */
  function DateWindow(visits: seq<Visit>, start: Date, end: Date): (r: Option<seq<Visit>>)
    ensures r.None? <==> Before(end, start)
    ensures r.Some? ==> forall v :: v in r.value <==> v in visits && InWindow(v, start, end)
  {
    if Before(end, start) then None else Some(Filter(visits, (v: Visit) => InWindow(v, start, end)))
  }

  /** The window keeps every in-window record as often as it occurs, in order. */
  lemma WindowExact(visits: seq<Visit>, start: Date, end: Date, v: Visit)
    requires !Before(end, start)
    ensures multiset(DateWindow(visits, start, end).value)[v]
      == if InWindow(v, start, end) then multiset(visits)[v] else 0
  {
    FilterMultiset(visits, (v: Visit) => InWindow(v, start, end), v);
  }

  /** The `Aging` column of a frame. */
  function AgingColumn(visits: seq<Visit>): (r: seq<string>)
    ensures |r| == |visits|
    ensures forall i :: 0 <= i < |visits| ==> r[i] == visits[i].aging
  {
    seq(|visits|, i requires 0 <= i < |visits| => visits[i].aging)
  }

  /** What a chart panel shows. */
  datatype Panel =
    | RangeError            // the start date is after the end date
    | NoRecords             // nothing to chart
    | NoSelection           // no collector is selected
    | Counts(rows: seq<Entry>)
    | Averaged(shares: seq<Share>)

  /** The personal tab: the breakdown of the window of the current view. */
  function PersonalPanel(view: seq<Visit>, start: Date, end: Date): (p: Panel)
    ensures p == RangeError <==> Before(end, start)
    ensures p == NoRecords <==> (!Before(end, start) && forall v :: v in view ==> !InWindow(v, start, end))
    ensures p.Counts? ==> p.rows == Breakdown(AgingColumn(DateWindow(view, start, end).value))
    ensures p.RangeError? || p.NoRecords? || p.Counts?
  {
    match DateWindow(view, start, end)
    case None => RangeError
    case Some(data) =>
      if data == [] then NoRecords
      else
        assert data[0] in data;
        Counts(Breakdown(AgingColumn(data)))
  }

  /** The target collector's panel of the comparison tab. */
  function PrimaryPanel(window: seq<Visit>, primary: Option<string>): (p: Panel)
    ensures p == NoSelection <==> primary.None? || primary.value == ""
    ensures p == NoRecords <==>
      (primary.Some? && primary.value != "" && forall v :: v in window ==> !CellIs(v.collectorName, primary.value))
    ensures p.Counts? ==> p.rows == Breakdown(AgingColumn(NamedRecords(window, primary.value)))
    ensures p.NoSelection? || p.NoRecords? || p.Counts?
  {
    if primary.None? || primary.value == "" then NoSelection
    else
      var data := NamedRecords(window, primary.value);
      if data == [] then NoRecords
      else
        assert data[0] in data;
        Counts(Breakdown(AgingColumn(data)))
  }

  predicate NamedIn(v: Visit, names: seq<string>) {
    exists k :: 0 <= k < |names| && CellIs(v.collectorName, names[k])
  }

  /** `comp_data[Collector Name.isin(names)]`. */
  function GroupRecords(window: seq<Visit>, names: seq<string>): (r: seq<Visit>)
    ensures forall v :: v in r <==> v in window && NamedIn(v, names)
    ensures forall v :: multiset(r)[v] == if NamedIn(v, names) then multiset(window)[v] else 0
  {
    var named := (v: Visit) => NamedIn(v, names);
    FilterCounts(window, named);
    Filter(window, named)
  }

  /** `comp_data[Collector Name == primary]`. */
  function NamedRecords(window: seq<Visit>, name: string): (r: seq<Visit>)
    ensures forall v :: v in r <==> v in window && CellIs(v.collectorName, name)
    ensures forall v :: multiset(r)[v] == if CellIs(v.collectorName, name) then multiset(window)[v] else 0
  {
    var named := (v: Visit) => CellIs(v.collectorName, name);
    FilterCounts(window, named);
    Filter(window, named)
  }

  /** The comparison group's panel: per-label counts divided by the number of
      names chosen. */
  function ComparisonPanel(window: seq<Visit>, names: seq<string>): (p: Panel)
    ensures p == NoSelection <==> names == []
    ensures p == NoRecords <==> (names != [] && forall v :: v in window ==> !NamedIn(v, names))
    ensures p.Averaged? ==> Some(p.shares) == Averages(Breakdown(AgingColumn(GroupRecords(window, names))), |names|)
    ensures p.NoSelection? || p.NoRecords? || p.Averaged?
  {
    if names == [] then NoSelection
    else
      var data := GroupRecords(window, names);
      if data == [] then NoRecords
      else
        assert data[0] in data;
        Averaged(Averages(Breakdown(AgingColumn(data)), |names|).value)
  }

  /** A personal chart has one bar per label in the window, each counting its
      records, the bars summing to the records in the window. */
  lemma PersonalCounts(view: seq<Visit>, start: Date, end: Date)
    requires PersonalPanel(view, start, end).Counts?
    ensures var data := DateWindow(view, start, end).value;
      var rows := PersonalPanel(view, start, end).rows;
      Total(rows) == |data| && SortedBy(rows, SortKey) && Distinct(rows)
      && (forall a :: a in Labels(rows) <==> exists v :: v in data && v.aging == a)
      && forall i :: 0 <= i < |rows| ==> rows[i].count == multiset(AgingColumn(data))[rows[i].aging]
  {
    var data := DateWindow(view, start, end).value;
    var labels := AgingColumn(data);
    BreakdownCounts(labels);
    forall a ensures a in labels <==> exists v :: v in data && v.aging == a {
      if a in labels {
        var i :| 0 <= i < |labels| && labels[i] == a;
        assert data[i] in data;
      }
    }
  }
}
