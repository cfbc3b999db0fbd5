/**
  Aging labels: the colour tier of a label (`get_aging_colors`,
  dashboard_local.py:91-110) and the breakdown the pie and bar charts draw
  (dashboard_local.py:324-327, 386-389, 412-417): how many records carry each
  label, ordered by the number the label contains, and the comparison
  group's average.
 */
module Aging {

  import opened Wrappers
  import opened Strings
  import opened Tables

  // ---------------------------------------------------------------------------
  // colour tier

  datatype AgingTier = Default | M2 | M3 | M4 | M5 | M6

  datatype Palette = Palette(border: string, background: string)

  /** The label each exactly-matched tier is keyed by. */
  function TierLabel(t: AgingTier): string {
    match t
    case Default => ""
    case M2 => "M2"
    case M3 => "M3"
    case M4 => "M4"
    case M5 => "M5"
    case M6 => "M6"
  }

  /** The tier of a label: grey for anything that is not text; after trimming
      and upper-casing, purple for any label containing `M6`, the fixed tier
      for exactly `M2`..`M5`, and grey otherwise. */
  function TierOf(status: Cell): (r: AgingTier)
    ensures status.Null? ==> r == Default
    ensures r == M6 <==> status.Text? && Contains(Upper(Strip(status.text)), "M6")
    ensures r != Default && r != M6 ==> Upper(Strip(status.text)) == TierLabel(r)
  {
    match status
    case Null => Default
    case Text(s) =>
      var n := Upper(Strip(s));
      if Contains(n, "M6") then M6
      else if n == "M2" then M2
      else if n == "M3" then M3
      else if n == "M4" then M4
      else if n == "M5" then M5
      else Default
  }

  function Colors(t: AgingTier): Palette {
    match t
    case Default => Palette("#6B7280", "rgba(107, 114, 128, 0.1)")
    case M2 => Palette("#FBBF24", "rgba(251, 191, 36, 0.15)")
    case M3 => Palette("#F97316", "rgba(249, 115, 22, 0.15)")
    case M4 => Palette("#EF4444", "rgba(239, 68, 68, 0.15)")
    case M5 => Palette("#BE123C", "rgba(190, 18, 60, 0.15)")
    case M6 => Palette("#86198F", "rgba(134, 25, 143, 0.15)")
  }

  /** `get_aging_colors`. */
  function AgingColors(status: Cell): Palette {
    Colors(TierOf(status))
  }

  /** Every tier has a border colour of its own. */
  lemma BordersDistinct(a: AgingTier, b: AgingTier)
    requires a != b
    ensures Colors(a).border != Colors(b).border
  {
  }

  /** Classifying a label the loader has already normalised gives the same tier. */
  lemma TierOfNormalized(s: string)
    ensures TierOf(Text(Upper(Strip(s)))) == TierOf(Text(s))
  {
    NormalizeIdempotent(s);
  }

  /** A label with `M6` (in either case) anywhere in it, even one that would
      otherwise read as another tier, is purple. */
  lemma M6Anywhere(u: string, t: string, v: string)
    requires Upper(t) == "M6"
    ensures TierOf(Text(u + t + v)) == M6
  {
    M6Inside(u, t, v);
  }

  /** `M6` in either case stays in the label after trimming and upper-casing. */
  lemma M6Inside(u: string, t: string, v: string)
    requires Upper(t) == "M6"
    ensures Contains(Upper(Strip(u + t + v)), "M6")
  {
    var s := u + t + v;
    var i := |s| - |TrimLeft(s)|;
    var r := Strip(s);
    var n := Upper(r);
    M6Chars(t);
    assert s[|u|] == t[0] && s[|u| + 1] == t[1];
    StripKeeps(s, |u|);
    StripKeeps(s, |u| + 1);
    var k := |u| - i;
    assert n[k] == 'M' && n[k + 1] == '6';
    MatchAtPair(n, 'M', '6', k);
    ContainsAt(n, "M6", k);
  }

  /** A label that upper-cases to `M6` is `m` or `M` followed by `6`. */
  lemma M6Chars(t: string)
    requires Upper(t) == "M6"
    ensures |t| == 2 && UpperChar(t[0]) == 'M' && UpperChar(t[1]) == '6'
    ensures !IsSpace(t[0]) && !IsSpace(t[1])
  {
    assert Upper(t)[0] == 'M' && Upper(t)[1] == '6';
    UpperCharSpace(t[0]);
    UpperCharSpace(t[1]);
  }

  /** `M2`..`M5`, in either case and with surrounding whitespace, get their own tier. */
  lemma ExactTier(u: string, t: string, v: string, tier: AgingTier)
    requires AllSpace(u) && AllSpace(v)
    requires tier in {M2, M3, M4, M5} && Upper(t) == TierLabel(tier)
    ensures TierOf(Text(u + t + v)) == tier
  {
    PaddedLabel(u, t, v, tier);
    TierOfLabel(u + t + v, tier);
  }

  lemma PaddedLabel(u: string, t: string, v: string, tier: AgingTier)
    requires AllSpace(u) && AllSpace(v)
    requires tier in {M2, M3, M4, M5} && Upper(t) == TierLabel(tier)
    ensures Upper(Strip(u + t + v)) == TierLabel(tier)
  {
    TierLabelShape(tier);
    var l := TierLabel(tier);
    assert |t| == 2;
    assert UpperChar(t[0]) == l[0] && UpperChar(t[1]) == l[1];
    assert !IsSpace(t[0]) && !IsSpace(t[1]);
    StripPadded(u, t, v);
  }

  lemma TierOfLabel(s: string, tier: AgingTier)
    requires tier in {M2, M3, M4, M5} && Upper(Strip(s)) == TierLabel(tier)
    ensures TierOf(Text(s)) == tier
  {
    TierLabelShape(tier);
  }

  /** The exact labels are two characters, `M` and a digit, and do not contain `M6`. */
  lemma TierLabelShape(tier: AgingTier)
    requires tier in {M2, M3, M4, M5}
    ensures |TierLabel(tier)| == 2 && TierLabel(tier)[0] == 'M' && IsDigit(TierLabel(tier)[1])
    ensures !Contains(TierLabel(tier), "M6")
  {
  }

  // ---------------------------------------------------------------------------
  // sort key

  /** The first position holding a digit at or after `i`. */
  function FirstDigit(s: string, i: nat): (r: Option<nat>)
    requires i <= |s|
    ensures r.Some? ==> i <= r.value < |s| && IsDigit(s[r.value])
    ensures r.Some? ==> forall k :: i <= k < r.value ==> !IsDigit(s[k])
    ensures r.None? ==> forall k :: i <= k < |s| ==> !IsDigit(s[k])
    decreases |s| - i
  {
    if i == |s| then None
    else if IsDigit(s[i]) then Some(i)
    else FirstDigit(s, i + 1)
  }

  /** The end of the digit run starting at `i`. */
  function RunEnd(s: string, i: nat): (j: nat)
    requires i <= |s|
    ensures i <= j <= |s| && (j == |s| || !IsDigit(s[j]))
    ensures forall k :: i <= k < j ==> IsDigit(s[k])
    decreases |s| - i
  {
    if i < |s| && IsDigit(s[i]) then RunEnd(s, i + 1) else i
  }

  function DigitOf(c: char): (n: nat)
    requires IsDigit(c)
    ensures n <= 9
  {
    c as int - '0' as int
  }

  /** `int(d)` for a string of ASCII digits. */
  function DigitsValue(d: string): (n: nat)
    requires forall k :: 0 <= k < |d| ==> IsDigit(d[k])
  {
    if d == [] then 0 else 10 * DigitsValue(d[..|d| - 1]) + DigitOf(d[|d| - 1])
  }

  /** `str.extract('(\d+)').fillna(0).astype(int)`: the number written by the
      label's first run of digits, or 0 when it has none. */
  function SortKey(aging: string): nat {
    match FirstDigit(aging, 0)
    case None => 0
    case Some(i) => DigitsValue(aging[i..RunEnd(aging, i)])
  }

  /** The key is the first digit run, whatever precedes it (without digits) and follows it. */
  lemma SortKeyOfRun(p: string, d: string, q: string)
    requires forall k :: 0 <= k < |p| ==> !IsDigit(p[k])
    requires d != [] && forall k :: 0 <= k < |d| ==> IsDigit(d[k])
    requires q == [] || !IsDigit(q[0])
    ensures SortKey(p + d + q) == DigitsValue(d)
  {
    var s := p + d + q;
    assert forall k :: 0 <= k < |p| ==> s[k] == p[k];
    assert s[|p|] == d[0];
    var i := FirstDigit(s, 0).value;
    assert i == |p|;
    var j := RunEnd(s, i);
    assert forall k :: |p| <= k < |p| + |d| ==> s[k] == d[k - |p|];
    assert q != [] ==> s[|p| + |d|] == q[0];
    assert j == |p| + |d|;
    assert s[i..j] == d;
  }

  /** A label without digits sorts as 0. */
  lemma SortKeyNoDigits(s: string)
    requires forall k :: 0 <= k < |s| ==> !IsDigit(s[k])
    ensures SortKey(s) == 0
  {
  }

  // ---------------------------------------------------------------------------
  // breakdown

  /** One row of `value_counts().reset_index()`: a label and how many records carry it. */
  datatype Entry = Entry(aging: string, count: nat)

  /** How many records the rows attribute to `a`. */
  function Count(t: seq<Entry>, a: string): nat {
    if t == [] then 0 else (if t[0].aging == a then t[0].count else 0) + Count(t[1..], a)
  }

  /** The sum of the `Count` column. */
  function Total(t: seq<Entry>): nat {
    if t == [] then 0 else t[0].count + Total(t[1..])
  }

  function Labels(t: seq<Entry>): set<string> {
    if t == [] then {} else {t[0].aging} + Labels(t[1..])
  }

  /** No label is on two rows. */
  predicate Distinct(t: seq<Entry>) {
    t == [] || (t[0].aging !in Labels(t[1..]) && Distinct(t[1..]))
  }

  predicate Positive(t: seq<Entry>) {
    forall i :: 0 <= i < |t| ==> t[i].count > 0
  }

  /** A label is present exactly when some row carries it. */
  lemma {:induction false} LabelsAt(t: seq<Entry>, a: string)
    ensures a in Labels(t) <==> exists i :: 0 <= i < |t| && t[i].aging == a
  {
    if t != [] {
      LabelsAt(t[1..], a);
      if a in Labels(t[1..]) {
        var i :| 0 <= i < |t[1..]| && t[1..][i].aging == a;
        assert t[i + 1].aging == a;
      }
      if exists i :: 0 <= i < |t| && t[i].aging == a {
        var i :| 0 <= i < |t| && t[i].aging == a;
        if i > 0 { assert t[1..][i - 1].aging == a; }
      }
    }
  }

  /** `Distinct` means pairwise different labels. */
  lemma {:induction false} DistinctPairwise(t: seq<Entry>, i: nat, j: nat)
    requires Distinct(t) && i < j < |t|
    ensures t[i].aging != t[j].aging
  {
    if i == 0 {
      LabelsAt(t[1..], t[j].aging);
      assert t[1..][j - 1] == t[j];
    } else {
      DistinctPairwise(t[1..], i - 1, j - 1);
    }
  }

  /** Counts one more record labelled `a`: its row if it has one, else a new last row. */
  function Bump(t: seq<Entry>, a: string): seq<Entry> {
    if t == [] then [Entry(a, 1)]
    else if t[0].aging == a then [Entry(a, t[0].count + 1)] + t[1..]
    else [t[0]] + Bump(t[1..], a)
  }

  lemma {:induction false} BumpCounts(t: seq<Entry>, a: string)
    ensures forall b :: Count(Bump(t, a), b) == Count(t, b) + (if b == a then 1 else 0)
    ensures Total(Bump(t, a)) == Total(t) + 1
    ensures Labels(Bump(t, a)) == Labels(t) + {a}
  {
    if t != [] && t[0].aging != a {
      BumpCounts(t[1..], a);
      assert ([t[0]] + Bump(t[1..], a))[1..] == Bump(t[1..], a);
    } else if t != [] {
      assert ([Entry(a, t[0].count + 1)] + t[1..])[1..] == t[1..];
    }
  }

  lemma {:induction false} BumpShape(t: seq<Entry>, a: string)
    ensures Distinct(t) ==> Distinct(Bump(t, a))
    ensures Positive(t) ==> Positive(Bump(t, a))
  {
    var r := Bump(t, a);
    if t != [] && t[0].aging != a {
      BumpShape(t[1..], a);
      BumpCounts(t[1..], a);
      assert r[1..] == Bump(t[1..], a);
    } else if t != [] {
      assert r[1..] == t[1..];
    }
  }

  /** `value_counts()`: one row per distinct label. */
  function Tally(labels: seq<string>): seq<Entry> {
    if labels == [] then [] else Bump(Tally(labels[..|labels| - 1]), labels[|labels| - 1])
  }

  /** Each label's count is its number of records; no label twice; no empty row. */
  lemma TallyCounts(labels: seq<string>)
    ensures var r := Tally(labels);
      (forall a :: Count(r, a) == multiset(labels)[a])
      && Total(r) == |labels|
      && (forall a :: a in Labels(r) <==> a in labels)
      && Distinct(r) && Positive(r)
  {
    TallyCountsOnly(labels);
    TallyLabels(labels);
    TallyShape(labels);
  }

  lemma {:induction false} TallyCountsOnly(labels: seq<string>)
    ensures forall a :: Count(Tally(labels), a) == multiset(labels)[a]
    ensures Total(Tally(labels)) == |labels|
  {
    if labels != [] {
      var front := labels[..|labels| - 1];
      var last := labels[|labels| - 1];
      assert labels == front + [last];
      assert multiset(labels) == multiset(front) + multiset{last};
      TallyCountsOnly(front);
      BumpCounts(Tally(front), last);
    }
  }

  lemma {:induction false} TallyLabels(labels: seq<string>)
    ensures forall a :: a in Labels(Tally(labels)) <==> a in labels
  {
    if labels != [] {
      var front := labels[..|labels| - 1];
      var last := labels[|labels| - 1];
      assert labels == front + [last];
      TallyLabels(front);
      BumpCounts(Tally(front), last);
      forall a ensures a in labels <==> a in front || a == last {
        assert a in labels <==> a in multiset(labels);
      }
    }
  }

  lemma {:induction false} TallyShape(labels: seq<string>)
    ensures Distinct(Tally(labels)) && Positive(Tally(labels))
  {
    if labels != [] {
      TallyShape(labels[..|labels| - 1]);
      BumpShape(Tally(labels[..|labels| - 1]), labels[|labels| - 1]);
    }
  }

  /** With distinct labels, a row's count is all the records of its label. */
  lemma {:induction false} CountOfRow(t: seq<Entry>, i: nat)
    requires Distinct(t) && i < |t|
    ensures Count(t, t[i].aging) == t[i].count
  {
    if i == 0 {
      CountAbsent(t[1..], t[0].aging);
    } else {
      CountOfRow(t[1..], i - 1);
      DistinctPairwise(t, 0, i);
    }
  }

  lemma {:induction false} CountAbsent(t: seq<Entry>, a: string)
    requires a !in Labels(t)
    ensures Count(t, a) == 0
  {
    if t != [] {
      CountAbsent(t[1..], a);
    }
  }

  /** Sorted ascending by `key` of the label. */
  predicate SortedBy(t: seq<Entry>, key: string -> nat) {
    forall i, j :: 0 <= i < j < |t| ==> key(t[i].aging) <= key(t[j].aging)
  }

  /** Puts `e` after every leading row whose key is not larger. */
  function Insert(t: seq<Entry>, e: Entry, key: string -> nat): seq<Entry> {
    if t == [] || key(e.aging) < key(t[0].aging) then [e] + t
    else [t[0]] + Insert(t[1..], e, key)
  }

  lemma InsertCounts(t: seq<Entry>, e: Entry, key: string -> nat)
    ensures multiset(Insert(t, e, key)) == multiset(t) + multiset{e}
    ensures forall b :: Count(Insert(t, e, key), b) == Count(t, b) + (if b == e.aging then e.count else 0)
    ensures Total(Insert(t, e, key)) == Total(t) + e.count
    ensures Labels(Insert(t, e, key)) == Labels(t) + {e.aging}
  {
    InsertPermutes(t, e, key);
    InsertTotals(t, e, key);
    InsertLabels(t, e, key);
  }

  lemma {:induction false} InsertPermutes(t: seq<Entry>, e: Entry, key: string -> nat)
    ensures multiset(Insert(t, e, key)) == multiset(t) + multiset{e}
  {
    if t != [] && key(e.aging) >= key(t[0].aging) {
      InsertPermutes(t[1..], e, key);
      assert Insert(t, e, key) == [t[0]] + Insert(t[1..], e, key);
      assert t == [t[0]] + t[1..];
    }
  }

  lemma {:induction false} InsertTotals(t: seq<Entry>, e: Entry, key: string -> nat)
    ensures forall b :: Count(Insert(t, e, key), b) == Count(t, b) + (if b == e.aging then e.count else 0)
    ensures Total(Insert(t, e, key)) == Total(t) + e.count
  {
    var r := Insert(t, e, key);
    if t == [] || key(e.aging) < key(t[0].aging) {
      assert r[1..] == t;
    } else {
      InsertTotals(t[1..], e, key);
      assert r[1..] == Insert(t[1..], e, key);
    }
  }

  lemma {:induction false} InsertLabels(t: seq<Entry>, e: Entry, key: string -> nat)
    ensures Labels(Insert(t, e, key)) == Labels(t) + {e.aging}
  {
    var r := Insert(t, e, key);
    if t == [] || key(e.aging) < key(t[0].aging) {
      assert r[1..] == t;
    } else {
      InsertLabels(t[1..], e, key);
      assert r[1..] == Insert(t[1..], e, key);
    }
  }

  lemma {:induction false} InsertSorted(t: seq<Entry>, e: Entry, key: string -> nat)
    requires SortedBy(t, key)
    ensures SortedBy(Insert(t, e, key), key)
  {
    if t != [] && key(e.aging) >= key(t[0].aging) {
      var rest := Insert(t[1..], e, key);
      InsertSorted(t[1..], e, key);
      InsertKeysFrom(t[1..], e, key, key(t[0].aging));
      assert Insert(t, e, key) == [t[0]] + rest;
    }
  }

  /** Every key in `t` is at least `b`. */
  predicate KeysFrom(t: seq<Entry>, b: nat, key: string -> nat) {
    forall i :: 0 <= i < |t| ==> b <= key(t[i].aging)
  }

  /** Inserting a row whose key is at least `b` keeps every key at least `b`. */
  lemma {:induction false} InsertKeysFrom(t: seq<Entry>, e: Entry, key: string -> nat, b: nat)
    requires KeysFrom(t, b, key) && b <= key(e.aging)
    ensures KeysFrom(Insert(t, e, key), b, key)
  {
    if t != [] && key(e.aging) >= key(t[0].aging) {
      assert KeysFrom(t[1..], b, key) by {
        forall i | 0 <= i < |t[1..]| ensures b <= key(t[1..][i].aging) {
          assert t[1..][i] == t[i + 1];
        }
      }
      InsertKeysFrom(t[1..], e, key, b);
      assert Insert(t, e, key) == [t[0]] + Insert(t[1..], e, key);
    }
  }

  lemma {:induction false} InsertShape(t: seq<Entry>, e: Entry, key: string -> nat)
    ensures Distinct(t) && e.aging !in Labels(t) ==> Distinct(Insert(t, e, key))
    ensures Positive(t) && e.count > 0 ==> Positive(Insert(t, e, key))
  {
    var r := Insert(t, e, key);
    if t == [] || key(e.aging) < key(t[0].aging) {
      assert r[1..] == t;
    } else {
      InsertShape(t[1..], e, key);
      InsertCounts(t[1..], e, key);
      assert r[1..] == Insert(t[1..], e, key);
    }
  }

  /** Insertion sort, ascending by `key` of the label. */
  function SortBy(t: seq<Entry>, key: string -> nat): seq<Entry> {
    if t == [] then [] else Insert(SortBy(t[..|t| - 1], key), t[|t| - 1], key)
  }

  /** Sorting reorders the rows and changes no count. */
  lemma {:induction false} SortByCounts(t: seq<Entry>, key: string -> nat)
    ensures var r := SortBy(t, key);
      multiset(r) == multiset(t) && SortedBy(r, key)
      && (forall b :: Count(r, b) == Count(t, b))
      && Total(r) == Total(t) && Labels(r) == Labels(t)
      && (Distinct(t) ==> Distinct(r)) && (Positive(t) ==> Positive(r))
  {
    if t != [] {
      var front := t[..|t| - 1];
      var last := t[|t| - 1];
      assert t == front + [last];
      SortByCounts(front, key);
      InsertCounts(SortBy(front, key), last, key);
      InsertShape(SortBy(front, key), last, key);
      InsertSorted(SortBy(front, key), last, key);
      SnocCounts(front, last);
    }
  }

  /** Counting over `t + [e]` is counting over `t`, then `e`. */
  lemma {:induction false} SnocCounts(t: seq<Entry>, e: Entry)
    ensures Total(t + [e]) == Total(t) + e.count
    ensures forall b :: Count(t + [e], b) == Count(t, b) + (if b == e.aging then e.count else 0)
    ensures Labels(t + [e]) == Labels(t) + {e.aging}
    ensures Distinct(t + [e]) ==> Distinct(t) && e.aging !in Labels(t)
    ensures Positive(t + [e]) ==> Positive(t) && e.count > 0
  {
    if t != [] {
      SnocCounts(t[1..], e);
      assert (t + [e])[1..] == t[1..] + [e];
    }
  }

  /** The breakdown of the personal and primary charts. */
  function Breakdown(labels: seq<string>): seq<Entry> {
    SortBy(Tally(labels), SortKey)
  }

  /** One row per label present, each with the number of its records,
      counts summing to the number of records, ascending by sort key. */
  lemma BreakdownCounts(labels: seq<string>)
    ensures var r := Breakdown(labels);
      SortedBy(r, SortKey) && Distinct(r) && Positive(r)
      && Total(r) == |labels|
      && (forall a :: a in Labels(r) <==> a in labels)
      && forall i :: 0 <= i < |r| ==> r[i].count == multiset(labels)[r[i].aging]
  {
    TallyCounts(labels);
    SortByCounts(Tally(labels), SortKey);
    var r := Breakdown(labels);
    forall i | 0 <= i < |r| ensures r[i].count == multiset(labels)[r[i].aging] {
      CountOfRow(r, i);
    }
  }

  /** One row of the comparison chart: a label and its average per collector. */
  datatype Share = Share(aging: string, average: real)

  /** `Count / len(comparison_collectors)`, computed only for a non-empty group. */
  function Averages(t: seq<Entry>, groupSize: nat): (r: Option<seq<Share>>)
    ensures r.None? <==> groupSize == 0
    ensures r.Some? ==> |r.value| == |t|
    ensures r.Some? ==> forall i :: 0 <= i < |t| ==>
      r.value[i].aging == t[i].aging && r.value[i].average * groupSize as real == t[i].count as real
  {
    if groupSize == 0 then None
    else Some(seq(|t|, i requires 0 <= i < |t| => Share(t[i].aging, t[i].count as real / groupSize as real)))
  }

  /** The comparison chart over the comparison group's records. */
  function AverageBreakdown(labels: seq<string>, groupSize: nat): Option<seq<Share>> {
    Averages(Breakdown(labels), groupSize)
  }

  function ShareTotal(r: seq<Share>): real {
    if r == [] then 0.0 else r[0].average + ShareTotal(r[1..])
  }

  /** Over a non-empty group the averages add up to the records per collector. */
  lemma AveragesSum(labels: seq<string>, groupSize: nat)
    requires groupSize > 0
    ensures ShareTotal(AverageBreakdown(labels, groupSize).value) * groupSize as real == |labels| as real
  {
    BreakdownTotal(labels);
    ShareTotalScaled(Breakdown(labels), groupSize);
  }

  lemma BreakdownTotal(labels: seq<string>)
    ensures Total(Breakdown(labels)) == |labels|
  {
    TallyCounts(labels);
    SortByCounts(Tally(labels), SortKey);
  }

  lemma {:induction false} ShareTotalScaled(t: seq<Entry>, groupSize: nat)
    requires groupSize > 0
    ensures ShareTotal(Averages(t, groupSize).value) * groupSize as real == Total(t) as real
  {
    var r := Averages(t, groupSize).value;
    if t != [] {
      ShareTotalScaled(t[1..], groupSize);
      assert Averages(t[1..], groupSize).value == r[1..];
      assert r[0].average * groupSize as real == t[0].count as real;
      assert ShareTotal(r) * groupSize as real
        == r[0].average * groupSize as real + ShareTotal(r[1..]) * groupSize as real;
    }
  }
}
