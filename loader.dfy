/**
  `load_data_from_gdrive` (dashboard_local.py:30-89) with the two
  `pd.read_excel` results passed in as tables: the roster is trimmed and
  indexed by ID, and every visit row goes through the same steps, in order —
  project, drop rows missing a critical field, derive the collector ID, keep
  roster IDs only, drop cancelled repossessions, drop unparseable times, then
  derive the date, look up name and group, and normalise the aging label.
 */
module Loader {

  import opened Wrappers
  import opened Strings
  import opened Links
  import opened Dates
  import opened Timestamps
  import opened Tables

  const IdHeader := "ID"
  const NameHeader := "Agent Name"
  const LegacyNameHeader := "Collector"
  const GroupHeader := "Group"
  const CancelledUnit := "CancelRepossession"

  /** The six visit columns the loader requires, in the order it projects them. */
  const RequiredColumns := ["Collector", "Create Time", "Neg Pos Unit", "Aging", "Contact Summary", "Customer Name"]

  /** Why the loader returns `(None, None)`. */
  datatype LoadError =
    | UnresolvedLink        // a share link of neither known shape
    | MissingRosterId       // `groups_df['ID']` raises KeyError
    | MissingAgentName      // `set_index('ID')['Agent Name']` raises KeyError
    | MissingVisitColumns   // a required visit column is absent
    | MissingGroup          // `set_index('ID')['Group']` raises KeyError

  // ---------------------------------------------------------------------------
  // roster

  /** Lines 45-49: headers and ID cells trimmed, and the legacy `Collector`
      header renamed to `Agent Name` when `Agent Name` is absent. */
  function PrepareRoster(t: Table): (r: Result<Table, LoadError>)
    ensures r.Err? <==> IdHeader !in StripHeaders(t.columns)
    ensures r.Err? ==> r.error == MissingRosterId
    ensures r.Ok? ==> |r.value.rows| == |t.rows|
    ensures r.Ok? ==> var cols := StripHeaders(t.columns);
      r.value.columns == (if LegacyNameHeader in cols && NameHeader !in cols
                          then RenameColumn(cols, LegacyNameHeader, NameHeader) else cols)
    ensures r.Ok? ==> var idCol := ColumnIndex(StripHeaders(t.columns), IdHeader).value;
      forall i :: 0 <= i < |t.rows| ==> CellAt(r.value.rows[i], idCol) == Text(Strip(Stringify(CellAt(t.rows[i], idCol))))
    ensures r.Ok? ==> var idCol := ColumnIndex(StripHeaders(t.columns), IdHeader).value;
      forall i, k :: 0 <= i < |t.rows| && k != idCol ==> CellAt(r.value.rows[i], k) == CellAt(t.rows[i], k)
  {
    var cols := StripHeaders(t.columns);
    match ColumnIndex(cols, IdHeader)
    case None => Err(MissingRosterId)
    case Some(idCol) =>
      var rows := MapColumn(t.rows, idCol, (c: Cell) => Text(Strip(Stringify(c))));
      var renamed := if LegacyNameHeader in cols && NameHeader !in cols
                     then RenameColumn(cols, LegacyNameHeader, NameHeader) else cols;
      Ok(Table(renamed, rows))
  }

  /** The prepared roster's ID of a row: the key of both lookups. */
  function RowId(t: Table, row: seq<Cell>): string
    requires IdHeader in t.columns
  {
    Stringify(CellAt(row, ColumnIndex(t.columns, IdHeader).value))
  }

  /** `groups_df['ID'].unique()`. */
  function RosterIds(t: Table): (ids: set<string>)
    requires IdHeader in t.columns
    ensures forall i :: 0 <= i < |t.rows| ==> RowId(t, t.rows[i]) in ids
    ensures forall id :: id in ids ==> exists i :: 0 <= i < |t.rows| && RowId(t, t.rows[i]) == id
  {
    set i | 0 <= i < |t.rows| :: RowId(t, t.rows[i])
  }

  /** `set_index(key)[value].to_dict()` over the first `n` rows: when an ID
      repeats, the later row wins. */
  function LastWins(rows: seq<seq<Cell>>, key: nat, value: nat, n: nat): (m: map<string, Cell>)
    requires n <= |rows|
    ensures forall id :: id in m <==> exists i :: 0 <= i < n && Stringify(CellAt(rows[i], key)) == id
  {
    if n == 0 then map[]
    else LastWins(rows, key, value, n - 1)[Stringify(CellAt(rows[n - 1], key)) := CellAt(rows[n - 1], value)]
  }

  /** The lookup holds, for every ID, the value of the last row carrying it. */
  lemma {:induction false} LastWinsIsLast(rows: seq<seq<Cell>>, key: nat, value: nat, n: nat, i: nat)
    requires i < n <= |rows|
    requires forall j :: i < j < n ==> Stringify(CellAt(rows[j], key)) != Stringify(CellAt(rows[i], key))
    ensures LastWins(rows, key, value, n)[Stringify(CellAt(rows[i], key))] == CellAt(rows[i], value)
  {
    if i < n - 1 {
      LastWinsIsLast(rows, key, value, n - 1, i);
    }
  }

  /** ID to display name, ID to group, and the ID set, of a prepared roster. */
  datatype Roster = Roster(ids: set<string>, names: map<string, Cell>, groups: map<string, Cell>)

  function Lookups(t: Table): (r: Result<Roster, LoadError>)
    requires IdHeader in t.columns && NameHeader in t.columns
    ensures r.Err? <==> GroupHeader !in t.columns
    ensures r.Err? ==> r.error == MissingGroup
    ensures r.Ok? ==> r.value.ids == RosterIds(t) && r.value.names.Keys == r.value.ids && r.value.groups.Keys == r.value.ids
    ensures r.Ok? ==> var idCol := ColumnIndex(t.columns, IdHeader).value;
      r.value.names == LastWins(t.rows, idCol, ColumnIndex(t.columns, NameHeader).value, |t.rows|)
      && r.value.groups == LastWins(t.rows, idCol, ColumnIndex(t.columns, GroupHeader).value, |t.rows|)
  {
    var idCol := ColumnIndex(t.columns, IdHeader).value;
    var nameCol := ColumnIndex(t.columns, NameHeader).value;
    match ColumnIndex(t.columns, GroupHeader)
    case None => Err(MissingGroup)
    case Some(groupCol) =>
      var names := LastWins(t.rows, idCol, nameCol, |t.rows|);
      var groups := LastWins(t.rows, idCol, groupCol, |t.rows|);
      assert names.Keys == RosterIds(t);
      assert groups.Keys == RosterIds(t);
      Ok(Roster(RosterIds(t), names, groups))
  }

  /** An ID's name and group come from the last roster row carrying it. */
  lemma LookupsFromLastRow(t: Table, i: nat)
    requires IdHeader in t.columns && NameHeader in t.columns && GroupHeader in t.columns
    requires i < |t.rows| && forall j :: i < j < |t.rows| ==> RowId(t, t.rows[j]) != RowId(t, t.rows[i])
    ensures Lookups(t).Ok?
    ensures var id := RowId(t, t.rows[i]);
      id in Lookups(t).value.ids
      && Lookups(t).value.names[id] == CellAt(t.rows[i], ColumnIndex(t.columns, NameHeader).value)
      && Lookups(t).value.groups[id] == CellAt(t.rows[i], ColumnIndex(t.columns, GroupHeader).value)
  {
    var idCol := ColumnIndex(t.columns, IdHeader).value;
    LastWinsIsLast(t.rows, idCol, ColumnIndex(t.columns, NameHeader).value, |t.rows|, i);
    LastWinsIsLast(t.rows, idCol, ColumnIndex(t.columns, GroupHeader).value, |t.rows|, i);
  }

  // ---------------------------------------------------------------------------
  // visit rows

  /** A visit-log row projected onto the six required columns (line 61). */
  datatype RawVisit = RawVisit(collector: Cell, createTime: Cell, unit: Cell, aging: Cell, summary: Cell, customer: Cell)

  /** A normalised visit record: the six columns plus the four derived ones. */
  datatype Visit = Visit(
    collector: string, createTime: DateTime, unit: string, aging: string, summary: Cell, customer: Cell,
    collectorId: string, date: Date, collectorName: Cell, group: Cell)

  function Project(columns: seq<string>, row: seq<Cell>): RawVisit
    requires forall c :: c in RequiredColumns ==> c in columns
  {
    RawVisit(
      CellAt(row, ColumnIndex(columns, "Collector").value),
      CellAt(row, ColumnIndex(columns, "Create Time").value),
      CellAt(row, ColumnIndex(columns, "Neg Pos Unit").value),
      CellAt(row, ColumnIndex(columns, "Aging").value),
      CellAt(row, ColumnIndex(columns, "Contact Summary").value),
      CellAt(row, ColumnIndex(columns, "Customer Name").value))
  }

  /** `Series.map(dict)`: NaN for an ID the dictionary lacks. */
  function Lookup(m: map<string, Cell>, id: string): Cell {
    if id in m then m[id] else Null
  }

  /** `str.split('-').str[0].str.strip()` of the trimmed collector text. */
  function CollectorId(collector: string): (id: string)
    ensures '-' !in id && Strip(id) == id
  {
    var head := BeforeFirst(collector, "-");
    NoDashInPrefix(head);
    StripIdempotent(head);
    Strip(head)
  }

  /** The ID is the trimmed text before the first `-`. */
  lemma DashedId(id: string, rest: string)
    requires '-' !in id
    ensures CollectorId(id + "-" + rest) == Strip(id)
  {
    var c := id + "-" + rest;
    assert c[..|id|] == id;
    FirstChar(c, '-', |id|);
  }

  /** Without a `-` the ID is the whole trimmed text. */
  lemma UndashedId(c: string)
    requires '-' !in c
    ensures CollectorId(c) == Strip(c)
  {
    NoChar(c, '-');
  }

  lemma NoDashInPrefix(s: string)
    requires !Contains(s, "-")
    ensures '-' !in Strip(s)
  {
    if k :| 0 <= k < |s| && s[k] == '-' {
      assert s[k..k + 1] == "-";
      ContainsAt(s, "-", k);
    }
  }

  /** `dropna(subset=['Create Time', 'Collector', 'Aging'])`. */
  predicate MissingCritical(v: RawVisit) {
    v.createTime.Null? || v.collector.Null? || v.aging.Null?
  }

  /** `astype(str).str.strip() == 'CancelRepossession'`. */
  predicate CancelledUnitCell(unit: Cell) {
    Strip(Stringify(unit)) == CancelledUnit
  }

  /** Lines 63-83 for one row: `None` when the row is dropped, otherwise its record. */
  function NormalizeRow(roster: Roster, v: RawVisit): Option<Visit> {
    if MissingCritical(v) then None
    else
      var collector := Strip(Stringify(v.collector));
      var id := CollectorId(collector);
      if id !in roster.ids then None
      else
        var unit := Stringify(v.unit);
        if CancelledUnitCell(v.unit) then None
        else
          match ParseCreateTime(Stringify(v.createTime))
          case None => None
          case Some(t) =>
            Some(Visit(collector, t, unit, Upper(Strip(Stringify(v.aging))), v.summary, v.customer,
                       id, t.date, Lookup(roster.names, id), Lookup(roster.groups, id)))
  }

  /** A row survives exactly when it has its three critical cells, its
      collector ID is on the roster, its unit is not a cancelled
      repossession, and its create time parses. */
  lemma RowKept(roster: Roster, v: RawVisit)
    ensures NormalizeRow(roster, v).Some? <==>
      !MissingCritical(v)
      && CollectorId(Strip(Stringify(v.collector))) in roster.ids
      && !CancelledUnitCell(v.unit)
      && ParseCreateTime(Stringify(v.createTime)).Some?
  {
  }

  /** The record of a surviving row: the trimmed collector, the ID derived
      from it, the unit as text, the parsed time and its date, the
      normalised aging label, the carried cells and the roster lookups. */
  lemma RowRecord(roster: Roster, v: RawVisit)
    requires NormalizeRow(roster, v).Some?
    ensures var rec := NormalizeRow(roster, v).value;
      rec.collector == Strip(v.collector.text)
      && rec.collectorId == CollectorId(rec.collector) && rec.collectorId in roster.ids
      && rec.unit == Stringify(v.unit) && Strip(rec.unit) != CancelledUnit
      && Some(rec.createTime) == ParseCreateTime(v.createTime.text) && rec.date == rec.createTime.date
      && rec.aging == Upper(Strip(v.aging.text))
      && rec.summary == v.summary && rec.customer == v.customer
      && rec.collectorName == Lookup(roster.names, rec.collectorId)
      && rec.group == Lookup(roster.groups, rec.collectorId)
  {
  }

  /** The values of the `Some` entries, in order. */
  function Somes<T>(xs: seq<Option<T>>): (ys: seq<T>)
    ensures |ys| <= |xs|
  {
    if xs == [] then []
    else if xs[|xs| - 1].Some? then Somes(xs[..|xs| - 1]) + [xs[|xs| - 1].value]
    else Somes(xs[..|xs| - 1])
  }

  /** The positions of the `Some` entries, in order. */
  function Positions<T>(xs: seq<Option<T>>): (idx: seq<nat>)
    ensures forall k :: 0 <= k < |idx| ==> idx[k] < |xs|
    ensures forall k, l :: 0 <= k < l < |idx| ==> idx[k] < idx[l]
  {
    if xs == [] then []
    else if xs[|xs| - 1].Some? then Positions(xs[..|xs| - 1]) + [|xs| - 1]
    else Positions(xs[..|xs| - 1])
  }

  /** Keeping the `Some`s only removes entries: the k-th value kept sits at
      the k-th kept position, and every `Some` entry is kept. */
  lemma {:induction false} SomesAtPositions<T>(xs: seq<Option<T>>)
    ensures var ys := Somes(xs); var idx := Positions(xs);
      |ys| == |idx|
      && (forall k :: 0 <= k < |idx| ==> xs[idx[k]] == Some(ys[k]))
      && (forall i :: 0 <= i < |xs| && xs[i].Some? ==> i in idx)
  {
    if xs != [] {
      var front := xs[..|xs| - 1];
      var last := xs[|xs| - 1];
      SomesAtPositions(front);
      assert forall i :: 0 <= i < |front| ==> front[i] == xs[i];
      var ys, idx := Somes(xs), Positions(xs);
      if last.Some? {
        assert ys == Somes(front) + [last.value] && idx == Positions(front) + [|xs| - 1];
        assert forall k :: 0 <= k < |idx| - 1 ==> idx[k] == Positions(front)[k] && ys[k] == Somes(front)[k];
      } else {
        assert ys == Somes(front) && idx == Positions(front);
      }
    }
  }

  /** One more entry adds its value, if it has one. */
  lemma SomesStep<T>(xs: seq<Option<T>>, i: nat)
    requires i < |xs|
    ensures Somes(xs[..i + 1]) == Somes(xs[..i]) + (if xs[i].Some? then [xs[i].value] else [])
  {
    assert xs[..i + 1][..i] == xs[..i];
  }

  /** The per-row outcomes of the pipeline. */
  function Outcomes(roster: Roster, rows: seq<RawVisit>): (r: seq<Option<Visit>>)
    ensures |r| == |rows| && forall i :: 0 <= i < |rows| ==> r[i] == NormalizeRow(roster, rows[i])
  {
    seq(|rows|, i requires 0 <= i < |rows| => NormalizeRow(roster, rows[i]))
  }

  /** The surviving records of `rows`, in input order. */
  function NormalizeAll(roster: Roster, rows: seq<RawVisit>): seq<Visit> {
    Somes(Outcomes(roster, rows))
  }

  /** The positions of the surviving rows. */
  function Survivors(roster: Roster, rows: seq<RawVisit>): seq<nat> {
    Positions(Outcomes(roster, rows))
  }

  /** The pipeline only removes rows: the k-th record is the record of the
      k-th surviving row, survivors keep their (strictly increasing) order,
      and every row the steps keep is a survivor. */
  lemma OrderPreserved(roster: Roster, rows: seq<RawVisit>)
    ensures var out := NormalizeAll(roster, rows); var idx := Survivors(roster, rows);
      |out| == |idx|
      && (forall k, l :: 0 <= k < l < |idx| ==> idx[k] < idx[l] < |rows|)
      && (forall k :: 0 <= k < |idx| ==> NormalizeRow(roster, rows[idx[k]]) == Some(out[k]))
      && (forall i :: 0 <= i < |rows| && NormalizeRow(roster, rows[i]).Some? ==> i in idx)
  {
    SomesAtPositions(Outcomes(roster, rows));
  }

  /** Every record of the normalised table comes from one input row. */
  lemma RecordOrigin(roster: Roster, rows: seq<RawVisit>, rec: Visit)
    requires rec in NormalizeAll(roster, rows)
    ensures exists i :: 0 <= i < |rows| && NormalizeRow(roster, rows[i]) == Some(rec)
  {
    var out := NormalizeAll(roster, rows);
    var idx := Survivors(roster, rows);
    OrderPreserved(roster, rows);
    var k :| 0 <= k < |out| && out[k] == rec;
    assert NormalizeRow(roster, rows[idx[k]]) == Some(rec);
  }

  /** What every record of the normalised table satisfies. */
  lemma RecordInvariants(roster: Roster, rows: seq<RawVisit>)
    requires roster.names.Keys == roster.ids && roster.groups.Keys == roster.ids
    ensures forall rec :: rec in NormalizeAll(roster, rows) ==>
      rec.collectorId in roster.ids
      && '-' !in rec.collectorId
      && rec.collectorName == roster.names[rec.collectorId]
      && rec.group == roster.groups[rec.collectorId]
      && Strip(rec.unit) != CancelledUnit
      && Representable(rec.createTime) && rec.date == rec.createTime.date
      && Upper(Strip(rec.aging)) == rec.aging
  {
    forall rec | rec in NormalizeAll(roster, rows)
      ensures rec.collectorId in roster.ids
      && '-' !in rec.collectorId
      && rec.collectorName == roster.names[rec.collectorId]
      && rec.group == roster.groups[rec.collectorId]
      && Strip(rec.unit) != CancelledUnit
      && Representable(rec.createTime) && rec.date == rec.createTime.date
      && Upper(Strip(rec.aging)) == rec.aging
    {
      RecordOrigin(roster, rows, rec);
      var i :| 0 <= i < |rows| && NormalizeRow(roster, rows[i]) == Some(rec);
      RowRecord(roster, rows[i]);
      NormalizeIdempotent(rows[i].aging.text);
    }
  }

  /** The per-row loop: one pass that keeps the records of the surviving rows. */
  method NormalizeRows(roster: Roster, rows: seq<RawVisit>) returns (out: seq<Visit>)
    ensures out == NormalizeAll(roster, rows)
  {
    out := [];
    for i := 0 to |rows|
      invariant out == Somes(Outcomes(roster, rows)[..i])
    {
      var rec := NormalizeRow(roster, rows[i]);
      KeepStep(roster, rows, i, rec);
      if rec.Some? {
        out := out + [rec.value];
      }
    }
    assert Outcomes(roster, rows)[..|rows|] == Outcomes(roster, rows);
  }

  lemma KeepStep(roster: Roster, rows: seq<RawVisit>, i: nat, rec: Option<Visit>)
    requires i < |rows| && rec == NormalizeRow(roster, rows[i])
    ensures Somes(Outcomes(roster, rows)[..i + 1]) == Somes(Outcomes(roster, rows)[..i]) + (if rec.Some? then [rec.value] else [])
  {
    SomesStep(Outcomes(roster, rows), i);
  }

  // ---------------------------------------------------------------------------
  // the whole load

  datatype Loaded = Loaded(visits: seq<Visit>, roster: Table)

  predicate HasRequired(columns: seq<string>) {
    forall c :: c in RequiredColumns ==> c in columns
  }

  function ProjectAll(columns: seq<string>, rows: seq<seq<Cell>>): (r: seq<RawVisit>)
    requires HasRequired(columns)
    ensures |r| == |rows| && forall i :: 0 <= i < |rows| ==> r[i] == Project(columns, rows[i])
  {
    seq(|rows|, i requires 0 <= i < |rows| => Project(columns, rows[i]))
  }

  /** Both links resolved, the roster prepared and indexed, the visit table's
      headers trimmed and checked, and its rows normalised. `Err` is the
      source's `(None, None)`: never a partial table. */
  method Load(visitLink: string, groupLink: string, rosterTable: Table, visitTable: Table) returns (r: Result<Loaded, LoadError>)
    ensures r.Err? && r.error == UnresolvedLink <==> DownloadUrl(visitLink).None? || DownloadUrl(groupLink).None?
    ensures r.Err? && r.error == MissingRosterId <==>
      DownloadUrl(visitLink).Some? && DownloadUrl(groupLink).Some? && PrepareRoster(rosterTable).Err?
    ensures r.Err? && r.error == MissingAgentName <==>
      DownloadUrl(visitLink).Some? && DownloadUrl(groupLink).Some? && PrepareRoster(rosterTable).Ok?
      && NameHeader !in PrepareRoster(rosterTable).value.columns
    ensures r.Err? && r.error == MissingVisitColumns <==>
      DownloadUrl(visitLink).Some? && DownloadUrl(groupLink).Some? && PrepareRoster(rosterTable).Ok?
      && NameHeader in PrepareRoster(rosterTable).value.columns
      && !HasRequired(StripHeaders(visitTable.columns))
    ensures r.Err? && r.error == MissingGroup <==>
      DownloadUrl(visitLink).Some? && DownloadUrl(groupLink).Some? && PrepareRoster(rosterTable).Ok?
      && NameHeader in PrepareRoster(rosterTable).value.columns
      && HasRequired(StripHeaders(visitTable.columns))
      && GroupHeader !in PrepareRoster(rosterTable).value.columns
    ensures r.Ok? ==>
      var prepared := PrepareRoster(rosterTable).value;
      var cols := StripHeaders(visitTable.columns);
      prepared.columns == r.value.roster.columns
      && r.value.roster == prepared
      && HasRequired(cols) && IdHeader in prepared.columns && NameHeader in prepared.columns
      && Lookups(prepared).Ok?
      && r.value.visits == NormalizeAll(Lookups(prepared).value, ProjectAll(cols, visitTable.rows))
  {
    if DownloadUrl(visitLink).None? || DownloadUrl(groupLink).None? {
      return Err(UnresolvedLink);
    }
    var prepared := PrepareRoster(rosterTable);
    if prepared.Err? {
      return Err(MissingRosterId);
    }
    var roster := prepared.value;
    if NameHeader !in roster.columns {
      return Err(MissingAgentName);
    }
    var cols := StripHeaders(visitTable.columns);
    if !HasRequired(cols) {
      return Err(MissingVisitColumns);
    }
    var raw := ProjectAll(cols, visitTable.rows);
    assert IdHeader in roster.columns by { PreparedKeepsId(rosterTable); }
    var lookups := Lookups(roster);
    if lookups.Err? {
      return Err(MissingGroup);
    }
    var visits := NormalizeRows(lookups.value, raw);
    return Ok(Loaded(visits, roster));
  }

  /** The prepared roster still has its `ID` column: the rename only touches `Collector`. */
  lemma PreparedKeepsId(t: Table)
    requires PrepareRoster(t).Ok?
    ensures IdHeader in PrepareRoster(t).value.columns
    ensures ColumnIndex(PrepareRoster(t).value.columns, IdHeader) == ColumnIndex(StripHeaders(t.columns), IdHeader)
  {
    var cols := StripHeaders(t.columns);
    var i := ColumnIndex(cols, IdHeader).value;
    if LegacyNameHeader in cols && NameHeader !in cols {
      RenameKeepsOthers(cols, LegacyNameHeader, NameHeader, IdHeader);
    }
  }

  /** Every ID of the prepared roster, the key of both lookups, is trimmed text. */
  lemma PreparedIdsTrimmed(t: Table, i: nat)
    requires PrepareRoster(t).Ok? && i < |t.rows|
    ensures IdHeader in PrepareRoster(t).value.columns
    ensures var p := PrepareRoster(t).value;
      var id := RowId(p, p.rows[i]);
      id == Strip(Stringify(CellAt(t.rows[i], ColumnIndex(StripHeaders(t.columns), IdHeader).value))) && Strip(id) == id
  {
    PreparedKeepsId(t);
    StripIdempotent(Stringify(CellAt(t.rows[i], ColumnIndex(StripHeaders(t.columns), IdHeader).value)));
  }

  // ---------------------------------------------------------------------------
  // properties of the roster and of single rows

  /** The legacy header is aliased transparently: the prepared roster has an
      `Agent Name` column, and it is the column that was `Collector`. */
  lemma LegacyHeaderAliased(t: Table)
    requires IdHeader in StripHeaders(t.columns)
    requires LegacyNameHeader in StripHeaders(t.columns) && NameHeader !in StripHeaders(t.columns)
    ensures PrepareRoster(t).Ok? && NameHeader in PrepareRoster(t).value.columns
    ensures ColumnIndex(PrepareRoster(t).value.columns, NameHeader) == ColumnIndex(StripHeaders(t.columns), LegacyNameHeader)
  {
    RenameFindsTarget(StripHeaders(t.columns), LegacyNameHeader, NameHeader);
  }

  /** With `Agent Name` present, a `Collector` column is left as it is. */
  lemma CanonicalHeaderKept(t: Table)
    requires IdHeader in StripHeaders(t.columns) && NameHeader in StripHeaders(t.columns)
    ensures PrepareRoster(t).Ok? && PrepareRoster(t).value.columns == StripHeaders(t.columns)
  {
  }

  /** The unit test is on the trimmed text: padding does not save a cancelled repossession. */
  lemma PaddedUnitCancelled(u: string, v: string)
    requires AllSpace(u) && AllSpace(v)
    ensures CancelledUnitCell(Text(u + CancelledUnit + v))
  {
    StripPadded(u, CancelledUnit, v);
  }

  /** The unit test is case-sensitive. */
  lemma LowerCaseUnitKept()
    ensures !CancelledUnitCell(Text("cancelrepossession"))
  {
    StripUnpadded("cancelrepossession");
  }

  /** An empty unit reads "nan" and is kept. */
  lemma EmptyUnitKept()
    ensures !CancelledUnitCell(Null)
  {
    StripUnpadded("nan");
  }
}
