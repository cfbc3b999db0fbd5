/**
  The two spreadsheets as the loader sees them after `pd.read_excel`: a header
  row and rows of cells, each cell empty (NaN) or text.
 */
module Tables {

  import opened Wrappers
  import opened Strings

  datatype Cell = Null | Text(text: string)

  /** `astype(str)`: an empty cell becomes the text "nan". */
  function Stringify(c: Cell): (s: string)
    ensures c.Text? ==> s == c.text
    ensures c.Null? ==> s == "nan"
  {
    match c
    case Null => "nan"
    case Text(t) => t
  }

  datatype Table = Table(columns: seq<string>, rows: seq<seq<Cell>>)

  /** The first column carrying `name`. */
  function ColumnIndex(columns: seq<string>, name: string): (r: Option<nat>)
    ensures r.Some? <==> name in columns
    ensures r.Some? ==> r.value < |columns| && columns[r.value] == name
    ensures r.Some? ==> forall k :: 0 <= k < r.value ==> columns[k] != name
  {
    if columns == [] then None
    else if columns[0] == name then Some(0)
    else match ColumnIndex(columns[1..], name)
      case None => None
      case Some(k) => Some(k + 1)
  }

  /** The cell of `row` in column `i`; a short row reads as empty there, as
      pandas pads it. */
  function CellAt(row: seq<Cell>, i: nat): Cell {
    if i < |row| then row[i] else Null
  }

  /** `columns.str.strip()`. */
  function StripHeaders(columns: seq<string>): (r: seq<string>)
    ensures |r| == |columns| && forall k :: 0 <= k < |r| ==> r[k] == Strip(columns[k])
  {
    seq(|columns|, k requires 0 <= k < |columns| => Strip(columns[k]))
  }

  /** `rename(columns={from: to})`: every header equal to `from` becomes `to`. */
  function RenameColumn(columns: seq<string>, from: string, to: string): (r: seq<string>)
    ensures |r| == |columns|
    ensures forall k :: 0 <= k < |r| ==> r[k] == if columns[k] == from then to else columns[k]
  {
    seq(|columns|, k requires 0 <= k < |columns| => if columns[k] == from then to else columns[k])
  }

  lemma RenameFindsTarget(columns: seq<string>, from: string, to: string)
    requires from in columns && to !in columns
    ensures ColumnIndex(RenameColumn(columns, from, to), to) == ColumnIndex(columns, from)
    ensures from !in RenameColumn(columns, from, to) || from == to
  {
    var r := RenameColumn(columns, from, to);
    var i := ColumnIndex(columns, from).value;
    assert r[i] == to;
    var j := ColumnIndex(r, to).value;
    assert j <= i;
    assert columns[j] == from;
    assert j == i;
    if from != to {
      forall k | 0 <= k < |r| ensures r[k] != from {
      }
    }
  }

  /** Renaming leaves where any other header is first found. */
  lemma RenameKeepsOthers(columns: seq<string>, from: string, to: string, name: string)
    requires name != from && name != to
    ensures ColumnIndex(RenameColumn(columns, from, to), name) == ColumnIndex(columns, name)
  {
    var r := RenameColumn(columns, from, to);
    if name in columns {
      var i := ColumnIndex(columns, name).value;
      assert r[i] == name;
      var j := ColumnIndex(r, name).value;
      assert r[j] == name;
      assert columns[j] == name;
      assert j == i;
    } else {
      forall k | 0 <= k < |r| ensures r[k] != name {
        assert columns[k] != name;
      }
    }
  }

  /** Replaces the cell of column `col` in every row by `f` of it (shorter rows are padded). */
  function MapColumn(rows: seq<seq<Cell>>, col: nat, f: Cell -> Cell): (r: seq<seq<Cell>>)
    ensures |r| == |rows|
    ensures forall i :: 0 <= i < |r| ==> CellAt(r[i], col) == f(CellAt(rows[i], col))
    ensures forall i, k :: 0 <= i < |r| && k != col ==> CellAt(r[i], k) == CellAt(rows[i], k)
  {
    seq(|rows|, i requires 0 <= i < |rows| => SetCell(rows[i], col, f(CellAt(rows[i], col))))
  }

  function SetCell(row: seq<Cell>, col: nat, c: Cell): (r: seq<Cell>)
    ensures CellAt(r, col) == c
    ensures forall k :: k != col ==> CellAt(r, k) == CellAt(row, k)
  {
    if col < |row| then row[col := c] else row + seq(col - |row|, _ => Null) + [c]
  }
}
