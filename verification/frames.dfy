/** The tabular data the application works on: a pandas DataFrame read from an
    Excel sheet, as a list of column labels and a list of rows.  A row keeps its index
    label (`row.name`), which survives filtering.  Cells are looked up by position;
    a position past the end of a row reads as a missing cell. */
module Frames {
  import opened Wrappers
  import opened Text

  /** One cell: NaN/None, a string, an integer, or a float.  A float carries the text
      Python's `str()` gives it, because the shortest round-trip rendering of a
      double is not modelled. */
  datatype Cell = Missing | Str(s: string) | Int(i: int) | Num(value: real, repr: string)

  datatype Row = Row(index: int, cells: seq<Cell>)

  datatype Frame = Frame(columns: seq<string>, rows: seq<Row>)

  /** `df.empty`: no rows or no columns. */
  predicate Empty(f: Frame) {
    |f.rows| == 0 || |f.columns| == 0
  }

  /** `str(value)` for a cell; NaN prints as "nan". */
  function CellText(c: Cell): string {
    match c
    case Missing => "nan"
    case Str(s) => s
    case Int(i) => IntToString(i)
    case Num(_, repr) => repr
  }

  /** Python truthiness of a cell value: NaN is truthy, empty strings and zeros are not. */
  predicate Truthy(c: Cell) {
    match c
    case Missing => true
    case Str(s) => s != []
    case Int(i) => i != 0
    case Num(x, _) => x != 0.0
  }

  /** The numeric value of a price cell, with a missing value read as 0. */
  function PriceValue(c: Cell): real {
    match c
    case Int(i) => i as real
    case Num(x, _) => x
    case _ => 0.0
  }

  /** The position of the first column labelled `name`. */
  function ColumnIndex(columns: seq<string>, name: string): (k: Option<nat>)
    ensures k.None? <==> name !in columns
    ensures k.Some? ==> k.value < |columns| && columns[k.value] == name
    ensures k.Some? ==> forall j :: 0 <= j < k.value ==> columns[j] != name
  {
    if columns == [] then None
    else if columns[0] == name then Some(0)
    else
      match ColumnIndex(columns[1..], name)
      case None => None
      case Some(j) => Some(j + 1)
  }

  function CellAt(r: Row, k: nat): Cell {
    if k < |r.cells| then r.cells[k] else Missing
  }

  /** `row[name]` when the column exists. */
  function Get(f: Frame, r: Row, name: string): (c: Option<Cell>)
    ensures c.Some? <==> name in f.columns
  {
    match ColumnIndex(f.columns, name)
    case None => None
    case Some(k) => Some(CellAt(r, k))
  }

  /** `row.get(name, default)`. */
  function GetOr(f: Frame, r: Row, name: string, default: Cell): Cell {
    match Get(f, r, name)
    case None => default
    case Some(c) => c
  }

  /** Every cell of column `name` is a number or missing: what pandas needs to compare
      or subtract the column's values without raising `TypeError`. */
  predicate NumericColumn(f: Frame, name: string) {
    forall r :: r in f.rows ==> !GetOr(f, r, name, Missing).Str?
  }

  /** The rows of `rows` that satisfy `keep`, in their original order (a boolean mask). */
  function Filter(rows: seq<Row>, keep: Row -> bool): (r: seq<Row>)
    ensures |r| <= |rows|
    ensures forall x :: x in r <==> x in rows && keep(x)
  {
    if rows == [] then []
    else (if keep(rows[0]) then [rows[0]] else []) + Filter(rows[1..], keep)
  }

  lemma FilterAppend(a: seq<Row>, b: seq<Row>, keep: Row -> bool)
    ensures Filter(a + b, keep) == Filter(a, keep) + Filter(b, keep)
  {
    if a == [] {
      assert a + b == b;
    } else {
      assert (a + b)[0] == a[0];
      assert (a + b)[1..] == a[1..] + b;
      FilterAppend(a[1..], b, keep);
    }
  }

  /** Two masks applied one after the other keep what their conjunction keeps. */
  lemma FilterFilter(rows: seq<Row>, p: Row -> bool, q: Row -> bool, pq: Row -> bool)
    requires forall x :: pq(x) == (p(x) && q(x))
    ensures Filter(Filter(rows, p), q) == Filter(rows, pq)
  {
    if rows != [] {
      FilterFilter(rows[1..], p, q, pq);
      var head := if p(rows[0]) then [rows[0]] else [];
      FilterAppend(head, Filter(rows[1..], p), q);
    }
  }

  /** A table with only the rows that satisfy `keep`. */
  function FilterFrame(f: Frame, keep: Row -> bool): (r: Frame)
    ensures r.columns == f.columns
  {
    Frame(f.columns, Filter(f.rows, keep))
  }

  /** The cells of a row as a list as long as the header. */
  function Cells(r: Row, n: nat): (cs: seq<Cell>)
    ensures |cs| == n
    ensures forall k :: 0 <= k < n ==> cs[k] == CellAt(r, k)
  {
    seq(n, k requires 0 <= k < n => CellAt(r, k))
  }

  /** `df[name] = value` for one value: the existing column is overwritten in place,
      or a new column is appended. */
  function SetColumn(f: Frame, name: string, value: Cell): (r: Frame)
    ensures r.columns == f.columns + (if name in f.columns then [] else [name])
    ensures |r.rows| == |f.rows|
    ensures name in r.columns
    ensures forall k :: 0 <= k < |r.rows| ==> r.rows[k].index == f.rows[k].index && Get(r, r.rows[k], name) == Some(value)
  {
    match ColumnIndex(f.columns, name)
    case Some(p) =>
      Frame(f.columns, seq(|f.rows|, k requires 0 <= k < |f.rows| =>
        Row(f.rows[k].index, Cells(f.rows[k], |f.columns|)[p := value])))
    case None =>
      var cols := f.columns + [name];
      assert ColumnIndex(cols, name) == Some(|f.columns|) by { ColumnIndexAppend(f.columns, name); }
      Frame(cols, seq(|f.rows|, k requires 0 <= k < |f.rows| =>
        Row(f.rows[k].index, Cells(f.rows[k], |f.columns|) + [value])))
  }

  lemma ColumnIndexAppend(columns: seq<string>, name: string)
    requires name !in columns
    ensures ColumnIndex(columns + [name], name) == Some(|columns|)
  {
    var k := ColumnIndex(columns + [name], name);
    assert (columns + [name])[|columns|] == name;
  }

  /** `df[name] = df[name].apply(fn)` when the column exists; the table otherwise. */
  function MapColumn(f: Frame, name: string, fn: Cell -> Cell): (r: Frame)
    ensures r.columns == f.columns && |r.rows| == |f.rows|
    ensures forall k :: 0 <= k < |r.rows| ==> r.rows[k].index == f.rows[k].index
    ensures forall k :: 0 <= k < |r.rows| && name in f.columns ==>
      Get(r, r.rows[k], name) == Some(fn(GetOr(f, f.rows[k], name, Missing)))
    ensures name !in f.columns ==> r == f
  {
    match ColumnIndex(f.columns, name)
    case None => f
    case Some(p) =>
      Frame(f.columns, seq(|f.rows|, k requires 0 <= k < |f.rows| =>
        Row(f.rows[k].index, Cells(f.rows[k], |f.columns|)[p := fn(CellAt(f.rows[k], p))])))
  }

  /** Mapping one column leaves every other column's cells as they were. */
  lemma MapColumnOther(f: Frame, name: string, fn: Cell -> Cell, other: string, k: nat)
    requires k < |f.rows| && other in f.columns && other != name
    ensures Get(MapColumn(f, name, fn), MapColumn(f, name, fn).rows[k], other) == Get(f, f.rows[k], other)
  {
    if name in f.columns {
      assert ColumnIndex(f.columns, name).value != ColumnIndex(f.columns, other).value;
    }
  }

  /** Two cell functions that agree everywhere map a column alike. */
  lemma MapColumnSame(f: Frame, name: string, g: Cell -> Cell, h: Cell -> Cell)
    requires forall c :: g(c) == h(c)
    ensures MapColumn(f, name, g) == MapColumn(f, name, h)
  {
    var a, b := MapColumn(f, name, g), MapColumn(f, name, h);
    if name in f.columns {
      assert forall k :: 0 <= k < |f.rows| ==> a.rows[k] == b.rows[k];
    }
  }

  /** Mapping a column twice is mapping it once with the composed function. */
  lemma MapColumnTwice(f: Frame, name: string, g: Cell -> Cell, h: Cell -> Cell, gh: Cell -> Cell)
    requires forall c :: gh(c) == h(g(c))
    ensures MapColumn(MapColumn(f, name, g), name, h) == MapColumn(f, name, gh)
  {
    if name in f.columns {
      var p := ColumnIndex(f.columns, name).value;
      var n := |f.columns|;
      var m := MapColumn(f, name, g);
      var a, b := MapColumn(m, name, h), MapColumn(f, name, gh);
      forall k | 0 <= k < |f.rows| ensures a.rows[k] == b.rows[k] {
        assert m.rows[k].cells == Cells(f.rows[k], n)[p := g(CellAt(f.rows[k], p))];
        assert Cells(m.rows[k], n) == m.rows[k].cells;
      }
    }
  }

  /** Some row has a missing cell in column `name`. */
  predicate ColumnHasMissing(f: Frame, name: string) {
    name in f.columns && exists k :: 0 <= k < |f.rows| && GetOr(f, f.rows[k], name, Missing).Missing?
  }

  /** The float64 value pandas stores for an integer once its column also holds NaN;
      `str()` of that float is the integer's digits followed by ".0". */
  function AsFloat(c: Cell): (r: Cell)
    ensures r.Missing? <==> c.Missing?
    ensures !c.Int? ==> r == c
    ensures c.Int? ==> r.Num? && r.value == c.i as real
  {
    match c
    case Int(i) => Num(i as real, IntToString(i) + ".0")
    case _ => c
  }
}
