/** The row helpers of the [incr tsdb()] module: filtering, applying
    functions to cells, selecting columns and matching two tables' rows on
    a key column. Rows are mappings of column names to cell text. */
module ItsdbRows {
  import opened Wrappers
  import opened PyStrings
  import opened Dicts
  import opened Itsdb

  datatype RowsError =
    | InvalidMode(mode: string)
      /** `row[key]` on a row without that column (a `KeyError`) */
    | MissingKey(key: string)
      /** `sorted` comparing an `int` key with a `str` key (a `TypeError`) */
    | UnorderableKeys

  /** `row.get(col)`; a `None` column is never present. */
  function Cell(row: Row, col: Option<string>): Option<string> {
    if col.Some? && col.value in row then Some(row[col.value]) else None
  }

  // ---------------------------------------------------------------------
  // filter_rows

  /** A condition is called with the row and the value of one column. */
  type Condition = (Row, Option<string>) -> bool

  /** Columns to test (`None` stands for the row as a whole) and the test. */
  type RowFilter = (seq<Option<string>>, Condition)

  /** Every condition holds for each of its columns that is `None` or
      present in the row. */
  predicate Admits(filters: seq<RowFilter>, row: Row) {
    forall k, c :: 0 <= k < |filters| && c in filters[k].0 && (c.None? || c.value in row) ==>
      filters[k].1(row, Cell(row, c))
  }

  /** `filter_rows(filters, rows)` */
  function FilterRows(filters: seq<RowFilter>, rows: seq<Row>): (r: seq<Row>)
    ensures |r| <= |rows|
    ensures forall x :: x in r ==> x in rows && Admits(filters, x)
  {
    if rows == [] then []
    else
      var rest := FilterRows(filters, rows[1..]);
      if Admits(filters, rows[0]) then [rows[0]] + rest else rest
  }

  /** `a` is `b` with some elements left out. */
  predicate Subsequence<T(==)>(a: seq<T>, b: seq<T>)
    decreases |b|
  {
    if a == [] then true
    else if b == [] then false
    else if a[0] == b[0] then Subsequence(a[1..], b[1..])
    else Subsequence(a, b[1..])
  }

  /** The rows kept are, in input order, exactly the rows every filter
      admits. */
  lemma {:induction false} FilterRowsKeeps(filters: seq<RowFilter>, rows: seq<Row>)
    ensures Subsequence(FilterRows(filters, rows), rows)
    ensures forall i :: 0 <= i < |rows| && Admits(filters, rows[i]) ==> rows[i] in FilterRows(filters, rows)
  {
    if rows != [] {
      FilterRowsKeeps(filters, rows[1..]);
      var rest := FilterRows(filters, rows[1..]);
      forall i | 0 <= i < |rows| && Admits(filters, rows[i])
        ensures rows[i] in FilterRows(filters, rows)
      {
        if i > 0 {
          assert rows[i] == rows[1..][i - 1];
        }
      }
      if !Admits(filters, rows[0]) {
        SubsequenceSkip(rest, rows);
      }
    }
  }

  lemma SubsequenceSkip<T>(a: seq<T>, b: seq<T>)
    requires b != [] && Subsequence(a, b[1..])
    ensures Subsequence(a, b)
    decreases |a| + |b|
  {
    if a != [] && a[0] == b[0] {
      SubsequenceDrop(a, b[1..]);
    }
  }

  /** Dropping the first element keeps a subsequence one. */
  lemma {:induction false} SubsequenceDrop<T>(a: seq<T>, b: seq<T>)
    requires a != [] && Subsequence(a, b)
    ensures Subsequence(a[1..], b)
    decreases |a| + |b|
  {
    if a[1..] != [] && b != [] {
      if a[0] == b[0] {
        SubsequenceSkip(a[1..], b);
      } else {
        SubsequenceDrop(a, b[1..]);
        SubsequenceSkip(a[1..], b);
      }
    }
  }

  // ---------------------------------------------------------------------
  // apply_rows

  /** An applicator is called with the row and the current cell text. */
  type Applicator = (Row, string) -> string

  /** The columns to change (`None` for none) and the function to apply. */
  type RowApplicator = (Option<seq<string>>, Applicator)

  function Columns(cols: Option<seq<string>>): seq<string> {
    if cols.Some? then cols.value else []
  }

  /** `row[col] = function(row, row.get(col, ''))` for each column in turn. */
  function ApplyCols(row: Row, f: Applicator, cols: seq<string>): (r: Row)
    ensures forall c :: c in r <==> c in row || c in cols
    ensures forall c :: c in row && c !in cols ==> r[c] == row[c]
    decreases |cols|
  {
    if cols == [] then row
    else
      var n := |cols| - 1;
      var before := ApplyCols(row, f, cols[..n]);
      var c := cols[n];
      assert cols == cols[..n] + [c];
      before[c := f(before, if c in before then before[c] else "")]
  }

  /** Every applicator applied to the row, in order. */
  function ApplyAll(row: Row, applicators: seq<RowApplicator>): (r: Row)
    decreases |applicators|
  {
    if applicators == [] then row
    else
      var n := |applicators| - 1;
      ApplyCols(ApplyAll(row, applicators[..n]), applicators[n].1, Columns(applicators[n].0))
  }

  /** A column some applicator names. */
  predicate Named(applicators: seq<RowApplicator>, c: string) {
    exists k :: 0 <= k < |applicators| && c in Columns(applicators[k].0)
  }

  /** Applying adds exactly the named columns and leaves every other cell
      alone. */
  lemma {:induction false} ApplyAllCells(row: Row, applicators: seq<RowApplicator>)
    ensures forall c :: c in ApplyAll(row, applicators) <==> c in row || Named(applicators, c)
    ensures forall c :: c in row && !Named(applicators, c) ==> ApplyAll(row, applicators)[c] == row[c]
    decreases |applicators|
  {
    if applicators != [] {
      var n := |applicators| - 1;
      var pre := applicators[..n];
      ApplyAllCells(row, pre);
      forall c ensures Named(applicators, c) <==> Named(pre, c) || c in Columns(applicators[n].0) {
        if Named(applicators, c) {
          var k :| 0 <= k < |applicators| && c in Columns(applicators[k].0);
          if k < n {
            assert pre[k] == applicators[k];
          }
        }
        if Named(pre, c) {
          var k :| 0 <= k < |pre| && c in Columns(pre[k].0);
          assert applicators[k] == pre[k];
        }
      }
      var prev := ApplyAll(row, pre);
      var cols := Columns(applicators[n].0);
      assert ApplyAll(row, applicators) == ApplyCols(prev, applicators[n].1, cols);
      forall c ensures c in ApplyAll(row, applicators) <==> c in row || Named(applicators, c) {
        assert c in ApplyAll(row, applicators) <==> c in prev || c in cols;
      }
      forall c | c in row && !Named(applicators, c)
        ensures ApplyAll(row, applicators)[c] == row[c]
      {
        assert !Named(pre, c) && c !in cols;
      }
    }
  }

  /** The loop over one row's applicators and their columns. */
  method ApplyRow(applicators: seq<RowApplicator>, row: Row) returns (r: Row)
    ensures r == ApplyAll(row, applicators)
  {
    r := row;
    for k := 0 to |applicators|
      invariant r == ApplyAll(row, applicators[..k])
    {
      ApplyAllSnoc(row, applicators, k);
      r := ApplyColumns(r, applicators[k].1, Columns(applicators[k].0));
    }
    assert applicators[..|applicators|] == applicators;
  }

  lemma ApplyAllSnoc(row: Row, applicators: seq<RowApplicator>, k: nat)
    requires k < |applicators|
    ensures ApplyAll(row, applicators[..k + 1]) ==
      ApplyCols(ApplyAll(row, applicators[..k]), applicators[k].1, Columns(applicators[k].0))
  {
    var next := applicators[..k + 1];
    assert next[..k] == applicators[..k] && next[k] == applicators[k];
  }

  /** The loop over one applicator's columns. */
  method ApplyColumns(row: Row, apply: Applicator, names: seq<string>) returns (r: Row)
    ensures r == ApplyCols(row, apply, names)
  {
    r := row;
    for j := 0 to |names|
      invariant r == ApplyCols(row, apply, names[..j])
    {
      var col := names[j];
      var value := if col in r then r[col] else "";
      assert names[..j + 1][..j] == names[..j] && names[..j + 1][j] == col;
      assert ApplyCols(row, apply, names[..j + 1]) == r[col := apply(r, value)];
      r := r[col := apply(r, value)];
    }
    assert names[..|names|] == names;
  }

  /** `apply_rows(applicators, rows)`: each row with every applicator
      applied, in input order. */
  method ApplyRows(applicators: seq<RowApplicator>, rows: seq<Row>) returns (r: seq<Row>)
    ensures |r| == |rows|
    ensures forall i :: 0 <= i < |rows| ==> r[i] == ApplyAll(rows[i], applicators)
  {
    r := [];
    for i := 0 to |rows|
      invariant |r| == i
      invariant forall k :: 0 <= k < i ==> r[k] == ApplyAll(rows[k], applicators)
    {
      var row := ApplyRow(applicators, rows[i]);
      r := r + [row];
    }
  }

  // ---------------------------------------------------------------------
  // select_rows

  /** What `select_rows` yields for one row, by mode. */
  datatype Selected =
    | ListData(values: seq<Option<string>>)
    | DictData(entries: Dict<string, Option<string>>)
    | RowData(line: string)

  /** `[row.get(c) for c in cols]` */
  function Data(cols: seq<string>, row: Row): (r: seq<Option<string>>)
    ensures |r| == |cols|
    ensures forall i :: 0 <= i < |cols| ==> r[i] == Cell(row, Some(cols[i]))
  {
    seq(|cols|, i requires 0 <= i < |cols| => Cell(row, Some(cols[i])))
  }

  /** `str(v)` of a selected value: a missing cell prints as `None`. */
  function Show(v: Option<string>): string {
    if v.Some? then v.value else "None"
  }

  function ShowAll(data: seq<Option<string>>): (r: seq<string>)
    ensures |r| == |data|
    ensures forall i :: 0 <= i < |data| ==> r[i] == Show(data[i])
  {
    seq(|data|, i requires 0 <= i < |data| => Show(data[i]))
  }

  /** `dict(zip(keys, values))`: a repeated key keeps its first position and
      its last value. */
  function Zip(keys: seq<string>, values: seq<Option<string>>): Dict<string, Option<string>>
    requires |keys| == |values|
  {
    if keys == [] then []
    else
      var n := |keys| - 1;
      Set(Zip(keys[..n], values[..n]), keys[n], values[n])
  }

  /** The selection from one row in a given (lower-cased, valid) mode. */
  function SelectOne(cols: seq<string>, row: Row, mode: string): Selected {
    var data := Data(cols, row);
    if mode == "list" then ListData(data)
    else if mode == "dict" then DictData(Zip(cols, data))
    else RowData(EncodeRow(ShowAll(data)))
  }

  /** `select_rows(cols, rows, mode)`: the mode is lower-cased and must be
      `list`, `dict` or `row`. */
  function SelectRows(cols: seq<string>, rows: seq<Row>, mode: string): (r: Result<seq<Selected>, RowsError>)
    ensures r.Failure? <==> Lower(mode) !in ["list", "dict", "row"]
    ensures r.Success? ==> |r.value| == |rows|
  {
    var m := Lower(mode);
    if m == "list" || m == "dict" || m == "row" then
      Success(seq(|rows|, i requires 0 <= i < |rows| => SelectOne(cols, rows[i], m)))
    else Failure(InvalidMode(m))
  }

  /** In list mode each row gives the cell of each column, or `None`. */
  lemma SelectList(cols: seq<string>, rows: seq<Row>, mode: string, i: nat)
    requires Lower(mode) == "list" && i < |rows|
    ensures SelectRows(cols, rows, mode).Success?
    ensures SelectRows(cols, rows, mode).value[i] == ListData(Data(cols, rows[i]))
  {
  }

  /** `dict(zip(keys, values))` maps each key to its last value. */
  lemma {:induction false} ZipGet(keys: seq<string>, values: seq<Option<string>>, i: nat)
    requires |keys| == |values| && i < |keys|
    requires forall j :: i < j < |keys| ==> keys[j] != keys[i]
    ensures Get(Zip(keys, values), keys[i]) == Some(values[i])
  {
    var n := |keys| - 1;
    GetSet(Zip(keys[..n], values[..n]), keys[n], values[n], keys[i]);
    if i < n {
      ZipGet(keys[..n], values[..n], i);
    }
  }

  /** In dict mode each column maps to its cell, or `None`. */
  lemma SelectDict(cols: seq<string>, rows: seq<Row>, mode: string, i: nat, c: nat)
    requires Lower(mode) == "dict" && i < |rows| && c < |cols|
    ensures SelectRows(cols, rows, mode).Success?
    ensures SelectRows(cols, rows, mode).value[i].DictData?
    ensures Get(SelectRows(cols, rows, mode).value[i].entries, cols[c]) == Some(Cell(rows[i], Some(cols[c])))
  {
    var data := Data(cols, rows[i]);
    var j := LastIndex(cols, c);
    ZipGet(cols, data, j);
  }

  /** The last position holding the same column as position `c`. */
  function LastIndex(cols: seq<string>, c: nat): (j: nat)
    requires c < |cols|
    ensures c <= j < |cols| && cols[j] == cols[c]
    ensures forall k :: j < k < |cols| ==> cols[k] != cols[j]
    decreases |cols| - c
  {
    if exists k :: c < k < |cols| && cols[k] == cols[c] then
      var k :| c < k < |cols| && cols[k] == cols[c];
      LastIndex(cols, k)
    else c
  }

  /** In row mode each row gives a line that decodes back to the printed
      cells, provided at least one column is selected. */
  lemma SelectRowLine(cols: seq<string>, rows: seq<Row>, mode: string, i: nat)
    requires Lower(mode) == "row" && i < |rows| && |cols| >= 1
    ensures SelectRows(cols, rows, mode).Success?
    ensures SelectRows(cols, rows, mode).value[i].RowData?
    ensures DecodeRow(SelectRows(cols, rows, mode).value[i].line) == ShowAll(Data(cols, rows[i]))
  {
    DecodeEncode(ShowAll(Data(cols, rows[i])));
  }
}
