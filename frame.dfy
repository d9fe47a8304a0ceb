/** The table the cleaner works on: a pandas DataFrame reduced to what the
    cleaner observes. It has a row count (the length of its index), column
    names and one tagged column per name. The reductions over it are
    `isna().sum()` per column and `duplicated().sum()` over rows. */
module Frame {
  import opened Wrappers
  import opened Stats

  /** A column is numeric (float64/int64, values as exact reals) or anything
      else (object dtype, values as strings); `None` is a missing cell. */
  datatype Column =
    | Numeric(values: seq<Option<real>>)
    | Categorical(labels: seq<Option<string>>)

  function Length(c: Column): nat {
    match c
    case Numeric(values) => |values|
    case Categorical(labels) => |labels|
  }

  /** `isna().sum()` of one column. */
  function MissingCount(c: Column): (n: nat)
    ensures n <= Length(c)
  {
    match c
    case Numeric(values) => CountMissing(values)
    case Categorical(labels) => CountMissing(labels)
  }

  /** One cell of a row, tagged by the type of its column. */
  datatype Cell = NumberCell(number: Option<real>) | TextCell(text: Option<string>)

  function CellAt(c: Column, i: nat): Cell
    requires i < Length(c)
  {
    match c
    case Numeric(values) => NumberCell(values[i])
    case Categorical(labels) => TextCell(labels[i])
  }

  predicate Distinct(names: seq<string>) {
    forall i, j :: 0 <= i < j < |names| ==> names[i] != names[j]
  }

  /** Every column has one cell per row. */
  predicate Rectangular(rows: nat, columns: seq<Column>) {
    forall k :: 0 <= k < |columns| ==> Length(columns[k]) == rows
  }

  /** One name per column, names unique (pandas' CSV reader renames a repeated
      header), every column one cell per row. */
  predicate WellFormed(rows: nat, names: seq<string>, columns: seq<Column>) {
    |names| == |columns| && Distinct(names) && Rectangular(rows, columns)
  }

  /** The DataFrame the cleaner receives and fills in place. */
  class DataFrame {
    var rows: nat
    var names: seq<string>
    var columns: seq<Column>

    ghost predicate Valid()
      reads this
    {
      WellFormed(rows, names, columns)
    }

    constructor (rows: nat, names: seq<string>, columns: seq<Column>)
      requires WellFormed(rows, names, columns)
      ensures Valid()
      ensures this.rows == rows && this.names == names && this.columns == columns
    {
      this.rows := rows;
      this.names := names;
      this.columns := columns;
    }

    /** `df[names[k]] = c`: replaces one column by a column of the same
        length; shape, names and the other columns stay as they were. */
    method SetColumn(k: nat, c: Column)
      requires Valid()
      requires k < |columns| && Length(c) == rows
      modifies this
      ensures Valid()
      ensures rows == old(rows) && names == old(names)
      ensures columns == old(columns)[k := c]
    {
      columns := columns[k := c];
    }
  }

  // ---------------------------------------------------------------------------
  // Missing values

  /** A per-column count turned into a report entry: each column name with
      its count, for the columns whose count is above zero (pandas'
      `counts[counts > 0].to_dict()`, or a loop that records only non-zero
      counts). */
  function NonZeroCounts(names: seq<string>, counts: seq<nat>): (m: map<string, nat>)
    requires |names| == |counts| && Distinct(names)
    ensures forall key :: key in m ==> key in names && m[key] > 0
    ensures forall k :: 0 <= k < |names| ==> (names[k] in m <==> counts[k] > 0)
    ensures forall k :: 0 <= k < |names| && names[k] in m ==> m[names[k]] == counts[k]
  {
    if names == [] then map[]
    else
      var last := |names| - 1;
      DropLast(names, counts);
      var m := NonZeroCounts(names[..last], counts[..last]);
      if counts[last] > 0 then m[names[last] := counts[last]] else m
  }

  /** Dropping the last column keeps the names distinct and the other
      entries in place, and the last name is not among the others. */
  lemma DropLast(names: seq<string>, counts: seq<nat>)
    requires |names| == |counts| && Distinct(names) && names != []
    ensures Distinct(names[..|names| - 1])
    ensures forall k :: 0 <= k < |names| - 1 ==>
      names[..|names| - 1][k] == names[k] && counts[..|counts| - 1][k] == counts[k]
    ensures names[|names| - 1] !in names[..|names| - 1]
  {
  }

  /** Extending the columns by one records the new column's count when it
      is above zero. */
  lemma NonZeroCountsStep(names: seq<string>, counts: seq<nat>, k: nat)
    requires |names| == |counts| && Distinct(names) && k < |names|
    ensures Distinct(names[..k]) && Distinct(names[..k + 1])
    ensures NonZeroCounts(names[..k + 1], counts[..k + 1])
         == if counts[k] > 0 then NonZeroCounts(names[..k], counts[..k])[names[k] := counts[k]]
            else NonZeroCounts(names[..k], counts[..k])
  {
    assert names[..k + 1][..k] == names[..k] && counts[..k + 1][..k] == counts[..k];
  }

  /** `df.isna().sum()`: the number of missing cells of every column. */
  function MissingCounts(columns: seq<Column>): seq<nat> {
    seq(|columns|, k requires 0 <= k < |columns| => MissingCount(columns[k]))
  }

  /** The missing-values entry of the report: each column name with its
      number of missing cells, exactly for the columns that have one. */
  function MissingReport(names: seq<string>, columns: seq<Column>): (m: map<string, nat>)
    requires |names| == |columns| && Distinct(names)
    ensures forall key :: key in m ==> key in names && m[key] > 0
    ensures forall k :: 0 <= k < |names| ==> (names[k] in m <==> MissingCount(columns[k]) > 0)
    ensures forall k :: 0 <= k < |names| && names[k] in m ==> m[names[k]] == MissingCount(columns[k])
  {
    NonZeroCounts(names, MissingCounts(columns))
  }

  // ---------------------------------------------------------------------------
  // Duplicate rows

  /** Row i as a tuple of cells; two missing cells of a column are equal. */
  function RowAt(columns: seq<Column>, rows: nat, i: nat): (r: seq<Cell>)
    requires Rectangular(rows, columns) && i < rows
    ensures |r| == |columns|
  {
    seq(|columns|, k requires 0 <= k < |columns| => CellAt(columns[k], i))
  }

  /** Two rows are equal exactly when they agree in every column, a missing
      cell agreeing with a missing cell of the same column. */
  lemma SameRow(columns: seq<Column>, rows: nat, i: nat, j: nat)
    requires Rectangular(rows, columns) && i < rows && j < rows
    ensures RowAt(columns, rows, i) == RowAt(columns, rows, j)
        <==> forall k :: 0 <= k < |columns| ==> CellAt(columns[k], i) == CellAt(columns[k], j)
  {
    var ri, rj := RowAt(columns, rows, i), RowAt(columns, rows, j);
    if forall k :: 0 <= k < |columns| ==> CellAt(columns[k], i) == CellAt(columns[k], j) {
      assert forall k :: 0 <= k < |columns| ==> ri[k] == rj[k];
    } else {
      var k :| 0 <= k < |columns| && CellAt(columns[k], i) != CellAt(columns[k], j);
      assert ri[k] != rj[k];
    }
  }

  /** Rows i and j hold equal cells in every column. */
  predicate SameCells(columns: seq<Column>, rows: nat, i: nat, j: nat)
    requires Rectangular(rows, columns) && i < rows && j < rows
  {
    forall k :: 0 <= k < |columns| ==> CellAt(columns[k], i) == CellAt(columns[k], j)
  }

  /** `SameRow` for row i against every row. */
  lemma SameRowAll(columns: seq<Column>, rows: nat, i: nat)
    requires Rectangular(rows, columns) && i < rows
    ensures forall j :: 0 <= j < rows ==>
      (RowAt(columns, rows, j) == RowAt(columns, rows, i) <==> SameCells(columns, rows, j, i))
  {
    forall j | 0 <= j < rows
      ensures RowAt(columns, rows, j) == RowAt(columns, rows, i) <==> SameCells(columns, rows, j, i)
    {
      SameRow(columns, rows, j, i);
    }
  }

  /** `duplicated()` with keep-first: row i equals some earlier row, compared
      column by column with a missing cell equal to a missing cell. */
  predicate IsDuplicate(columns: seq<Column>, rows: nat, i: nat): (r: bool)
    requires Rectangular(rows, columns) && i < rows
    ensures r <==> exists j :: 0 <= j < i && SameCells(columns, rows, j, i)
  {
    SameRowAll(columns, rows, i);
    exists j :: 0 <= j < i && RowAt(columns, rows, j) == RowAt(columns, rows, i)
  }

  /** Number of duplicated rows among the first n. */
  function CountDuplicated(columns: seq<Column>, rows: nat, n: nat): (d: nat)
    requires Rectangular(rows, columns) && n <= rows
    ensures d <= n
    ensures n <= 1 ==> d == 0
  {
    if n == 0 then 0
    else CountDuplicated(columns, rows, n - 1) + (if IsDuplicate(columns, rows, n - 1) then 1 else 0)
  }

  /** `duplicated().sum()`. pandas answers an empty frame (no columns) with
      an empty mask, so such a frame has no duplicates whatever its row count. */
  function DuplicateRows(rows: nat, columns: seq<Column>): (d: nat)
    requires Rectangular(rows, columns)
    ensures d <= rows
    ensures rows <= 1 || columns == [] ==> d == 0
  {
    if columns == [] then 0 else CountDuplicated(columns, rows, rows)
  }

  /** The distinct rows among the first n. */
  ghost function DistinctRows(columns: seq<Column>, rows: nat, n: nat): set<seq<Cell>>
    requires Rectangular(rows, columns) && n <= rows
  {
    set i | 0 <= i < n :: RowAt(columns, rows, i)
  }

  /** Counting duplicates is the same as counting the rows that
      `drop_duplicates()` would remove. */
  lemma {:induction false} DuplicatedIsRowsMinusDistinct(columns: seq<Column>, rows: nat, n: nat)
    requires Rectangular(rows, columns) && n <= rows
    ensures CountDuplicated(columns, rows, n) + |DistinctRows(columns, rows, n)| == n
  {
    if n > 0 {
      DuplicatedIsRowsMinusDistinct(columns, rows, n - 1);
      var before := DistinctRows(columns, rows, n - 1);
      var row := RowAt(columns, rows, n - 1);
      assert DistinctRows(columns, rows, n) == before + {row};
      if IsDuplicate(columns, rows, n - 1) {
        var j :| 0 <= j < n - 1 && RowAt(columns, rows, j) == row;
        assert row in before;
      } else {
        assert row !in before;
      }
    }
  }

  /** For a frame with at least one column, the number of duplicate rows is
      the row count minus the number of distinct rows. */
  lemma DuplicateRowsCountsRepeats(rows: nat, columns: seq<Column>)
    requires Rectangular(rows, columns) && columns != []
    ensures DuplicateRows(rows, columns) == rows - |DistinctRows(columns, rows, rows)|
  {
    DuplicatedIsRowsMinusDistinct(columns, rows, rows);
  }
}
