/** Worked examples of the report, computed by the verifier from the
    definitions. */
module Examples {
  import opened Wrappers
  import opened Stats
  import opened Frame
  import opened Cleaner

  /** Columns age and city, rows (25, NY), (missing, NY), (30, missing):
      one missing cell in each column and no duplicate rows. */
  lemma MissingValuesExample()
    ensures MissingReport(["age", "city"],
                          [Numeric([Some(25.0), None, Some(30.0)]),
                           Categorical([Some("NY"), Some("NY"), None])])
         == map["age" := 1, "city" := 1]
    ensures DuplicateRows(3, [Numeric([Some(25.0), None, Some(30.0)]),
                              Categorical([Some("NY"), Some("NY"), None])]) == 0
  {
    var columns := [Numeric([Some(25.0), None, Some(30.0)]),
                    Categorical([Some("NY"), Some("NY"), None])];
    assert RowAt(columns, 3, 1)[0] != RowAt(columns, 3, 0)[0];
    assert RowAt(columns, 3, 2)[0] !in {RowAt(columns, 3, 0)[0], RowAt(columns, 3, 1)[0]};
  }

  /** A table with the column x and no rows: nothing is missing, duplicated
      or an outlier. */
  lemma EmptyTableExample()
    ensures MissingReport(["x"], [Numeric([])]) == map[]
    ensures DuplicateRows(0, [Numeric([])]) == 0
    ensures OutlierReport(["x"], [Numeric([])]) == map[]
  {
  }

  /** Rows (1, a), (1, a), (2, b): the second row repeats the first. */
  lemma DuplicateRowsExample()
    ensures DuplicateRows(3, [Numeric([Some(1.0), Some(1.0), Some(2.0)]),
                              Categorical([Some("a"), Some("a"), Some("b")])]) == 1
  {
    var columns := [Numeric([Some(1.0), Some(1.0), Some(2.0)]),
                    Categorical([Some("a"), Some("a"), Some("b")])];
    assert RowAt(columns, 3, 1) == RowAt(columns, 3, 0);
    assert RowAt(columns, 3, 2)[0] !in {RowAt(columns, 3, 0)[0], RowAt(columns, 3, 1)[0]};
  }

  /** Of five values in ascending order, Q1 is the second and Q3 the fourth
      (positions 4 * 0.25 = 1 and 4 * 0.75 = 3 fall on ranks). */
  lemma QuartilesOfFive(s: seq<real>)
    requires |s| == 5 && IsSorted(s)
    ensures Quantile(s, 0.25) == Some(s[1])
    ensures Quantile(s, 0.75) == Some(s[3])
  {
    SortSorted(s);
    InterpolateAt(s, 1.0);
    InterpolateAt(s, 3.0);
  }

  /** The values 1, 2, 3, 4, 100 have Q1 = 2 and Q3 = 4; with IQR = 2 the
      fences are -1 and 7, so 100 is the one value outside them. */
  lemma OutlierValuesExample(vals: seq<real>)
    requires |vals| == 5
    requires vals[0] == 1.0 && vals[1] == 2.0 && vals[2] == 3.0 && vals[3] == 4.0 && vals[4] == 100.0
    ensures Quantile(vals, 0.25) == Some(2.0)
    ensures Quantile(vals, 0.75) == Some(4.0)
    ensures CountOutside(vals, 2.0, 4.0) == 1
  {
    QuartilesOfFive(vals);
    assert IsOutlier(vals[4], 2.0, 4.0);
    assert CountOutside(vals[4..], 2.0, 4.0) == 1;
    assert CountOutside(vals[3..], 2.0, 4.0) == 1;
    assert CountOutside(vals[2..], 2.0, 4.0) == 1;
    assert CountOutside(vals[1..], 2.0, 4.0) == 1;
  }

  /** So the column 1, 2, 3, 4, 100 reports one outlier. */
  lemma OutlierExample(cells: seq<Option<real>>)
    requires |cells| == 5
    requires cells[0] == Some(1.0) && cells[1] == Some(2.0) && cells[2] == Some(3.0)
    requires cells[3] == Some(4.0) && cells[4] == Some(100.0)
    ensures OutlierCount(cells) == 1
  {
    PresentOfComplete(cells);
    OutlierValuesExample(Present(cells));
  }
}
