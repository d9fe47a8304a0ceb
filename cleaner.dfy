/** `clean_dataframe`: profiles a DataFrame, fills its missing cells in place
    and returns the validation report. */
module Cleaner {
  import opened Wrappers
  import opened Stats
  import opened Frame

  /** The validation report (`ValidationResponse`): shape before cleaning,
      missing cells per column, duplicate rows, IQR outliers per numeric
      column. The maps hold only non-zero counts. */
  datatype Report = Report(
    rows: nat,
    columns: nat,
    missingValues: map<string, nat>,
    duplicateRows: nat,
    outliers: map<string, nat>)

  /** The fill value of a non-numeric column. */
  const Unknown: string := "UNKNOWN"

  /** `fillna(fill)`: every missing cell becomes `fill`, every other cell stays.
      Filling with a missing value (pandas' NaN) changes nothing. */
  function FillMissing<T>(cells: seq<Option<T>>, fill: Option<T>): (r: seq<Option<T>>)
    ensures |r| == |cells|
    ensures forall i :: 0 <= i < |cells| && cells[i].Some? ==> r[i] == cells[i]
    ensures forall i :: 0 <= i < |cells| && cells[i].None? ==> r[i] == fill
    ensures fill.Some? ==> CountMissing(r) == 0
    ensures fill.None? || CountMissing(cells) == 0 ==> r == cells
  {
    seq(|cells|, i requires 0 <= i < |cells| => if cells[i].Some? then cells[i] else fill)
  }

  /** The fill of one column: the median of its non-missing values for a
      numeric column, "UNKNOWN" for any other column. */
  function Impute(c: Column): (r: Column)
    ensures Length(r) == Length(c) && r.Numeric? == c.Numeric?
    ensures c.Categorical? ==> MissingCount(r) == 0
    ensures c.Categorical? ==> forall i :: 0 <= i < |c.labels| ==>
      r.labels[i] == if c.labels[i].Some? then c.labels[i] else Some(Unknown)
    ensures c.Numeric? && Present(c.values) != [] ==> MissingCount(r) == 0
    ensures c.Numeric? ==> forall i :: 0 <= i < |c.values| ==>
      r.values[i] == if c.values[i].Some? then c.values[i] else Median(Present(c.values))
    ensures c.Numeric? && Present(c.values) == [] ==> r == c
  {
    match c
    case Numeric(values) => Numeric(FillMissing(values, Median(Present(values))))
    case Categorical(labels) => Categorical(FillMissing(labels, Some(Unknown)))
  }

  /** A numeric column with at least one value gets the median of those
      values in every missing cell, and that median lies between their
      minimum and their maximum. */
  lemma {:induction false} ImputedMedianInRange(values: seq<Option<real>>, i: nat)
    requires i < |values| && values[i].None?
    requires exists j :: 0 <= j < |values| && values[j].Some?
    ensures Impute(Numeric(values)).values[i].Some?
    ensures exists j :: 0 <= j < |values| && values[j].Some? && values[j].value <= Impute(Numeric(values)).values[i].value
    ensures exists j :: 0 <= j < |values| && values[j].Some? && Impute(Numeric(values)).values[i].value <= values[j].value
  {
    var vals := Present(values);
    var j :| 0 <= j < |values| && values[j].Some?;
    assert values[j].value in vals;
    var m := Median(vals).value;
    var lo :| 0 <= lo < |vals| && vals[lo] <= m;
    var hi :| 0 <= hi < |vals| && m <= vals[hi];
    assert Some(vals[lo]) in values && Some(vals[hi]) in values;
  }

  /** Filling is idempotent: filling an already filled column changes
      nothing, so cleaning the cleaned data again leaves it as it is. */
  lemma {:induction false} ImputeIdempotent(c: Column)
    ensures Impute(Impute(c)) == Impute(c)
  {
    var r := Impute(c);
    match c
    case Categorical(labels) =>
      assert CountMissing(r.labels) == 0;
    case Numeric(values) =>
      if Present(values) != [] {
        assert CountMissing(r.values) == 0;
      }
  }

  /** After filling, a column still has missing cells exactly when it is a
      numeric column with rows but no value at all (its median is undefined). */
  lemma {:induction false} MissingAfterImpute(c: Column)
    ensures MissingCount(Impute(c)) > 0 <==> c.Numeric? && Length(c) > 0 && Present(c.values) == []
  {
    match c
    case Categorical(labels) =>
    case Numeric(values) =>
      if Present(values) == [] {
        assert CountMissing(values) == |values|;
      }
  }

  /** Profiling the filled table again reports as missing exactly the
      numeric columns that had rows but no value. */
  lemma {:induction false} MissingReportAfterCleaning(names: seq<string>, before: seq<Column>, after: seq<Column>)
    requires |names| == |before| == |after| && Distinct(names)
    requires forall k :: 0 <= k < |before| ==> after[k] == Impute(before[k])
    ensures forall k :: 0 <= k < |names| ==>
      (names[k] in MissingReport(names, after) <==>
         before[k].Numeric? && Length(before[k]) > 0 && Present(before[k].values) == [])
  {
    forall k | 0 <= k < |names|
      ensures names[k] in MissingReport(names, after) <==>
                before[k].Numeric? && Length(before[k]) > 0 && Present(before[k].values) == []
    {
      MissingAfterImpute(before[k]);
    }
  }

  /** The outlier count the loop records for each column; a non-numeric
      column is skipped, which records nothing, as a zero count does. */
  function OutlierCounts(columns: seq<Column>): seq<nat> {
    seq(|columns|, k requires 0 <= k < |columns| =>
      if columns[k].Numeric? then OutlierCount(columns[k].values) else 0)
  }

  /** The outliers entry of the report: each numeric column with its IQR
      outlier count, for the columns whose count is above zero. Other
      columns never appear. */
  function OutlierReport(names: seq<string>, columns: seq<Column>): (m: map<string, nat>)
    requires |names| == |columns| && Distinct(names)
    ensures forall key :: key in m ==> key in names && m[key] > 0
    ensures forall k :: 0 <= k < |names| ==>
      (names[k] in m <==> columns[k].Numeric? && OutlierCount(columns[k].values) > 0)
    ensures forall k :: 0 <= k < |names| && names[k] in m ==>
      columns[k].Numeric? && m[names[k]] == OutlierCount(columns[k].values)
  {
    NonZeroCounts(names, OutlierCounts(columns))
  }

  /** No count in the report exceeds the number of rows. */
  lemma ReportCountsBounded(rows: nat, names: seq<string>, columns: seq<Column>)
    requires WellFormed(rows, names, columns)
    ensures forall key :: key in MissingReport(names, columns) ==> MissingReport(names, columns)[key] <= rows
    ensures forall key :: key in OutlierReport(names, columns) ==> OutlierReport(names, columns)[key] <= rows
  {
    var missing, outliers := MissingReport(names, columns), OutlierReport(names, columns);
    forall key | key in missing ensures missing[key] <= rows {
      var k :| 0 <= k < |names| && names[k] == key;
    }
    forall key | key in outliers ensures outliers[key] <= rows {
      var k :| 0 <= k < |names| && names[k] == key;
      assert Length(columns[k]) == rows;
    }
  }

  /** The outlier loop: for each numeric column in order, count its IQR
      outliers and record the count when it is above zero. */
  method DetectOutliers(names: seq<string>, columns: seq<Column>) returns (outliers: map<string, nat>)
    requires |names| == |columns| && Distinct(names)
    ensures outliers == OutlierReport(names, columns)
  {
    ghost var counts := OutlierCounts(columns);
    outliers := map[];
    for k := 0 to |columns|
      invariant outliers == NonZeroCounts(names[..k], counts[..k])
    {
      NonZeroCountsStep(names, counts, k);
      if columns[k].Numeric? {
        var count := OutlierCount(columns[k].values);
        if count > 0 {
          outliers := outliers[names[k] := count];
        }
      }
    }
    assert names[..|columns|] == names && counts[..|columns|] == counts;
  }

  /** `clean_dataframe(df)`: records the shape, the missing-value counts and
      the duplicate-row count, fills every column in place, then counts the
      outliers of the filled numeric columns. */
  method CleanDataFrame(df: DataFrame) returns (report: Report)
    requires df.Valid()
    modifies df
    ensures df.Valid()
    ensures df.rows == old(df.rows) && df.names == old(df.names)
    ensures |df.columns| == old(|df.columns|)
    ensures forall k :: 0 <= k < |df.columns| ==> df.columns[k] == Impute(old(df.columns[k]))
    ensures report.rows == old(df.rows) && report.columns == old(|df.columns|)
    ensures report.missingValues == MissingReport(old(df.names), old(df.columns))
    ensures report.duplicateRows == DuplicateRows(old(df.rows), old(df.columns))
    ensures report.outliers == OutlierReport(df.names, df.columns)
    ensures forall key :: key in report.missingValues ==> report.missingValues[key] <= report.rows
    ensures forall key :: key in report.outliers ==> report.outliers[key] <= report.rows
  {
    var rows := df.rows;
    var columns := |df.columns|;
    var missing := MissingReport(df.names, df.columns);
    var duplicates := DuplicateRows(df.rows, df.columns);
    for k := 0 to columns
      invariant df.Valid()
      invariant df.rows == old(df.rows) && df.names == old(df.names)
      invariant |df.columns| == columns
      invariant forall j :: 0 <= j < k ==> df.columns[j] == Impute(old(df.columns[j]))
      invariant forall j :: k <= j < columns ==> df.columns[j] == old(df.columns[j])
    {
      df.SetColumn(k, Impute(df.columns[k]));
    }
    var outliers := DetectOutliers(df.names, df.columns);
    ReportCountsBounded(old(df.rows), old(df.names), old(df.columns));
    ReportCountsBounded(df.rows, df.names, df.columns);
    report := Report(rows, columns, missing, duplicates, outliers);
  }
}
