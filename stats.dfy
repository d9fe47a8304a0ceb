/** The numeric reductions a cleaning pass relies on, over exact reals:
    dropping missing cells, sorting, the median and linearly interpolated
    quantiles (pandas' defaults), and the 1.5 x IQR fence test. */
module Stats {
  import opened Wrappers

  // ---------------------------------------------------------------------------
  // Missing cells

  /** Number of missing cells (pandas `isna().sum()` for one column). */
  function CountMissing<T>(cells: seq<Option<T>>): (n: nat)
    ensures n <= |cells|
    ensures n == 0 <==> forall i :: 0 <= i < |cells| ==> cells[i].Some?
    ensures n == |cells| <==> forall i :: 0 <= i < |cells| ==> cells[i].None?
  {
    if cells == [] then 0
    else
      var rest := CountMissing(cells[1..]);
      assert forall i :: 1 <= i < |cells| ==> cells[i] == cells[1..][i - 1];
      (if cells[0].None? then 1 else 0) + rest
  }

  /** The non-missing values of a column, in row order (what pandas'
      skip-NaN reductions look at). */
  function Present(cells: seq<Option<real>>): (r: seq<real>)
    ensures |r| + CountMissing(cells) == |cells|
    ensures forall i :: 0 <= i < |r| ==> Some(r[i]) in cells
    ensures forall i :: 0 <= i < |cells| && cells[i].Some? ==> cells[i].value in r
  {
    if cells == [] then []
    else
      assert cells == [cells[0]] + cells[1..];
      (if cells[0].Some? then [cells[0].value] else []) + Present(cells[1..])
  }

  /** Each value occurs among the non-missing values exactly as often as a
      cell holds it, so the statistics over them see every repeat. */
  lemma {:induction false} PresentCounts(cells: seq<Option<real>>)
    ensures forall x :: multiset(Present(cells))[x] == multiset(cells)[Some(x)]
  {
    if cells != [] {
      PresentCounts(cells[1..]);
      assert cells == [cells[0]] + cells[1..];
    }
  }

  /** Dropping missing cells keeps row order: the values of a concatenation
      are the values of its first part followed by those of its second. */
  lemma {:induction false} PresentAppend(a: seq<Option<real>>, b: seq<Option<real>>)
    ensures Present(a + b) == Present(a) + Present(b)
  {
    if a != [] {
      PresentAppend(a[1..], b);
      var head := if a[0].Some? then [a[0].value] else [];
      var ab := a + b;
      TailOfAppend(a, b);
      assert Present(ab) == head + Present(ab[1..]);
      assert Present(a) == head + Present(a[1..]);
    } else {
      assert a + b == b;
    }
  }

  lemma TailOfAppend<T>(a: seq<T>, b: seq<T>)
    requires a != []
    ensures (a + b)[0] == a[0] && (a + b)[1..] == a[1..] + b
  {
  }

  /** Without missing cells, the non-missing values are the cells' values,
      in order. */
  lemma {:induction false} PresentOfComplete(cells: seq<Option<real>>)
    requires forall i :: 0 <= i < |cells| ==> cells[i].Some?
    ensures |Present(cells)| == |cells|
    ensures forall i :: 0 <= i < |cells| ==> Present(cells)[i] == cells[i].value
  {
    if cells != [] {
      PresentOfComplete(cells[1..]);
      assert forall i :: 1 <= i < |cells| ==> cells[i] == cells[1..][i - 1];
    }
  }

  // ---------------------------------------------------------------------------
  // Sorting

  predicate IsSorted(s: seq<real>) {
    forall i, j :: 0 <= i <= j < |s| ==> s[i] <= s[j]
  }

  /** Inserts `x` into a sorted sequence, keeping it sorted. */
  function Insert(x: real, s: seq<real>): (r: seq<real>)
    requires IsSorted(s)
    ensures IsSorted(r)
    ensures multiset(r) == multiset(s) + multiset{x}
  {
    if s == [] then [x]
    else if x <= s[0] then [x] + s
    else
      var rest := Insert(x, s[1..]);
      assert s == [s[0]] + s[1..];
      forall y | y in multiset(rest) ensures s[0] <= y {
        if y != x {
          assert y in s[1..];
        }
      }
      PrependSorted(s[0], rest);
      [s[0]] + rest
  }

  /** `[h] + t` is sorted when t is and h is at most every element of t. */
  lemma PrependSorted(h: real, t: seq<real>)
    requires IsSorted(t)
    requires forall y :: y in multiset(t) ==> h <= y
    ensures IsSorted([h] + t)
  {
    forall j | 0 <= j < |t| ensures h <= t[j] {
      assert t[j] in multiset(t);
    }
  }

  /** The values in ascending order. */
  function Sort(s: seq<real>): (r: seq<real>)
    ensures IsSorted(r)
    ensures multiset(r) == multiset(s)
    ensures |r| == |s|
  {
    if s == [] then []
    else
      assert s == [s[0]] + s[1..];
      var r := Insert(s[0], Sort(s[1..]));
      assert |multiset(r)| == |multiset(s)|;
      r
  }

  /** Sorting values already in ascending order leaves them as they are. */
  lemma {:induction false} SortSorted(s: seq<real>)
    requires IsSorted(s)
    ensures Sort(s) == s
  {
    if s != [] {
      SortSorted(s[1..]);
      assert s == [s[0]] + s[1..];
    }
  }

  /** An element of the sorted sequence is an element of the input. */
  lemma SortedFromInput(s: seq<real>, i: nat)
    requires i < |s|
    ensures exists j :: 0 <= j < |s| && s[j] == Sort(s)[i]
  {
    var r := Sort(s);
    assert r[i] in multiset(r);
    assert r[i] in s;
  }

  // ---------------------------------------------------------------------------
  // Median

  /** The middle element of sorted values, or the mean of the two middle
      ones when their number is even. */
  function Middle(s: seq<real>): real
    requires |s| > 0
  {
    var n := |s|;
    if n % 2 == 1 then s[n / 2] else (s[n / 2 - 1] + s[n / 2]) / 2.0
  }

  /** pandas `median()` over the non-missing values: the middle element of the
      sorted values, or the mean of the two middle ones; none for no values
      (pandas gives NaN). */
  function Median(vals: seq<real>): (m: Option<real>)
    ensures m.None? <==> vals == []
    ensures m.Some? ==> exists i :: 0 <= i < |vals| && vals[i] <= m.value
    ensures m.Some? ==> exists j :: 0 <= j < |vals| && m.value <= vals[j]
  {
    if vals == [] then None
    else
      var s := Sort(vals);
      var n := |s|;
      SortedFromInput(vals, n / 2);
      SortedFromInput(vals, if n % 2 == 0 then n / 2 - 1 else n / 2);
      Some(Middle(s))
  }

  // ---------------------------------------------------------------------------
  // Quantiles with linear interpolation

  /** The value at fractional position `h` of a sorted sequence: walk to
      rank floor(h), then interpolate linearly towards the next rank. */
  function Interpolate(s: seq<real>, h: real): (v: real)
    requires |s| > 0
    requires 0.0 <= h <= (|s| - 1) as real
    decreases |s|
  {
    if |s| == 1 then s[0]
    else if h < 1.0 then s[0] + h * (s[1] - s[0])
    else Interpolate(s[1..], h - 1.0)
  }

  /** Interpolation in closed form (numpy's "linear" method): with f the
      floor of h, x[f] + (h - f) * (x[f + 1] - x[f]), or x[f] at the last rank. */
  lemma {:induction false} InterpolateAt(s: seq<real>, h: real)
    requires |s| > 0
    requires 0.0 <= h <= (|s| - 1) as real
    ensures 0 <= h.Floor < |s|
    ensures Interpolate(s, h) == if h.Floor + 1 < |s|
      then s[h.Floor] + (h - h.Floor as real) * (s[h.Floor + 1] - s[h.Floor])
      else s[h.Floor]
  {
    if |s| > 1 && 1.0 <= h {
      InterpolateAt(s[1..], h - 1.0);
      assert (h - 1.0).Floor == h.Floor - 1;
    }
  }

  lemma MulNonneg(a: real, b: real)
    requires 0.0 <= a && 0.0 <= b
    ensures 0.0 <= a * b
  {
  }

  /** An interpolated value lies between the two ranks it interpolates. */
  lemma InterpolateBetween(s: seq<real>, h: real)
    requires |s| > 0 && IsSorted(s)
    requires 0.0 <= h <= (|s| - 1) as real
    ensures s[h.Floor] <= Interpolate(s, h)
    ensures h.Floor + 1 < |s| ==> Interpolate(s, h) <= s[h.Floor + 1]
  {
    InterpolateAt(s, h);
    var f := h.Floor;
    if f + 1 < |s| {
      var t := h - f as real;
      var d := s[f + 1] - s[f];
      MulNonneg(t, d);
      MulNonneg(1.0 - t, d);
    }
  }

  /** Interpolation is monotone in the position. */
  lemma InterpolateMonotone(s: seq<real>, h1: real, h2: real)
    requires |s| > 0 && IsSorted(s)
    requires 0.0 <= h1 <= h2 <= (|s| - 1) as real
    ensures Interpolate(s, h1) <= Interpolate(s, h2)
  {
    var f1, f2 := h1.Floor, h2.Floor;
    InterpolateBetween(s, h1);
    InterpolateBetween(s, h2);
    if f1 == f2 {
      if f1 + 1 < |s| {
        MulNonneg(h2 - h1, s[f1 + 1] - s[f1]);
      }
    } else {
      assert s[f1 + 1] <= s[f2];
    }
  }

  /** Every interpolated value lies between the smallest and the largest. */
  lemma InterpolateWithin(s: seq<real>, h: real)
    requires |s| > 0 && IsSorted(s)
    requires 0.0 <= h <= (|s| - 1) as real
    ensures s[0] <= Interpolate(s, h) <= s[|s| - 1]
  {
    InterpolateMonotone(s, 0.0, h);
    InterpolateMonotone(s, h, (|s| - 1) as real);
  }

  /** The fractional position `last * p` of a quantile. */
  function Scaled(last: nat, p: real): (h: real)
    requires 0.0 <= p <= 1.0
    ensures 0.0 <= h <= last as real
  {
    MulNonneg(last as real, p);
    MulNonneg(last as real, 1.0 - p);
    last as real * p
  }

  /** pandas `quantile(p)` with its default linear interpolation, over the
      non-missing values: position h = (n - 1) * p in the sorted values;
      none for no values (pandas gives NaN). */
  function Quantile(vals: seq<real>, p: real): (q: Option<real>)
    requires 0.0 <= p <= 1.0
    ensures q.None? <==> vals == []
    ensures q.Some? ==> exists i :: 0 <= i < |vals| && vals[i] <= q.value
    ensures q.Some? ==> exists j :: 0 <= j < |vals| && q.value <= vals[j]
  {
    if vals == [] then None
    else
      var s := Sort(vals);
      var n := |s|;
      var h := Scaled(n - 1, p);
      InterpolateWithin(s, h);
      SortedFromInput(vals, 0);
      SortedFromInput(vals, n - 1);
      Some(Interpolate(s, h))
  }

  /** Quantiles grow with p. */
  lemma QuantileMonotone(vals: seq<real>, p: real, q: real)
    requires vals != []
    requires 0.0 <= p <= q <= 1.0
    ensures Quantile(vals, p).value <= Quantile(vals, q).value
  {
    var s := Sort(vals);
    var last := |s| - 1;
    MulNonneg(last as real, q - p);
    InterpolateMonotone(s, Scaled(last, p), Scaled(last, q));
  }

  /** Interpolating at the middle position gives the middle element, or the
      mean of the two middle elements. */
  lemma InterpolateAtMiddle(s: seq<real>)
    requires |s| > 0
    ensures Interpolate(s, Scaled(|s| - 1, 0.5)) == Middle(s)
  {
    var n := |s|;
    var h := Scaled(n - 1, 0.5);
    InterpolateAt(s, h);
    assert h == (n - 1) as real / 2.0;
    if n % 2 == 1 {
      assert h == (n / 2) as real;
      assert h.Floor == n / 2;
    } else {
      assert h == (n / 2 - 1) as real + 0.5;
      assert h.Floor == n / 2 - 1;
    }
  }

  /** The median is the 0.5 quantile: both definitions pandas uses agree. */
  lemma {:induction false} MedianIsHalfQuantile(vals: seq<real>)
    ensures Median(vals) == Quantile(vals, 0.5)
  {
    if vals != [] {
      InterpolateAtMiddle(Sort(vals));
    }
  }

  // ---------------------------------------------------------------------------
  // IQR outliers

  /** The 1.5 x IQR fence test: strictly below Q1 - 1.5 IQR or strictly above
      Q3 + 1.5 IQR. */
  predicate IsOutlier(x: real, q1: real, q3: real): (r: bool)
    ensures q1 <= q3 && r ==> x < q1 || q3 < x
    ensures q1 == q3 ==> (r <==> x != q1)
  {
    var iqr := q3 - q1;
    x < q1 - 1.5 * iqr || x > q3 + 1.5 * iqr
  }

  /** Number of values that fail the fence test. */
  function CountOutside(vals: seq<real>, q1: real, q3: real): (n: nat)
    ensures n <= |vals|
    ensures n == 0 <==> forall i :: 0 <= i < |vals| ==> !IsOutlier(vals[i], q1, q3)
  {
    if vals == [] then 0
    else
      var rest := CountOutside(vals[1..], q1, q3);
      assert forall i :: 1 <= i < |vals| ==> vals[i] == vals[1..][i - 1];
      (if IsOutlier(vals[0], q1, q3) then 1 else 0) + rest
  }

  /** The fence count taken over every cell, as a comparison over the whole
      column does: a missing cell compares false with both fences and is
      never counted. */
  function CountCells(cells: seq<Option<real>>, q1: real, q3: real): nat {
    if cells == [] then 0
    else (if cells[0].Some? && IsOutlier(cells[0].value, q1, q3) then 1 else 0) + CountCells(cells[1..], q1, q3)
  }

  /** Counting over all cells gives the same number as counting over the
      non-missing values. */
  lemma {:induction false} CountCellsSkipsMissing(cells: seq<Option<real>>, q1: real, q3: real)
    ensures CountCells(cells, q1, q3) == CountOutside(Present(cells), q1, q3)
  {
    if cells != [] {
      CountCellsSkipsMissing(cells[1..], q1, q3);
      var vals, rest := Present(cells), Present(cells[1..]);
      if cells[0].Some? {
        assert vals == [cells[0].value] + rest;
        assert vals[0] == cells[0].value && vals[1..] == rest;
      } else {
        assert vals == rest;
      }
    }
  }

  /** Outlier count of one numeric column: the quartiles are taken over the
      non-missing values, and a missing cell compares false against both
      fences, so only non-missing values can be counted
      (`CountCellsSkipsMissing`). A column with no
      values has undefined quartiles and no outliers. */
  function OutlierCount(cells: seq<Option<real>>): (n: nat)
    ensures n <= |Present(cells)| <= |cells|
  {
    var vals := Present(cells);
    if vals == [] then 0
    else
      var q1 := Quantile(vals, 0.25).value;
      var q3 := Quantile(vals, 0.75).value;
      CountOutside(vals, q1, q3)
  }

  /** Q1 <= Q3, so the IQR is never negative. */
  lemma {:induction false} QuartilesOrdered(vals: seq<real>)
    requires vals != []
    ensures Quantile(vals, 0.25).value <= Quantile(vals, 0.75).value
  {
    QuantileMonotone(vals, 0.25, 0.75);
  }

  /** Every quantile of values that all equal c is c. */
  lemma {:induction false} QuantileOfConstant(vals: seq<real>, c: real, p: real)
    requires vals != [] && 0.0 <= p <= 1.0
    requires forall i :: 0 <= i < |vals| ==> vals[i] == c
    ensures Quantile(vals, p) == Some(c)
  {
    var q := Quantile(vals, p);
    assert q.Some?;
    var i :| 0 <= i < |vals| && vals[i] <= q.value;
    var j :| 0 <= j < |vals| && q.value <= vals[j];
    assert vals[i] == c && vals[j] == c;
  }

  /** A column whose values all equal c has Q1 = Q3 = c, so IQR = 0, and
      no outliers. */
  lemma {:induction false} ConstantColumnHasNoOutliers(cells: seq<Option<real>>, c: real)
    requires forall i :: 0 <= i < |cells| && cells[i].Some? ==> cells[i].value == c
    ensures Present(cells) != [] ==> Quantile(Present(cells), 0.25) == Some(c)
    ensures Present(cells) != [] ==> Quantile(Present(cells), 0.75) == Some(c)
    ensures OutlierCount(cells) == 0
  {
    var vals := Present(cells);
    forall i | 0 <= i < |vals| ensures vals[i] == c {
      assert Some(vals[i]) in cells;
      var k :| 0 <= k < |cells| && cells[k] == Some(vals[i]);
    }
    if vals != [] {
      QuantileOfConstant(vals, c, 0.25);
      QuantileOfConstant(vals, c, 0.75);
      assert forall i :: 0 <= i < |vals| ==> !IsOutlier(vals[i], c, c);
    }
  }

  /** Every value lies between the first and the last of the sorted values. */
  lemma WithinSortedRange(vals: seq<real>, i: nat)
    requires i < |vals|
    ensures Sort(vals)[0] <= vals[i] <= Sort(vals)[|vals| - 1]
  {
    var s := Sort(vals);
    assert vals[i] in multiset(s);
    var k :| 0 <= k < |s| && s[k] == vals[i];
  }

  /** With at most three sorted values the fences enclose the first and the
      last value. */
  lemma FencesEncloseSmall(s: seq<real>)
    requires 0 < |s| <= 3 && IsSorted(s)
    ensures var q1, q3 := Interpolate(s, Scaled(|s| - 1, 0.25)), Interpolate(s, Scaled(|s| - 1, 0.75));
      q1 - 1.5 * (q3 - q1) <= s[0] && s[|s| - 1] <= q3 + 1.5 * (q3 - q1)
  {
    var n := |s|;
    var h1, h3 := Scaled(n - 1, 0.25), Scaled(n - 1, 0.75);
    InterpolateAt(s, h1);
    InterpolateAt(s, h3);
    if n == 2 {
      assert h1 == 0.25 && h3 == 0.75;
      assert h1.Floor == 0 && h3.Floor == 0;
      assert s[0] <= s[1];
    } else if n == 3 {
      assert h1 == 0.5 && h3 == 1.5;
      assert h1.Floor == 0 && h3.Floor == 1;
      assert s[0] <= s[1] <= s[2];
    }
  }

  /** No value of at most three is outside the fences. */
  lemma SmallSamplesInsideFences(vals: seq<real>)
    requires 0 < |vals| <= 3
    ensures CountOutside(vals, Quantile(vals, 0.25).value, Quantile(vals, 0.75).value) == 0
  {
    var s := Sort(vals);
    var q1, q3 := Quantile(vals, 0.25).value, Quantile(vals, 0.75).value;
    assert q1 == Interpolate(s, Scaled(|s| - 1, 0.25));
    assert q3 == Interpolate(s, Scaled(|s| - 1, 0.75));
    FencesEncloseSmall(s);
    forall i | 0 <= i < |vals| ensures s[0] <= vals[i] <= s[|s| - 1] {
      WithinSortedRange(vals, i);
    }
    InsideRangeInsideFences(vals, s[0], s[|s| - 1], q1, q3);
  }

  /** Values within [lo, hi] are all inside fences that enclose [lo, hi]. */
  lemma InsideRangeInsideFences(vals: seq<real>, lo: real, hi: real, q1: real, q3: real)
    requires forall i :: 0 <= i < |vals| ==> lo <= vals[i] <= hi
    requires q1 - 1.5 * (q3 - q1) <= lo && hi <= q3 + 1.5 * (q3 - q1)
    ensures CountOutside(vals, q1, q3) == 0
  {
  }

  /** A column needs at least four values before it can report an outlier. */
  lemma {:induction false} SmallColumnsHaveNoOutliers(cells: seq<Option<real>>)
    requires |Present(cells)| <= 3
    ensures OutlierCount(cells) == 0
  {
    if Present(cells) != [] {
      SmallSamplesInsideFences(Present(cells));
    }
  }
}
