/** Outlier detection by the interquartile-range rule and capping of the outliers
    (data_cleaning.py, lines 98-105 and 111-118). */
module Outliers {
  import opened Frames
  import Stats

  /** The interval outside of which a value counts as an outlier. */
  datatype Bounds = Bounds(lower: real, upper: real)

  /** Lines 99-104: Q1 and Q3 of the values, and the interval reaching 1.5 IQR beyond
      each of them. Q1 <= Q3, so the interval is never empty and holds the middle half
      of the values. */
  function IqrBounds(xs: seq<real>): (b: Bounds)
    requires |xs| > 0
    ensures b.lower <= Stats.Quantile(xs, 0.25) <= Stats.Quantile(xs, 0.75) <= b.upper
  {
    var q1 := Stats.Quantile(xs, 0.25);
    var q3 := Stats.Quantile(xs, 0.75);
    Stats.QuantileMonotone(xs, 0.25, 0.75);
    var iqr := q3 - q1;
    Bounds(q1 - 1.5 * iqr, q3 + 1.5 * iqr)
  }

  /** A number strictly below or strictly above the interval; a missing value compares
      false both ways and is never an outlier. */
  predicate IsOutlier(c: Cell, b: Bounds)
    ensures IsOutlier(c, b) ==> c.Num?
  {
    c.Num? && (c.n < b.lower || c.n > b.upper)
  }

  /** Line 104: the rows whose cell in column j is an outlier, in their original order. */
  function OutlierRows(rows: seq<Row>, j: nat, b: Bounds): (out: seq<Row>)
    requires HasColumn(rows, j)
    ensures |out| <= |rows|
    ensures forall r :: r in out <==> r in rows && IsOutlier(r[j], b)
    ensures |out| > 0 <==> exists i :: 0 <= i < |rows| && IsOutlier(rows[i][j], b)
  {
    if rows == [] then []
    else
      assert rows == [rows[0]] + rows[1..];
      var rest := OutlierRows(rows[1..], j, b);
      assert forall i :: 1 <= i < |rows| ==> rows[i] == rows[1..][i - 1];
      if IsOutlier(rows[0][j], b) then [rows[0]] + rest else rest
  }

  /** The selection keeps the original order: selecting from two stretches of rows one
      after the other is selecting from each and putting the results one after the
      other. */
  lemma {:induction false} OutlierRowsAppend(a: seq<Row>, c: seq<Row>, j: nat, b: Bounds)
    requires HasColumn(a, j) && HasColumn(c, j)
    ensures HasColumn(a + c, j)
    ensures OutlierRows(a + c, j, b) == OutlierRows(a, j, b) + OutlierRows(c, j, b)
  {
    assert HasColumn(a + c, j) by {
      forall r | r in a + c ensures j < |r| { }
    }
    if a == [] {
      assert a + c == c;
    } else {
      OutlierRowsUnfold(a, c, j, b);
      OutlierRowsAppend(a[1..], c, j, b);
      var head: seq<Row> := if IsOutlier(a[0][j], b) then [a[0]] else [];
      assert head + (OutlierRows(a[1..], j, b) + OutlierRows(c, j, b))
          == (head + OutlierRows(a[1..], j, b)) + OutlierRows(c, j, b);
    }
  }

  // One step of the selection, on a and on a followed by c.
  lemma OutlierRowsUnfold(a: seq<Row>, c: seq<Row>, j: nat, b: Bounds)
    requires a != [] && HasColumn(a, j) && HasColumn(c, j)
    ensures HasColumn(a[1..], j) && HasColumn(a + c, j) && (a + c)[1..] == a[1..] + c
    ensures var head: seq<Row> := if IsOutlier(a[0][j], b) then [a[0]] else [];
      && OutlierRows(a, j, b) == head + OutlierRows(a[1..], j, b)
      && OutlierRows(a + c, j, b) == head + OutlierRows(a[1..] + c, j, b)
  {
    assert (a + c)[1..] == a[1..] + c;
    assert HasColumn(a[1..], j) by {
      forall r | r in a[1..] ensures j < |r| { assert r in a; }
    }
    assert HasColumn(a + c, j) by {
      forall r | r in a + c ensures j < |r| { }
    }
  }

  /** What `detect_outliers` returns: the outlier rows and the bounds. The bounds are
      NaN (here: absent) when the column holds no number, and then nothing compares as
      an outlier. */
  datatype Detection = Detection(outliers: seq<Row>, bounds: Option<Bounds>)

  /** Lines 98-105 on column j. The quantile of a column holding text fails. */
  function DetectOutliers(rows: seq<Row>, j: nat, name: string): (r: Result<Detection>)
    requires HasColumn(rows, j)
    ensures r.Err? <==> !IsNumeric(Column(rows, j))
    ensures r.Err? ==> r.error == NotNumeric(name)
    ensures r.Ok? ==>
      var d := r.value; var vs := NumValues(Column(rows, j));
      && (d.bounds.None? <==> vs == [])
      && (d.bounds.Some? ==> d.bounds.value == IqrBounds(vs) && d.bounds.value.lower <= d.bounds.value.upper)
      && (forall row :: row in d.outliers <==> row in rows && d.bounds.Some? && IsOutlier(row[j], d.bounds.value))
    ensures r.Ok? ==>
      r.value.outliers == if r.value.bounds.Some? then OutlierRows(rows, j, r.value.bounds.value) else []
  {
    var col := Column(rows, j);
    if !IsNumeric(col) then Err(NotNumeric(name))
    else
      var vs := NumValues(col);
      if vs == [] then Ok(Detection([], None))
      else
        var b := IqrBounds(vs);
        Ok(Detection(OutlierRows(rows, j, b), Some(b)))
  }

  /** `Series.clip(lower, upper)` on one cell: a number below the interval becomes its
      lower end, one above it its upper end; anything else is left as it is. */
  function ClipCell(c: Cell, b: Bounds): (d: Cell)
    ensures !c.Num? ==> d == c
    ensures c.Num? && b.lower <= b.upper ==> d.Num? && b.lower <= d.n <= b.upper
    ensures b.lower <= b.upper && !IsOutlier(c, b) ==> d == c
  {
    if c.Num? then
      var raised := if c.n < b.lower then b.lower else c.n;
      Num(if raised > b.upper then b.upper else raised)
    else c
  }

  /** With a non-empty interval, the outliers are exactly the cells clipping changes. */
  lemma OutlierIffClipMoves(c: Cell, b: Bounds)
    requires b.lower <= b.upper
    ensures IsOutlier(c, b) <==> ClipCell(c, b) != c
  {
  }

  /** Clipping to b, as a function on cells. */
  function Clipper(b: Bounds): Cell -> Cell {
    c => ClipCell(c, b)
  }

  function Abs(x: real): real {
    if x < 0.0 then -x else x
  }

  /** A clipped number is the point of the interval nearest to the original. */
  lemma ClipIsNearest(c: Cell, b: Bounds, v: real)
    requires c.Num? && b.lower <= v <= b.upper
    ensures ClipCell(c, b).Num? && Abs(ClipCell(c, b).n - c.n) <= Abs(v - c.n)
  {
  }

  /** Clipping to the same interval twice is clipping once. */
  lemma ClipIdempotent(c: Cell, b: Bounds)
    requires b.lower <= b.upper
    ensures ClipCell(ClipCell(c, b), b) == ClipCell(c, b)
  {
  }

  /** The bounds capping uses for column j: the IQR bounds of its numbers, or none when
      it holds no number. */
  function CapBounds(f: Frame, j: nat): (b: Option<Bounds>)
    requires WellFormed(f) && j < |f.columns|
    ensures b.Some? ==> b.value.lower <= b.value.upper
  {
    assert HasColumn(f.rows, j);
    var col := Column(f.rows, j);
    var vs := NumValues(col);
    if vs == [] then None else Some(IqrBounds(vs))
  }

  /** Lines 112-117 for one column name: an absent column is skipped; otherwise the
      outliers are detected and, when there is at least one, the column is clipped to
      the bounds. Because clipping leaves every non-outlier as it is, every cell of the
      column ends up clipped to the bounds whether or not any outlier was found; other
      columns, the labels and the row count do not change. */
  function CapColumn(f: Frame, name: string): (r: Result<Frame>)
    requires WellFormed(f)
    ensures name !in f.columns ==> r == Ok(f)
    ensures name in f.columns ==>
      var j := IndexOf(f.columns, name);
      && HasColumn(f.rows, j)
      && (r.Err? <==> !IsNumeric(Column(f.rows, j)))
    ensures r.Err? ==> r.error == NotNumeric(name)
    ensures r.Ok? ==> WellFormed(r.value) && r.value.columns == f.columns && |r.value.rows| == |f.rows|
    ensures r.Ok? && name in f.columns ==>
      var j := IndexOf(f.columns, name);
      forall i, k :: 0 <= i < |f.rows| && 0 <= k < |f.columns| ==>
        r.value.rows[i][k] ==
          if k == j && CapBounds(f, j).Some? then ClipCell(f.rows[i][k], CapBounds(f, j).value)
          else f.rows[i][k]
  {
    if name !in f.columns then Ok(f)
    else
      var j := IndexOf(f.columns, name);
      assert HasColumn(f.rows, j);
      var d :- DetectOutliers(f.rows, j, name);
      if |d.outliers| > 0 then
        var b := d.bounds.value;
        ClippedCells(f, j, b);
        Ok(Frame(f.columns, MapColumn(f.rows, j, Clipper(b))))
      else
        UnclippedCells(f, j, name);
        Ok(f)
  }

  lemma ClippedCells(f: Frame, j: nat, b: Bounds)
    requires WellFormed(f) && j < |f.columns| && CapBounds(f, j) == Some(b)
    ensures var g := Frame(f.columns, MapColumn(f.rows, j, Clipper(b)));
      && WellFormed(g) && |g.rows| == |f.rows|
      && forall i, k :: 0 <= i < |f.rows| && 0 <= k < |f.columns| ==>
           g.rows[i][k] == if k == j then ClipCell(f.rows[i][k], b) else f.rows[i][k]
  {
    assert forall i :: 0 <= i < |f.rows| ==> f.rows[i] in f.rows;
    MapColumnShape(f.rows, j, Clipper(b));
  }

  lemma UnclippedCells(f: Frame, j: nat, name: string)
    requires WellFormed(f) && j < |f.columns|
    requires DetectOutliers(f.rows, j, name).Ok? && DetectOutliers(f.rows, j, name).value.outliers == []
    ensures forall i :: 0 <= i < |f.rows| && CapBounds(f, j).Some? ==>
      ClipCell(f.rows[i][j], CapBounds(f, j).value) == f.rows[i][j]
  {
    forall i | 0 <= i < |f.rows| && CapBounds(f, j).Some?
      ensures ClipCell(f.rows[i][j], CapBounds(f, j).value) == f.rows[i][j]
    {
      assert f.rows[i] in f.rows;
    }
  }

  /** After capping a numeric column, each of its numbers lies within the bounds taken
      from the column before capping, none of them is an outlier by those bounds, and
      the missing cells are still missing. */
  lemma CapColumnWithinBounds(f: Frame, name: string)
    requires WellFormed(f) && name in f.columns && CapColumn(f, name).Ok?
    requires CapBounds(f, IndexOf(f.columns, name)).Some?
    ensures var g := CapColumn(f, name).value; var j := IndexOf(f.columns, name);
      var b := CapBounds(f, j).value;
      forall i :: 0 <= i < |g.rows| ==>
        && !IsOutlier(g.rows[i][j], b)
        && (g.rows[i][j].Num? ==> b.lower <= g.rows[i][j].n <= b.upper)
        && (g.rows[i][j].Missing? <==> f.rows[i][j].Missing?)
  {
    var g := CapColumn(f, name).value;
    var j := IndexOf(f.columns, name);
    var b := CapBounds(f, j).value;
    assert forall i :: 0 <= i < |g.rows| ==> g.rows[i][j] == ClipCell(f.rows[i][j], b);
    ClippedColumnWithin(f, g, j, b);
  }

  // A column whose cells are clipped to b holds no outlier by b, and keeps its gaps.
  lemma ClippedColumnWithin(f: Frame, g: Frame, j: nat, b: Bounds)
    requires WellFormed(f) && WellFormed(g) && j < |f.columns| == |g.columns| && |g.rows| == |f.rows|
    requires b.lower <= b.upper
    requires forall i :: 0 <= i < |g.rows| ==> g.rows[i][j] == ClipCell(f.rows[i][j], b)
    ensures forall i :: 0 <= i < |g.rows| ==>
      && !IsOutlier(g.rows[i][j], b)
      && (g.rows[i][j].Num? ==> b.lower <= g.rows[i][j].n <= b.upper)
      && (g.rows[i][j].Missing? <==> f.rows[i][j].Missing?)
  {
    forall i | 0 <= i < |g.rows|
      ensures && !IsOutlier(g.rows[i][j], b)
              && (g.rows[i][j].Num? ==> b.lower <= g.rows[i][j].n <= b.upper)
              && (g.rows[i][j].Missing? <==> f.rows[i][j].Missing?)
    {
      assert f.rows[i] in f.rows && g.rows[i] in g.rows;
    }
  }

  /** A column with no outlier is left as it is. */
  lemma CapWithoutOutliersIsIdentity(f: Frame, name: string)
    requires WellFormed(f) && name in f.columns
    requires var j := IndexOf(f.columns, name);
      HasColumn(f.rows, j) && DetectOutliers(f.rows, j, name).Ok? && DetectOutliers(f.rows, j, name).value.outliers == []
    ensures CapColumn(f, name) == Ok(f)
  {
  }

  /** When all the numbers are equal, both bounds collapse to that number. */
  lemma ConstantBounds(xs: seq<real>, v: real)
    requires |xs| > 0 && forall i :: 0 <= i < |xs| ==> xs[i] == v
    ensures IqrBounds(xs) == Bounds(v, v)
  {
    Stats.QuantileBetween(xs, 0.25, v, v);
    Stats.QuantileBetween(xs, 0.75, v, v);
  }

  /** A column whose numbers are all equal has no outlier. */
  lemma ConstantColumnHasNoOutliers(rows: seq<Row>, j: nat, name: string, v: real)
    requires HasColumn(rows, j) && IsNumeric(Column(rows, j))
    requires forall i :: 0 <= i < |rows| && rows[i][j].Num? ==> rows[i][j].n == v
    ensures DetectOutliers(rows, j, name).Ok? && DetectOutliers(rows, j, name).value.outliers == []
  {
    var col := Column(rows, j);
    var vs := NumValues(col);
    if vs != [] {
      forall i | 0 <= i < |vs| ensures vs[i] == v {
        assert vs[i] in vs;
        assert Num(vs[i]) in col;
      }
      ConstantBounds(vs, v);
    }
  }

  /** A single column holding a, 0, 0, 0. */
  function Spike(a: real): Frame {
    Frame(["x"], [[Num(a)], [Num(0.0)], [Num(0.0)], [Num(0.0)]])
  }

  /** Capping the column a, 0, 0, 0 with a < 0: Q1 = a/4 and Q3 = 0, so the lower bound
      is 5a/8, a is an outlier and becomes 5a/8, and the zeros stay. */
  lemma CapSpike(a: real)
    requires a < 0.0
    ensures WellFormed(Spike(a)) && CapColumn(Spike(a), "x") == Ok(Spike(0.625 * a))
  {
    var b := Bounds(0.625 * a, -0.375 * a);
    SpikeValues(a);
    SpikeBounds(NumValues(Column(Spike(a).rows, 0)));
    assert IsOutlier(Spike(a).rows[0][0], b);
    CapColumnClips(Spike(a), "x", b);
    SpikeClipped(a);
  }

  lemma SpikeBounds(xs: seq<real>)
    requires |xs| == 4 && xs[0] < 0.0 && xs[1] == xs[2] == xs[3] == 0.0
    ensures IqrBounds(xs) == Bounds(0.625 * xs[0], -0.375 * xs[0])
  {
    QuartilesOf(xs, 0.25 * xs[0], 0.0);
    IqrBoundsOf(xs, 0.25 * xs[0], 0.0);
  }

  // The bounds from known quartiles.
  lemma IqrBoundsOf(xs: seq<real>, q1: real, q3: real)
    requires |xs| > 0 && Stats.Quantile(xs, 0.25) == q1 && Stats.Quantile(xs, 0.75) == q3
    ensures IqrBounds(xs) == Bounds(q1 - 1.5 * (q3 - q1), q3 + 1.5 * (q3 - q1))
  {
  }

  lemma SpikeValues(a: real)
    ensures var f := Spike(a);
      && WellFormed(f) && IndexOf(f.columns, "x") == 0 && HasColumn(f.rows, 0)
      && IsNumeric(Column(f.rows, 0))
      && var vs := NumValues(Column(f.rows, 0)); |vs| == 4 && vs[0] == a && vs[1] == vs[2] == vs[3] == 0.0
  {
    var f := Spike(a);
    assert IndexOf(f.columns, "x") == 0;
    assert HasColumn(f.rows, 0);
    var col := Column(f.rows, 0);
    assert |col| == 4 && col[0] == Num(a) && col[1] == col[2] == col[3] == Num(0.0);
    NumValuesAllNumbers(col);
  }

  lemma SpikeClipped(a: real)
    requires a < 0.0
    ensures MapColumn(Spike(a).rows, 0, Clipper(Bounds(0.625 * a, -0.375 * a))) == Spike(0.625 * a).rows
  {
    var clip := Clipper(Bounds(0.625 * a, -0.375 * a));
    assert clip(Num(a)) == Num(0.625 * a);
    assert clip(Num(0.0)) == Num(0.0);
    var m := MapColumn(Spike(a).rows, 0, clip);
    assert m[0] == [Num(a)][0 := clip(Num(a))] == [Num(0.625 * a)];
    assert m[1] == [Num(0.0)][0 := clip(Num(0.0))] == [Num(0.0)];
    assert m[2] == [Num(0.0)][0 := clip(Num(0.0))] == [Num(0.0)];
    assert m[3] == [Num(0.0)][0 := clip(Num(0.0))] == [Num(0.0)];
    assert |m| == 4;
  }

  /** A numeric column with an outlier is clipped to its bounds. */
  lemma CapColumnClips(f: Frame, name: string, b: Bounds)
    requires WellFormed(f) && name in f.columns
    requires var j := IndexOf(f.columns, name);
      && HasColumn(f.rows, j) && IsNumeric(Column(f.rows, j)) && NumValues(Column(f.rows, j)) != []
      && IqrBounds(NumValues(Column(f.rows, j))) == b
      && exists i :: 0 <= i < |f.rows| && IsOutlier(f.rows[i][j], b)
    ensures CapColumn(f, name) == Ok(Frame(f.columns, MapColumn(f.rows, IndexOf(f.columns, name), Clipper(b))))
  {
  }

  /** Capping is not idempotent: the bounds are recomputed from the capped column, and
      pulling an outlier in narrows the interquartile range. The column -100, 0, 0, 0
      becomes -62.5, 0, 0, 0 and then -39.0625, 0, 0, 0: a second pass changes it again. */
  lemma CappingNotIdempotent()
    ensures CapColumn(Spike(-100.0), "x") == Ok(Spike(-62.5))
    ensures CapColumn(Spike(-62.5), "x") == Ok(Spike(-39.0625))
    ensures Spike(-62.5) != Spike(-39.0625)
  {
    CapSpike(-100.0);
    CapSpike(-62.5);
    assert Spike(-62.5).rows[0][0] != Spike(-39.0625).rows[0][0];
  }

  // Q1 and Q3 of four sorted numbers whose last three are 0.
  lemma QuartilesOf(xs: seq<real>, q1: real, q3: real)
    requires |xs| == 4 && xs[0] <= 0.0 && xs[1] == xs[2] == xs[3] == 0.0
    requires q1 == 0.25 * xs[0] && q3 == 0.0
    ensures Stats.Quantile(xs, 0.25) == q1 && Stats.Quantile(xs, 0.75) == q3
  {
    Stats.SortOfSorted(xs);
    assert Stats.Position(4, 0.25) == 0.75 && (0.75).Floor == 0;
    assert Stats.Position(4, 0.75) == 2.25 && (2.25).Floor == 2;
  }

  /** A capped column that was present holds only numbers and missing cells: a column
      with text fails its quantile. */
  lemma CapLeavesNumeric(f: Frame, name: string)
    requires WellFormed(f) && name in f.columns && CapColumn(f, name).Ok?
    ensures var g := CapColumn(f, name).value; var j := IndexOf(f.columns, name);
      HasColumn(g.rows, j) && IsNumeric(Column(g.rows, j))
  {
    CapKeepsNumeric(f, name, IndexOf(f.columns, name));
  }

  /** Capping keeps a column of numbers and missing cells such a column. */
  lemma CapKeepsNumeric(f: Frame, name: string, k: nat)
    requires WellFormed(f) && k < |f.columns| && CapColumn(f, name).Ok?
    requires HasColumn(f.rows, k) && IsNumeric(Column(f.rows, k))
    ensures HasColumn(CapColumn(f, name).value.rows, k) && IsNumeric(Column(CapColumn(f, name).value.rows, k))
  {
    var g := CapColumn(f, name).value;
    assert HasColumn(g.rows, k) by {
      forall r | r in g.rows ensures k < |r| { }
    }
    forall i | 0 <= i < |g.rows| ensures g.rows[i][k].Num? || g.rows[i][k].Missing? {
      var c := f.rows[i][k];
      assert Column(f.rows, k)[i] == c;
      assert g.rows[i][k] == c || (CapBounds(f, k).Some? && g.rows[i][k] == ClipCell(c, CapBounds(f, k).value));
    }
  }
}
