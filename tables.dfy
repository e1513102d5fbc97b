/** The script body of data_cleaning.py as it runs: one table, changed in place step by
    step, each step proved to leave the table its specification function computes. */
module Tables {
  import opened Frames
  import Dedup
  import Stats
  import Impute
  import Names
  import Dates
  import Categorical
  import Outliers
  import Pipeline

  /** What a step that may fail did: on success the table is the step's result, on
      failure the step reports the error and has not changed the table. */
  predicate Applied(r: Result<Frame>, before: Frame, after: Frame, err: Option<Error>) {
    && (r.Ok? ==> err.None? && after == r.value)
    && (r.Err? ==> err == Some(r.error) && after == before)
  }

  /** The script's `df`: column labels and rows, both replaced as the steps go. */
  class Table {
    var columns: seq<string>
    var rows: seq<Row>

    /** Every row has one cell per column. */
    predicate Valid()
      reads this
    {
      WellFormed(Frame(columns, rows))
    }

    function Value(): Frame
      reads this
    {
      Frame(columns, rows)
    }

    constructor (f: Frame)
      requires WellFormed(f)
      ensures Valid() && Value() == f
    {
      columns := f.columns;
      rows := f.rows;
    }

    /** Lines 30 and 41: counts the repeated rows, then drops them. */
    method DropDuplicates() returns (duplicates: nat)
      requires Valid()
      modifies this
      ensures Valid() && columns == old(columns) && rows == Dedup.DropDuplicates(old(rows))
      ensures duplicates == Dedup.DuplicatedCount(old(rows)) && |rows| == |old(rows)| - duplicates
    {
      duplicates := Dedup.DuplicatedCount(rows);
      Dedup.DropDuplicatesWellFormed(Value());
      Dedup.DropDuplicatesCount(rows);
      rows := Dedup.DropDuplicates(rows);
    }

    /** Lines 50-52: fills the missing income cells with the median of the others. */
    method ImputeIncome() returns (err: Option<Error>)
      requires Valid()
      modifies this
      ensures Valid() && Applied(Impute.ImputeIncome(old(Value())), old(Value()), Value(), err)
    {
      err := None;
      if Impute.IncomeColumn !in columns {
        return Some(MissingColumn(Impute.IncomeColumn));
      }
      var j := IndexOf(columns, Impute.IncomeColumn);
      var col := Column(rows, j);
      if MissingCount(col) > 0 {
        if !IsNumeric(col) {
          return Some(NotNumeric(Impute.IncomeColumn));
        }
        var present := NumValues(col);
        if present != [] {
          var median := Stats.Median(present);
          MapColumnShape(rows, j, Impute.Filler(median));
          assert Impute.ImputeIncome(Value()) == Ok(Frame(columns, MapColumn(rows, j, Impute.Filler(median))));
          rows := MapColumn(rows, j, Impute.Filler(median));
        } else {
          assert Impute.ImputeIncome(Value()) == Ok(Value());
        }
      } else {
        assert Impute.ImputeIncome(Value()) == Ok(Value());
      }
    }

    /** Line 66: standardizes every column label. */
    method StandardizeColumnNames()
      requires Valid()
      modifies this
      ensures Valid() && Value() == Names.StandardizeColumns(old(Value()))
    {
      columns := Names.StandardizeColumns(Value()).columns;
    }

    /** Line 72: replaces the date column by its parsed cells. */
    method ParseDates(parse: Cell -> Option<Cell>) returns (err: Option<Error>)
      requires Valid()
      modifies this
      ensures Valid() && Applied(Dates.ParseDates(old(Value()), parse), old(Value()), Value(), err)
    {
      var r := Dates.ParseDates(Value(), parse);
      if r.Err? {
        return Some(r.error);
      }
      rows := r.value.rows;
      err := None;
    }

    /** Lines 82 and 89: lower-cases and strips the cells of one categorical column. */
    method NormalizeCategorical(name: string) returns (err: Option<Error>)
      requires Valid()
      modifies this
      ensures Valid() && Applied(Categorical.NormalizeCategorical(old(Value()), name), old(Value()), Value(), err)
    {
      if name !in columns {
        return Some(MissingColumn(name));
      }
      var j := IndexOf(columns, name);
      MapColumnShape(rows, j, Categorical.NormalizeCell);
      rows := MapColumn(rows, j, Categorical.NormalizeCell);
      err := None;
    }

    /** Lines 112-117 for one column: detects the outliers of a present column and, when
        there are any, clips the column to the bounds. */
    method CapColumn(name: string) returns (err: Option<Error>)
      requires Valid()
      modifies this
      ensures Valid() && Applied(Outliers.CapColumn(old(Value()), name), old(Value()), Value(), err)
    {
      err := None;
      if name in columns {
        var j := IndexOf(columns, name);
        assert HasColumn(rows, j);
        var detection := Outliers.DetectOutliers(rows, j, name);
        if detection.Err? {
          return Some(detection.error);
        }
        if |detection.value.outliers| > 0 {
          var bounds := detection.value.bounds.value;
          Outliers.ClippedCells(Value(), j, bounds);
          rows := MapColumn(rows, j, Outliers.Clipper(bounds));
        }
      }
    }

    /** Lines 111-118: caps each listed column in turn; the first failure stops the loop
        and leaves the columns before it capped, as the aborted script does. */
    method CapOutliers(names: seq<string>) returns (err: Option<Error>)
      requires Valid()
      modifies this
      ensures Valid()
      ensures var r := Pipeline.CapAll(old(Value()), names);
        && (r.Ok? ==> err.None? && Value() == r.value)
        && (r.Err? ==> err == Some(r.error))
    {
      var i := 0;
      while i < |names|
        invariant 0 <= i <= |names| && Valid()
        invariant Pipeline.CapAll(old(Value()), names) == Pipeline.CapAll(Value(), names[i..])
      {
        assert names[i..][1..] == names[i + 1..];
        err := CapColumn(names[i]);
        if err.Some? {
          return;
        }
        i := i + 1;
      }
      err := None;
    }

    /** Line 133: renders one column as text when it is present. */
    method CoerceColumn(name: string)
      requires Valid()
      modifies this
      ensures Valid() && Value() == Categorical.AsStrOne(old(Value()), name)
    {
      if name in columns {
        var j := IndexOf(columns, name);
        MapColumnShape(rows, j, Categorical.AsStrCell);
        rows := MapColumn(rows, j, Categorical.AsStrCell);
      }
    }

    /** Lines 130-133: renders each listed column that is present as text. */
    method CoerceCategorical(names: seq<string>)
      requires Valid()
      modifies this
      ensures Valid() && Value() == Categorical.AsStr(old(Value()), names)
    {
      var i := 0;
      while i < |names|
        invariant 0 <= i <= |names| && Valid()
        invariant Categorical.AsStr(old(Value()), names) == Categorical.AsStr(Value(), names[i..])
      {
        assert names[i..][1..] == names[i + 1..];
        CoerceColumn(names[i]);
        i := i + 1;
      }
    }
  }

  /** The script from line 30 to line 133 on the table t it read: the steps in order,
      stopping at the first that fails. It reports the duplicate count of line 30, and
      leaves t holding what the specification computes. */
  method Clean(t: Table, parse: Cell -> Option<Cell>) returns (duplicates: nat, err: Option<Error>)
    requires t.Valid()
    modifies t
    ensures t.Valid()
    ensures duplicates == Dedup.DuplicatedCount(old(t.rows))
    ensures var r := Pipeline.Cleaned(old(t.Value()), parse);
      && (err.None? <==> r.Ok?)
      && (r.Ok? ==> t.Value() == r.value)
      && (r.Err? ==> err == Some(r.error))
  {
    ghost var f := t.Value();
    duplicates := t.DropDuplicates();
    err := t.ImputeIncome();
    if err.Some? {
      return;
    }
    t.StandardizeColumnNames();
    err := t.ParseDates(parse);
    if err.Some? {
      return;
    }
    ghost var dated := t.Value();
    err := t.NormalizeCategorical(Categorical.Education);
    if err.Some? {
      return;
    }
    err := t.NormalizeCategorical(Categorical.MaritalStatus);
    if err.Some? {
      return;
    }
    assert Pipeline.NormalizeCategoricals(dated) == Ok(t.Value());
    assert Pipeline.Prepared(f, parse) == Ok(t.Value());
    err := t.CapOutliers(Pipeline.NumericalColumns);
    if err.Some? {
      return;
    }
    t.CoerceCategorical(Categorical.CategoricalColumns);
  }
}
