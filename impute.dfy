/** Filling the missing `Income` cells with the median of the present ones
    (data_cleaning.py, lines 50-52). */
module Impute {
  import opened Frames
  import Stats

  const IncomeColumn: string := "Income"

  /** `fillna(m)` on one cell. */
  function FillCell(c: Cell, m: real): (d: Cell)
    ensures !d.Missing?
    ensures c.Missing? ==> d == Num(m)
    ensures !c.Missing? ==> d == c
  {
    if c.Missing? then Num(m) else c
  }

  /** `fillna(m)`, as a function on cells. */
  function Filler(m: real): Cell -> Cell {
    c => FillCell(c, m)
  }

  /** The cells of the income column. */
  function IncomeCells(f: Frame): seq<Cell>
    requires WellFormed(f) && IncomeColumn in f.columns
  {
    Column(f.rows, IndexOf(f.columns, IncomeColumn))
  }

  /** Lines 50-52: when the income column has a missing cell, its median is taken once
      and every missing cell is filled with it. Selecting an absent column fails, and so
      does the median of a column holding text. An all-missing column has a NaN median,
      and filling with NaN leaves it as it is. */
  function ImputeIncome(f: Frame): (r: Result<Frame>)
    requires WellFormed(f)
    ensures r.Ok? ==> WellFormed(r.value) && r.value.columns == f.columns && |r.value.rows| == |f.rows|
    ensures r.Err? <==>
      IncomeColumn !in f.columns || (MissingCount(IncomeCells(f)) > 0 && !IsNumeric(IncomeCells(f)))
    ensures r.Err? ==>
      r.error == (if IncomeColumn !in f.columns then MissingColumn(IncomeColumn) else NotNumeric(IncomeColumn))
  {
    if IncomeColumn !in f.columns then Err(MissingColumn(IncomeColumn))
    else
      var j := IndexOf(f.columns, IncomeColumn);
      var col := Column(f.rows, j);
      if MissingCount(col) == 0 then Ok(f)
      else if !IsNumeric(col) then Err(NotNumeric(IncomeColumn))
      else
        var present := NumValues(col);
        if present == [] then Ok(f)
        else
          var median := Stats.Median(present);
          MapColumnShape(f.rows, j, Filler(median));
          Ok(Frame(f.columns, MapColumn(f.rows, j, Filler(median))))
  }

  /** When a cell is missing and some cell holds a number, every missing income cell
      becomes the median of the numbers present before filling, the numbers stay as they
      were, no income cell is missing afterwards, and no other column changes. */
  lemma ImputeFillsEveryGap(f: Frame)
    requires WellFormed(f) && IncomeColumn in f.columns
    requires MissingCount(IncomeCells(f)) > 0 && IsNumeric(IncomeCells(f))
    requires NumValues(IncomeCells(f)) != []
    ensures ImputeIncome(f).Ok?
    ensures var g := ImputeIncome(f).value; var j := IndexOf(f.columns, IncomeColumn);
      var median := Stats.Median(NumValues(IncomeCells(f)));
      && g.columns == f.columns && |g.rows| == |f.rows|
      && (forall i :: 0 <= i < |f.rows| ==>
            g.rows[i][j] == (if f.rows[i][j].Missing? then Num(median) else f.rows[i][j]))
      && (forall i, k :: 0 <= i < |f.rows| && 0 <= k < |f.columns| && k != j ==>
            g.rows[i][k] == f.rows[i][k])
      && MissingCount(IncomeCells(g)) == 0
  {
    var j := IndexOf(f.columns, IncomeColumn);
    var median := Stats.Median(NumValues(IncomeCells(f)));
    MappedColumn(f, j, Filler(median));
    var g := ImputeIncome(f).value;
    assert g == Frame(f.columns, MapColumn(f.rows, j, Filler(median)));
    forall i | 0 <= i < |g.rows| ensures !IncomeCells(g)[i].Missing? {
      assert IncomeCells(g)[i] == g.rows[i][j] == FillCell(f.rows[i][j], median);
    }
  }

  /** With no missing income cell the step leaves the table as it is. */
  lemma ImputeWithoutGapsIsIdentity(f: Frame)
    requires WellFormed(f) && IncomeColumn in f.columns
    requires MissingCount(IncomeCells(f)) == 0
    ensures ImputeIncome(f) == Ok(f)
  {
  }

  /** An income column whose every cell is missing has a NaN median, and filling its
      gaps with NaN leaves the table as it is. */
  lemma ImputeWithoutNumbersIsIdentity(f: Frame)
    requires WellFormed(f) && IncomeColumn in f.columns
    requires forall i :: 0 <= i < |IncomeCells(f)| ==> IncomeCells(f)[i].Missing?
    ensures ImputeIncome(f) == Ok(f)
  {
    NumValuesEmpty(IncomeCells(f));
  }

  /** The median used lies within the range of the incomes present, so the filled
      values are ones the column already spans. */
  lemma ImputedValueInRange(f: Frame, lo: real, hi: real)
    requires WellFormed(f) && IncomeColumn in f.columns
    requires NumValues(IncomeCells(f)) != []
    requires forall c :: c in IncomeCells(f) && c.Num? ==> lo <= c.n <= hi
    ensures lo <= Stats.Median(NumValues(IncomeCells(f))) <= hi
  {
    var vs := NumValues(IncomeCells(f));
    forall i | 0 <= i < |vs| ensures lo <= vs[i] <= hi {
      assert vs[i] in vs;
    }
    Stats.MedianBetween(vs, lo, hi);
  }

  /** Imputing again after a successful imputation changes nothing. */
  lemma ImputeIdempotent(f: Frame)
    requires WellFormed(f) && ImputeIncome(f).Ok?
    ensures ImputeIncome(ImputeIncome(f).value) == ImputeIncome(f)
  {
    var col := IncomeCells(f);
    if MissingCount(col) > 0 && NumValues(col) != [] {
      ImputeFillsEveryGap(f);
    }
  }
}
