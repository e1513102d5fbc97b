/** The data-quality score printed in the final report (data_cleaning.py, lines 147-148
    and 212). */
module Quality {
  import opened Frames
  import Dedup

  /** All the cells of the table, row after row. */
  function Cells(rows: seq<Row>): seq<Cell> {
    if rows == [] then [] else Cells(rows[..|rows| - 1]) + rows[|rows| - 1]
  }

  /** `df.isnull().sum().sum()`: the per-column missing counts added up, which is the
      number of missing cells in the whole table. */
  function MissingCells(rows: seq<Row>): (k: nat)
    ensures k == 0 <==> forall i :: 0 <= i < |rows| ==> MissingCount(rows[i]) == 0
  {
    if rows == [] then 0
    else
      var n := |rows| - 1;
      assert forall i :: 0 <= i < n ==> rows[..n][i] == rows[i];
      MissingCells(rows[..n]) + MissingCount(rows[n])
  }

  /** Adding up the rows' missing counts counts every missing cell of the table once. */
  lemma {:induction false} MissingCellsCountsCells(rows: seq<Row>)
    ensures MissingCells(rows) == multiset(Cells(rows))[Missing]
  {
    if rows != [] {
      var n := |rows| - 1;
      MissingCellsCountsCells(rows[..n]);
      assert Cells(rows) == Cells(rows[..n]) + rows[n];
      assert multiset(Cells(rows)) == multiset(Cells(rows[..n])) + multiset(rows[n]);
    }
  }

  /** x / n as a percentage. */
  function Percent(x: int, n: nat): real
    requires n > 0
  {
    x as real / n as real * 100.0
  }

  /** The percentage of n is at most 100 exactly up to n, 100 exactly at n, and not
      negative exactly from 0 up. */
  lemma PercentBounds(x: int, n: nat)
    requires n > 0
    ensures Percent(x, n) <= 100.0 <==> x <= n
    ensures Percent(x, n) == 100.0 <==> x == n
    ensures 0.0 <= Percent(x, n) <==> 0 <= x
  {
    assert Percent(x, n) == x as real / n as real * 100.0;
    RatioBounds(x as real, n as real);
  }

  // a / d against 1 and 0, for a positive d.
  lemma RatioBounds(a: real, d: real)
    requires d > 0.0
    ensures a / d <= 1.0 <==> a <= d
    ensures a / d == 1.0 <==> a == d
    ensures 0.0 <= a / d <==> 0.0 <= a
  {
    var r := a / d;
    assert r * d == a;
    assert (r - 1.0) * d == a - d;
    SignOfProduct(r, d);
    SignOfProduct(r - 1.0, d);
    if r < 1.0 {
      assert a < d;
    } else if r == 1.0 {
      assert a == d;
    } else {
      assert a > d;
    }
  }

  // Multiplying by a positive number keeps the sign.
  lemma SignOfProduct(a: real, d: real)
    requires d > 0.0
    ensures a < 0.0 ==> a * d < 0.0
    ensures a == 0.0 ==> a * d == 0.0
    ensures a > 0.0 ==> a * d > 0.0
  {
  }

  /** Line 212 as written: (rows - missing cells - duplicate rows) / rows * 100. With no
      row the division is 0 / 0, which NumPy turns into NaN (here: None). The score never
      exceeds 100, and it is 100 exactly when nothing is missing or duplicated. */
  function QualityScore(f: Frame): (s: Option<real>)
    ensures s.None? <==> f.rows == []
    ensures s.Some? ==> s.value <= 100.0
    ensures s.Some? ==>
      (s.value == 100.0 <==> MissingCells(f.rows) == 0 && Dedup.DuplicatedCount(f.rows) == 0)
  {
    if f.rows == [] then None
    else
      var x := |f.rows| - MissingCells(f.rows) - Dedup.DuplicatedCount(f.rows);
      PercentBounds(x, |f.rows|);
      Some(Percent(x, |f.rows|))
  }

  /** The score as written goes below zero: it subtracts missing CELLS from a number of
      ROWS, so one row with two missing cells scores -100. */
  lemma QualityScoreCanBeNegative()
    ensures QualityScore(Frame(["a", "b"], [[Missing, Missing]])) == Some(-100.0)
  {
    var f := Frame(["a", "b"], [[Missing, Missing]]);
    ScoreOfOneRow(f);
    assert MissingCount(f.rows[0]) == 2;
    assert Percent(-1, 1) == -100.0;
  }

  // A single row is never a duplicate, so only its missing cells count against it.
  lemma ScoreOfOneRow(f: Frame)
    requires |f.rows| == 1
    ensures QualityScore(f) == Some(Percent(1 - MissingCount(f.rows[0]), 1))
  {
    assert MissingCells(f.rows) == MissingCount(f.rows[0]) by {
      assert f.rows[..0] == [];
    }
    assert Dedup.DuplicatedCount(f.rows) == 0 by {
      assert Dedup.Duplicated(f.rows) == [false] && [false][..0] == [];
    }
    var x := |f.rows| - MissingCells(f.rows) - Dedup.DuplicatedCount(f.rows);
    assert x == 1 - MissingCount(f.rows[0]);
  }

  /** The rows with no missing cell that do not repeat an earlier row. */
  function CleanRows(rows: seq<Row>): (k: nat)
    ensures k <= |rows|
  {
    if rows == [] then 0
    else
      var n := |rows| - 1;
      CleanRows(rows[..n]) + (if MissingCount(rows[n]) == 0 && rows[n] !in rows[..n] then 1 else 0)
  }

  /** Each row that is not clean has a missing cell or is a repeat, so at most
      missing + duplicates rows are not clean; all rows are clean exactly when nothing
      is missing or duplicated. */
  lemma {:induction false} CleanRowsBounds(rows: seq<Row>)
    ensures |rows| - MissingCells(rows) - Dedup.DuplicatedCount(rows) <= CleanRows(rows)
    ensures CleanRows(rows) == |rows| <==> MissingCells(rows) == 0 && Dedup.DuplicatedCount(rows) == 0
  {
    if rows != [] {
      var n := |rows| - 1;
      CleanRowsBounds(rows[..n]);
      Dedup.DuplicatedCountSnoc(rows);
    }
  }

  /** The evidently intended score: the percentage of rows that are complete and not
      duplicated. It lies between 0 and 100, is 100 exactly when nothing is missing or
      duplicated, and is never below the score as written. */
  function RowQualityScore(f: Frame): (s: Option<real>)
    ensures s.None? <==> f.rows == []
    ensures s.Some? ==> 0.0 <= s.value <= 100.0
    ensures s.Some? ==>
      (s.value == 100.0 <==> MissingCells(f.rows) == 0 && Dedup.DuplicatedCount(f.rows) == 0)
    ensures s.Some? ==> QualityScore(f).value <= s.value
  {
    if f.rows == [] then None
    else
      var n := |f.rows|;
      var clean := CleanRows(f.rows);
      CleanRowsBounds(f.rows);
      ScoresCompared(n, MissingCells(f.rows), Dedup.DuplicatedCount(f.rows), clean);
      Some(Percent(clean, n))
  }

  // The two scores side by side, for n rows, m missing cells, d duplicates and c clean rows.
  lemma ScoresCompared(n: nat, m: nat, d: nat, c: nat)
    requires n > 0 && n - m - d <= c <= n && (c == n <==> m == 0 && d == 0)
    ensures 0.0 <= Percent(c, n) <= 100.0
    ensures Percent(c, n) == 100.0 <==> m == 0 && d == 0
    ensures Percent(n - m - d, n) <= Percent(c, n)
  {
    PercentBounds(c, n);
    PercentMonotone(n - m - d, c, n);
  }

  lemma PercentMonotone(x: int, y: int, n: nat)
    requires n > 0 && x <= y
    ensures Percent(x, n) <= Percent(y, n)
  {
    var d := n as real;
    assert (y as real / d - x as real / d) * d == y as real - x as real;
    SignOfProduct(y as real / d - x as real / d, d);
  }
}
