/** Duplicate detection and removal over whole rows: `df.duplicated()` (keep the first
    occurrence) and `df.drop_duplicates()`. Rows compare cell by cell, and a missing cell
    equals a missing cell, as pandas' row hashing treats NaN. */
module Dedup {
  import opened Frames

  /** The `duplicated()` mask: a row is flagged when an equal row comes before it. */
  function Duplicated(rows: seq<Row>): (mask: seq<bool>)
    ensures |mask| == |rows|
    ensures forall i :: 0 <= i < |rows| ==> (mask[i] <==> rows[i] in rows[..i])
  {
    if rows == [] then []
    else
      var n := |rows| - 1;
      assert forall i :: 0 <= i < n ==> rows[..n][i] == rows[i] && rows[..n][..i] == rows[..i];
      Duplicated(rows[..n]) + [rows[n] in rows[..n]]
  }

  /** Number of true entries of a mask (`.sum()` of a boolean Series). */
  function CountTrue(mask: seq<bool>): (k: nat)
    ensures k <= |mask|
  {
    if mask == [] then 0
    else CountTrue(mask[..|mask| - 1]) + (if mask[|mask| - 1] then 1 else 0)
  }

  /** CountTrue counts the true entries. */
  lemma {:induction false} CountTrueCounts(mask: seq<bool>)
    ensures CountTrue(mask) == multiset(mask)[true]
  {
    if mask != [] {
      var n := |mask| - 1;
      CountTrueCounts(mask[..n]);
      assert mask == mask[..n] + [mask[n]];
    }
  }

  /** `df.duplicated().sum()`: how many rows repeat an earlier row. */
  function DuplicatedCount(rows: seq<Row>): (k: nat)
    ensures k <= |rows|
  {
    CountTrue(Duplicated(rows))
  }

  /** The line-30 count is the number of rows the duplicated() mask flags. */
  lemma DuplicatedCountIsFlagged(rows: seq<Row>)
    ensures DuplicatedCount(rows) == multiset(Duplicated(rows))[true]
  {
    CountTrueCounts(Duplicated(rows));
  }

  /** The rows whose mask entry is false, in their original order (`df[~mask]`). */
  function Keep(rows: seq<Row>, mask: seq<bool>): seq<Row>
    requires |mask| == |rows|
  {
    if rows == [] then []
    else
      var n := |rows| - 1;
      Keep(rows[..n], mask[..n]) + (if mask[n] then [] else [rows[n]])
  }

  /** `df.drop_duplicates()`: walking down the rows, keep a row unless an equal row
      came before it. */
  function DropDuplicates(rows: seq<Row>): (r: seq<Row>)
    ensures |r| <= |rows|
    ensures rows != [] ==> r != [] && r[0] == rows[0]
  {
    if rows == [] then []
    else
      var n := |rows| - 1;
      DropDuplicates(rows[..n]) + (if rows[n] in rows[..n] then [] else [rows[n]])
  }

  /** No two rows are equal. */
  predicate Distinct(rows: seq<Row>) {
    forall i, j :: 0 <= i < j < |rows| ==> rows[i] != rows[j]
  }

  /** Row i is the first occurrence of its value. */
  predicate FirstOccurrence(rows: seq<Row>, i: nat)
    requires i < |rows|
  {
    rows[i] !in rows[..i]
  }

  /** drop_duplicates is the selection of the rows that duplicated() does not flag. */
  lemma {:induction false} DropDuplicatesIsUnflaggedRows(rows: seq<Row>)
    ensures DropDuplicates(rows) == Keep(rows, Duplicated(rows))
  {
    if rows != [] {
      var n := |rows| - 1;
      DropDuplicatesIsUnflaggedRows(rows[..n]);
      assert Duplicated(rows)[..n] == Duplicated(rows[..n]);
    }
  }

  // Peeling the last row off: the last row survives exactly when it is not a repeat.
  lemma DropDuplicatesSnoc(rows: seq<Row>)
    requires rows != []
    ensures var n := |rows| - 1;
      DropDuplicates(rows) == DropDuplicates(rows[..n]) + (if rows[n] in rows[..n] then [] else [rows[n]])
  {
  }

  // Peeling the last row off adds one to the count exactly when that row is a repeat.
  lemma {:induction false} DuplicatedCountSnoc(rows: seq<Row>)
    requires rows != []
    ensures var n := |rows| - 1;
      DuplicatedCount(rows) == DuplicatedCount(rows[..n]) + (if rows[n] in rows[..n] then 1 else 0)
  {
    var n := |rows| - 1;
    var mask := Duplicated(rows);
    assert mask == Duplicated(rows[..n]) + [rows[n] in rows[..n]];
    assert mask[..n] == Duplicated(rows[..n]);
  }

  /** Dropping duplicates loses no distinct row and invents none. */
  lemma {:induction false} DropDuplicatesSameRows(rows: seq<Row>)
    ensures forall x :: x in DropDuplicates(rows) <==> x in rows
  {
    if rows != [] {
      var n := |rows| - 1;
      DropDuplicatesSnoc(rows);
      DropDuplicatesSameRows(rows[..n]);
      assert rows == rows[..n] + [rows[n]];
    }
  }

  /** After dropping duplicates no two rows are equal. */
  lemma {:induction false} DropDuplicatesDistinct(rows: seq<Row>)
    ensures Distinct(DropDuplicates(rows))
  {
    if rows != [] {
      var n := |rows| - 1;
      DropDuplicatesSnoc(rows);
      DropDuplicatesDistinct(rows[..n]);
      DropDuplicatesSameRows(rows[..n]);
    }
  }

  /** The number of rows removed is the `duplicated()` count taken beforehand. */
  lemma {:induction false} DropDuplicatesCount(rows: seq<Row>)
    ensures DuplicatedCount(rows) <= |rows|
    ensures |DropDuplicates(rows)| == |rows| - DuplicatedCount(rows)
  {
    if rows != [] {
      var n := |rows| - 1;
      DropDuplicatesSnoc(rows);
      DuplicatedCountSnoc(rows);
      DropDuplicatesCount(rows[..n]);
    }
  }

  lemma IndexOfPrefix<T>(a: seq<T>, b: seq<T>, x: T)
    requires x in a
    ensures x in a + b && IndexOf(a + b, x) == IndexOf(a, x)
  {
    if a[0] != x {
      assert (a + b)[1..] == a[1..] + b;
      IndexOfPrefix(a[1..], b, x);
    }
  }

  lemma IndexOfLast<T>(a: seq<T>, x: T)
    requires x !in a
    ensures x in a + [x] && IndexOf(a + [x], x) == |a|
  {
    if a != [] {
      assert (a + [x])[1..] == a[1..] + [x];
      IndexOfLast(a[1..], x);
    }
  }

  /** Survivors keep their relative order: of two first occurrences, the earlier one
      comes first in the result. */
  lemma {:induction false} DropDuplicatesOrder(rows: seq<Row>, i: nat, j: nat)
    requires i < j < |rows|
    requires FirstOccurrence(rows, i) && FirstOccurrence(rows, j)
    ensures rows[i] in DropDuplicates(rows) && rows[j] in DropDuplicates(rows)
    ensures IndexOf(DropDuplicates(rows), rows[i]) < IndexOf(DropDuplicates(rows), rows[j])
    decreases |rows|, 1
  {
    if j == |rows| - 1 {
      OrderLast(rows, i);
    } else {
      OrderInner(rows, i, j);
    }
  }

  lemma {:induction false} OrderLast(rows: seq<Row>, i: nat)
    requires i < |rows| - 1
    requires FirstOccurrence(rows, i) && FirstOccurrence(rows, |rows| - 1)
    ensures var n := |rows| - 1;
      rows[i] in DropDuplicates(rows) && rows[n] in DropDuplicates(rows)
      && IndexOf(DropDuplicates(rows), rows[i]) < IndexOf(DropDuplicates(rows), rows[n])
  {
    var n := |rows| - 1;
    var init := rows[..n];
    var d := DropDuplicates(init);
    DropDuplicatesSnoc(rows);
    assert DropDuplicates(rows) == d + [rows[n]];
    assert init[i] == rows[i];
    DropDuplicatesSameRows(init);
    IndexOfPrefix(d, [rows[n]], rows[i]);
    IndexOfLast(d, rows[n]);
  }

  lemma {:induction false} OrderInner(rows: seq<Row>, i: nat, j: nat)
    requires i < j < |rows| - 1
    requires FirstOccurrence(rows, i) && FirstOccurrence(rows, j)
    ensures rows[i] in DropDuplicates(rows) && rows[j] in DropDuplicates(rows)
    ensures IndexOf(DropDuplicates(rows), rows[i]) < IndexOf(DropDuplicates(rows), rows[j])
    decreases |rows|, 0
  {
    var n := |rows| - 1;
    var init := rows[..n];
    FirstOccurrenceInPrefix(rows, i);
    FirstOccurrenceInPrefix(rows, j);
    DropDuplicatesOrder(init, i, j);
    OrderExtends(rows, rows[i], rows[j]);
  }

  // Appending a row keeps the order of the rows already kept.
  lemma OrderExtends(rows: seq<Row>, x: Row, y: Row)
    requires |rows| > 0
    requires var d := DropDuplicates(rows[..|rows| - 1]);
      x in d && y in d && IndexOf(d, x) < IndexOf(d, y)
    ensures x in DropDuplicates(rows) && y in DropDuplicates(rows)
    ensures IndexOf(DropDuplicates(rows), x) < IndexOf(DropDuplicates(rows), y)
  {
    var n := |rows| - 1;
    var d := DropDuplicates(rows[..n]);
    var tail: seq<Row> := if rows[n] in rows[..n] then [] else [rows[n]];
    DropDuplicatesSnoc(rows);
    assert DropDuplicates(rows) == d + tail;
    OrderSurvivesAppend(d, tail, x, y);
  }

  lemma FirstOccurrenceInPrefix(rows: seq<Row>, i: nat)
    requires i < |rows| - 1 && FirstOccurrence(rows, i)
    ensures rows[..|rows| - 1][i] == rows[i] && FirstOccurrence(rows[..|rows| - 1], i)
  {
    assert rows[..|rows| - 1][..i] == rows[..i];
  }

  lemma OrderSurvivesAppend<T>(d: seq<T>, tail: seq<T>, x: T, y: T)
    requires x in d && y in d && IndexOf(d, x) < IndexOf(d, y)
    ensures x in d + tail && y in d + tail && IndexOf(d + tail, x) < IndexOf(d + tail, y)
  {
    IndexOfPrefix(d, tail, x);
    IndexOfPrefix(d, tail, y);
  }

  /** The first occurrence of every row survives, and it comes right after the rows
      kept from above it. */
  lemma DropDuplicatesKeepsFirst(rows: seq<Row>, i: nat)
    requires i < |rows| && FirstOccurrence(rows, i)
    ensures rows[i] in DropDuplicates(rows)
    ensures var above := DropDuplicates(rows[..i]);
      |above| < |DropDuplicates(rows)| && DropDuplicates(rows)[|above|] == rows[i]
  {
    DropDuplicatesPrefix(rows, i + 1);
    assert rows[..i + 1][..i] == rows[..i];
    DropDuplicatesSnoc(rows[..i + 1]);
  }

  /** The rows kept from a top part of the table are the first rows of the result. */
  lemma {:induction false} DropDuplicatesPrefix(rows: seq<Row>, k: nat)
    requires k <= |rows|
    ensures DropDuplicates(rows[..k]) <= DropDuplicates(rows)
    decreases |rows|
  {
    if k < |rows| {
      var n := |rows| - 1;
      DropDuplicatesSnoc(rows);
      assert rows[..n][..k] == rows[..k];
      DropDuplicatesPrefix(rows[..n], k);
    } else {
      assert rows[..k] == rows;
    }
  }

  /** duplicated() flags nothing exactly when all rows are distinct. */
  lemma {:induction false} NoDuplicatedIffDistinct(rows: seq<Row>)
    ensures DuplicatedCount(rows) == 0 <==> Distinct(rows)
  {
    if rows != [] {
      var n := |rows| - 1;
      DuplicatedCountSnoc(rows);
      NoDuplicatedIffDistinct(rows[..n]);
      if Distinct(rows) {
        assert Distinct(rows[..n]);
      }
      if DuplicatedCount(rows) == 0 {
        forall a, b | 0 <= a < b < |rows| ensures rows[a] != rows[b] {
          if b < n {
            assert rows[..n][a] == rows[a] && rows[..n][b] == rows[b];
          } else {
            assert rows[..n][a] == rows[a];
          }
        }
      }
    }
  }

  /** On rows that are already distinct, dropping duplicates changes nothing. */
  lemma {:induction false} DropDuplicatesOfDistinct(rows: seq<Row>)
    requires Distinct(rows)
    ensures DropDuplicates(rows) == rows
  {
    if rows != [] {
      var n := |rows| - 1;
      DropDuplicatesSnoc(rows);
      assert Distinct(rows[..n]);
      DropDuplicatesOfDistinct(rows[..n]);
      assert rows == rows[..n] + [rows[n]];
    }
  }

  /** Dropping duplicates twice is dropping them once, and leaves a zero duplicate count. */
  lemma DropDuplicatesIdempotent(rows: seq<Row>)
    ensures DropDuplicates(DropDuplicates(rows)) == DropDuplicates(rows)
    ensures DuplicatedCount(DropDuplicates(rows)) == 0
  {
    DropDuplicatesDistinct(rows);
    DropDuplicatesOfDistinct(DropDuplicates(rows));
    NoDuplicatedIffDistinct(DropDuplicates(rows));
  }

  /** Rows of the result are rows of the input, so they keep the input's width. */
  lemma DropDuplicatesWellFormed(f: Frame)
    requires WellFormed(f)
    ensures WellFormed(Frame(f.columns, DropDuplicates(f.rows)))
  {
    DropDuplicatesSameRows(f.rows);
  }
}
