/** The record table the cleaning script works on: named columns over rows of cells,
    with pandas' missing values (NaN, NaT) made explicit. */
module Frames {

  /** One cell. `Missing` stands for NaN/NaT; numbers are exact reals. */
  datatype Cell =
    | Missing
    | Num(n: real)
    | Text(s: string)
    | Date(year: int, month: int, day: int)

  type Row = seq<Cell>

  /** A table value: its column labels and its rows, in order. */
  datatype Frame = Frame(columns: seq<string>, rows: seq<Row>)

  /** The conditions on which the script aborts. */
  datatype Error =
    | MissingColumn(name: string)          // a KeyError from df[name]
    | NotNumeric(name: string)             // a TypeError from median or quantile on text cells
    | DateParse(position: nat, raw: Cell)  // to_datetime rejecting the cell at this position

  datatype Option<T> = None | Some(value: T)

  datatype Result<T> = Ok(value: T) | Err(error: Error) {
    predicate IsFailure() { Err? }

    function PropagateFailure<U>(): Result<U>
      requires Err?
    {
      Err(error)
    }

    function Extract(): T
      requires Ok?
    {
      value
    }
  }

  /** Every row has one cell per column. */
  predicate WellFormed(f: Frame) {
    forall r :: r in f.rows ==> |r| == |f.columns|
  }

  /** Every row has a cell at index j. */
  predicate HasColumn(rows: seq<Row>, j: nat) {
    forall r :: r in rows ==> j < |r|
  }

  /** Position of the first column label equal to x: the column df[x] selects when x
      labels a single column. */
  function IndexOf<T(==)>(s: seq<T>, x: T): (i: nat)
    requires x in s
    ensures i < |s| && s[i] == x && x !in s[..i]
  {
    if s[0] == x then 0
    else
      var k := IndexOf(s[1..], x);
      assert s[..k + 1] == [s[0]] + s[1..][..k];
      k + 1
  }

  /** The cells of column j, top to bottom. */
  function Column(rows: seq<Row>, j: nat): seq<Cell>
    requires HasColumn(rows, j)
  {
    seq(|rows|, i requires 0 <= i < |rows| => rows[i][j])
  }

  /** The rows with the cell of column j replaced by g of it (df[col] = df[col].op()). */
  function MapColumn(rows: seq<Row>, j: nat, g: Cell -> Cell): seq<Row>
    requires HasColumn(rows, j)
  {
    seq(|rows|, i requires 0 <= i < |rows| => rows[i][j := g(rows[i][j])])
  }

  /** The rows with column j replaced by the cells of col. */
  function SetColumn(rows: seq<Row>, j: nat, col: seq<Cell>): seq<Row>
    requires HasColumn(rows, j) && |col| == |rows|
  {
    seq(|rows|, i requires 0 <= i < |rows| => rows[i][j := col[i]])
  }

  lemma MapColumnShape(rows: seq<Row>, j: nat, g: Cell -> Cell)
    requires HasColumn(rows, j)
    ensures |MapColumn(rows, j, g)| == |rows|
    ensures forall i :: 0 <= i < |rows| ==> |MapColumn(rows, j, g)[i]| == |rows[i]|
    ensures forall r :: r in MapColumn(rows, j, g) ==> j < |r|
  {
    var m := MapColumn(rows, j, g);
    forall r | r in m ensures j < |r| {
      var i :| 0 <= i < |m| && m[i] == r;
    }
  }

  /** Replacing column j of a table by g of its cells keeps the table's shape and
      changes no other column. */
  lemma MappedColumn(f: Frame, j: nat, g: Cell -> Cell)
    requires WellFormed(f) && j < |f.columns|
    ensures HasColumn(f.rows, j)
    ensures var h := Frame(f.columns, MapColumn(f.rows, j, g));
      && WellFormed(h) && |h.rows| == |f.rows|
      && forall i, k :: 0 <= i < |f.rows| && 0 <= k < |f.columns| ==>
           h.rows[i][k] == if k == j then g(f.rows[i][j]) else f.rows[i][k]
  {
    assert forall i :: 0 <= i < |f.rows| ==> f.rows[i] in f.rows;
    MapColumnShape(f.rows, j, g);
    var h := Frame(f.columns, MapColumn(f.rows, j, g));
    forall r | r in h.rows ensures |r| == |h.columns| {
      var i :| 0 <= i < |h.rows| && h.rows[i] == r;
    }
  }

  /** A column pandas treats as numeric: numbers and missing values only. */
  predicate IsNumeric(col: seq<Cell>) {
    forall i :: 0 <= i < |col| ==> col[i].Num? || col[i].Missing?
  }

  /** `isnull().sum()` of a column. */
  function MissingCount(col: seq<Cell>): (k: nat)
    ensures k == multiset(col)[Missing]
    ensures k <= |col|
    ensures k == 0 <==> forall i :: 0 <= i < |col| ==> !col[i].Missing?
  {
    if col == [] then 0
    else
      var rest := MissingCount(col[1..]);
      assert col == [col[0]] + col[1..];
      assert forall i :: 1 <= i < |col| ==> col[i] == col[1..][i - 1];
      (if col[0].Missing? then 1 else 0) + rest
  }

  /** The non-missing numbers of a column, in order (what median and quantile look at). */
  function NumValues(col: seq<Cell>): (vs: seq<real>)
    ensures |vs| <= |col|
    ensures forall v :: v in vs <==> Num(v) in col
  {
    if col == [] then []
    else
      var rest := NumValues(col[1..]);
      assert col == [col[0]] + col[1..];
      if col[0].Num? then [col[0].n] + rest else rest
  }

  /** Each number occurs among the values exactly as often as the column holds it, so
      the median and the quantiles see every repeat. */
  lemma {:induction false} NumValuesCounts(col: seq<Cell>)
    ensures forall v :: multiset(NumValues(col))[v] == multiset(col)[Num(v)]
  {
    if col != [] {
      NumValuesCounts(col[1..]);
      assert col == [col[0]] + col[1..];
    }
  }

  /** The values keep the column's order: those of a column split in two are those of
      the top part followed by those of the bottom part. */
  lemma {:induction false} NumValuesAppend(a: seq<Cell>, b: seq<Cell>)
    ensures NumValues(a + b) == NumValues(a) + NumValues(b)
  {
    if a == [] {
      assert a + b == b;
    } else {
      assert (a + b)[0] == a[0] && (a + b)[1..] == a[1..] + b;
      NumValuesAppend(a[1..], b);
    }
  }

  lemma NumValuesEmpty(col: seq<Cell>)
    requires IsNumeric(col)
    ensures NumValues(col) == [] <==> forall i :: 0 <= i < |col| ==> col[i].Missing?
  {
    if NumValues(col) == [] {
      forall i | 0 <= i < |col| ensures col[i].Missing? {
        assert col[i] in col;
      }
    } else {
      var v := NumValues(col)[0];
      assert Num(v) in col;
    }
  }

  /** On a column of numbers only, the numbers are the cells' values, in order. */
  lemma {:induction false} NumValuesAllNumbers(col: seq<Cell>)
    requires forall i :: 0 <= i < |col| ==> col[i].Num?
    ensures |NumValues(col)| == |col|
    ensures forall i :: 0 <= i < |col| ==> NumValues(col)[i] == col[i].n
  {
    if col != [] {
      NumValuesAllNumbers(col[1..]);
    }
  }
}
