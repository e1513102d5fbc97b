/** Parsing the enrollment date column (data_cleaning.py, line 72). The parser itself,
    pandas' `to_datetime` with the pattern day-month-year, is not part of this model: it
    is passed in as a function that yields the parsed cell or nothing when it rejects. */
module Dates {
  import opened Frames

  const DateColumn: string := "dt_customer"

  /** Parses the cells top to bottom; the first rejected cell aborts with its position
      and raw value. */
  function ParseCells(col: seq<Cell>, parse: Cell -> Option<Cell>): (r: Result<seq<Cell>>)
    ensures r.Ok? ==> |r.value| == |col| && forall i :: 0 <= i < |col| ==> parse(col[i]) == Some(r.value[i])
    ensures r.Ok? <==> forall i :: 0 <= i < |col| ==> parse(col[i]).Some?
    ensures r.Err? ==>
      && r.error.DateParse? && r.error.position < |col|
      && r.error.raw == col[r.error.position] && parse(col[r.error.position]).None?
      && forall i :: 0 <= i < r.error.position ==> parse(col[i]).Some?
  {
    if col == [] then Ok([])
    else
      match parse(col[0])
      case None => Err(DateParse(0, col[0]))
      case Some(c) =>
        match ParseCells(col[1..], parse)
        case Ok(rest) => Ok([c] + rest)
        case Err(e) => Err(DateParse(e.position + 1, e.raw))
  }

  /** Line 72: the date column is replaced by its parsed cells; an absent column or a
      rejected cell aborts. Nothing else changes. */
  function ParseDates(f: Frame, parse: Cell -> Option<Cell>): (r: Result<Frame>)
    requires WellFormed(f)
    ensures r.Ok? ==> WellFormed(r.value) && r.value.columns == f.columns && |r.value.rows| == |f.rows|
    ensures DateColumn !in f.columns ==> r == Err(MissingColumn(DateColumn))
    ensures DateColumn in f.columns ==>
      var j := IndexOf(f.columns, DateColumn);
      && (r.Ok? <==> forall i :: 0 <= i < |f.rows| ==> parse(f.rows[i][j]).Some?)
      && (r.Ok? ==> forall i, k :: 0 <= i < |f.rows| && 0 <= k < |f.columns| ==>
            r.value.rows[i][k] == if k == j then parse(f.rows[i][j]).value else f.rows[i][k])
  {
    if DateColumn !in f.columns then Err(MissingColumn(DateColumn))
    else
      var j := IndexOf(f.columns, DateColumn);
      assert forall i :: 0 <= i < |f.rows| ==> Column(f.rows, j)[i] == f.rows[i][j];
      var parsed :- ParseCells(Column(f.rows, j), parse);
      var g := Frame(f.columns, SetColumn(f.rows, j, parsed));
      ReplacedColumn(f, j, parsed);
      Ok(g)
  }

  lemma ReplacedColumn(f: Frame, j: nat, col: seq<Cell>)
    requires WellFormed(f) && j < |f.columns| && |col| == |f.rows|
    ensures HasColumn(f.rows, j)
    ensures var g := Frame(f.columns, SetColumn(f.rows, j, col));
      && WellFormed(g) && |g.rows| == |f.rows|
      && forall i, k :: 0 <= i < |f.rows| && 0 <= k < |f.columns| ==>
           g.rows[i][k] == if k == j then col[i] else f.rows[i][k]
  {
    assert forall i :: 0 <= i < |f.rows| ==> f.rows[i] in f.rows;
    var g := Frame(f.columns, SetColumn(f.rows, j, col));
    forall r | r in g.rows ensures |r| == |g.columns| {
      var i :| 0 <= i < |g.rows| && g.rows[i] == r;
    }
  }
}
