/** Normalizing the categorical text columns (data_cleaning.py, lines 82 and 89) and
    rendering them as text (lines 130-133). */
module Categorical {
  import opened Frames
  import opened Text

  const Education: string := "education"
  const MaritalStatus: string := "marital_status"
  const CategoricalColumns: seq<string> := [Education, MaritalStatus]

  /** `.str.lower().str.strip()` on one cell: a string is normalized; the accessor
      yields NaN for anything that is not a string. */
  function NormalizeCell(c: Cell): (d: Cell)
    ensures IsNormalized(d)
    ensures d.Text? <==> c.Text?
  {
    if c.Text? then
      NormalizeValueIdempotent(c.s);
      Text(NormalizeValue(c.s))
    else Missing
  }

  /** A cell the normalization leaves as it is. */
  predicate IsNormalized(c: Cell) {
    c.Missing? || (c.Text? && NormalizeValue(c.s) == c.s)
  }

  /** Lines 82 and 89: `df[name] = df[name].str.lower().str.strip()`. Every cell of the
      column becomes a normalized string or missing; an absent column fails; nothing
      else changes. */
  function NormalizeCategorical(f: Frame, name: string): (r: Result<Frame>)
    requires WellFormed(f)
    ensures name !in f.columns ==> r == Err(MissingColumn(name))
    ensures name in f.columns ==>
      var j := IndexOf(f.columns, name);
      && r.Ok? && WellFormed(r.value) && r.value.columns == f.columns && |r.value.rows| == |f.rows|
      && (forall i, k :: 0 <= i < |f.rows| && 0 <= k < |f.columns| ==>
            r.value.rows[i][k] == if k == j then NormalizeCell(f.rows[i][j]) else f.rows[i][k])
      && (forall i :: 0 <= i < |f.rows| ==> IsNormalized(r.value.rows[i][j]))
  {
    if name !in f.columns then Err(MissingColumn(name))
    else
      var j := IndexOf(f.columns, name);
      MapColumnShape(f.rows, j, NormalizeCell);
      assert forall i :: 0 <= i < |f.rows| ==> f.rows[i] in f.rows;
      var g := Frame(f.columns, MapColumn(f.rows, j, NormalizeCell));
      forall i | 0 <= i < |f.rows| ensures IsNormalized(g.rows[i][j]) {
        assert g.rows[i][j] == NormalizeCell(f.rows[i][j]);
        if f.rows[i][j].Text? {
          NormalizeValueIdempotent(f.rows[i][j].s);
        }
      }
      Ok(g)
  }

  /** Normalizing a column again changes nothing. */
  lemma NormalizeCategoricalIdempotent(f: Frame, name: string)
    requires WellFormed(f) && name in f.columns
    ensures NormalizeCategorical(NormalizeCategorical(f, name).value, name) == NormalizeCategorical(f, name)
  {
    var g := NormalizeCategorical(f, name).value;
    var h := NormalizeCategorical(g, name).value;
    var j := IndexOf(f.columns, name);
    forall i | 0 <= i < |g.rows| ensures h.rows[i] == g.rows[i] {
      NormalizedUnchanged(g.rows[i][j]);
      assert g.rows[i] in g.rows && h.rows[i] in h.rows;
      assert forall k :: 0 <= k < |f.columns| ==> h.rows[i][k] == g.rows[i][k];
    }
    assert h.rows == g.rows;
  }

  lemma NormalizedUnchanged(c: Cell)
    requires IsNormalized(c)
    ensures NormalizeCell(c) == c
  {
  }

  /** `astype(str)` on one cell of a normalized column: NaN becomes the text "nan";
      a string stays as it is. */
  function AsStrCell(c: Cell): (d: Cell)
    ensures !d.Missing?
    ensures c.Missing? ==> d == Text("nan")
    ensures !c.Missing? ==> d == c
  {
    if c.Missing? then Text("nan") else c
  }

  /** Line 133 for one column name: a present column is rendered as text; the rest of
      the table keeps its cells. */
  function AsStrOne(f: Frame, name: string): (g: Frame)
    requires WellFormed(f)
    ensures WellFormed(g) && g.columns == f.columns && |g.rows| == |f.rows|
    ensures forall i, k :: 0 <= i < |f.rows| && 0 <= k < |f.columns| ==>
      g.rows[i][k] == if name in f.columns && k == IndexOf(f.columns, name) then AsStrCell(f.rows[i][k]) else f.rows[i][k]
  {
    if name in f.columns then
      var j := IndexOf(f.columns, name);
      MapColumnShape(f.rows, j, AsStrCell);
      assert forall i :: 0 <= i < |f.rows| ==> f.rows[i] in f.rows;
      Frame(f.columns, MapColumn(f.rows, j, AsStrCell))
    else f
  }

  /** Lines 130-133: each listed column that is present is rendered as text. */
  function AsStr(f: Frame, names: seq<string>): (g: Frame)
    requires WellFormed(f)
    ensures WellFormed(g) && g.columns == f.columns && |g.rows| == |f.rows|
    decreases |names|
  {
    if names == [] then f else AsStr(AsStrOne(f, names[0]), names[1..])
  }

  /** Rendering is idempotent on a cell. */
  lemma AsStrCellIdempotent(c: Cell)
    ensures AsStrCell(AsStrCell(c)) == AsStrCell(c)
  {
  }

  /** After the rendering, each cell of a listed column present in the table is the
      rendering of the cell it held; other columns keep their cells. */
  lemma {:induction false} AsStrColumn(f: Frame, names: seq<string>, j: nat)
    requires WellFormed(f) && j < |f.columns|
    ensures var g := AsStr(f, names);
      forall i :: 0 <= i < |f.rows| ==>
        g.rows[i][j] == if f.columns[j] in names && IndexOf(f.columns, f.columns[j]) == j
                        then AsStrCell(f.rows[i][j]) else f.rows[i][j]
    decreases |names|
  {
    if names != [] {
      var h := AsStrOne(f, names[0]);
      AsStrColumn(h, names[1..], j);
      assert names == [names[0]] + names[1..];
      var here := names[0] in f.columns && j == IndexOf(f.columns, names[0]);
      assert here ==> f.columns[j] == names[0];
      forall i | 0 <= i < |f.rows|
        ensures AsStr(f, names).rows[i][j] ==
          if f.columns[j] in names && IndexOf(f.columns, f.columns[j]) == j
          then AsStrCell(f.rows[i][j]) else f.rows[i][j]
      {
        assert h.rows[i][j] == if here then AsStrCell(f.rows[i][j]) else f.rows[i][j];
        AsStrCellIdempotent(f.rows[i][j]);
      }
    }
  }

  /** The text "nan" is already normalized, so a rendered normalized cell is a normalized
      string. */
  lemma AsStrKeepsNormalized(c: Cell)
    requires IsNormalized(c)
    ensures AsStrCell(c).Text? && IsNormalized(AsStrCell(c))
  {
    if c.Missing? {
      assert NoUpper("nan") && Trimmed("nan");
      LowerUnchanged("nan");
      StripUnchanged("nan");
      assert NormalizeValue("nan") == Strip(Lower("nan"));
    }
  }
}
