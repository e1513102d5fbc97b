/** The cleaning steps of data_cleaning.py composed in the script's order, as functions
    on table values: the specification the mutable table of module Tables is proved
    against. */
module Pipeline {
  import opened Frames
  import Dedup
  import Impute
  import Names
  import Dates
  import Categorical
  import Outliers

  /** Lines 108-109: the columns the outlier step looks at, by their standardized labels. */
  const NumericalColumns: seq<string> :=
    ["year_birth", "income", "recency", "mntwines", "mntfruits",
     "mntmeatproducts", "mntfishproducts", "mntsweetproducts", "mntgoldprods"]

  /** Lines 111-118: the listed columns are capped one after the other; the first column
      whose quantile fails aborts the loop. */
  function CapAll(f: Frame, names: seq<string>): (r: Result<Frame>)
    requires WellFormed(f)
    ensures r.Ok? ==> WellFormed(r.value) && r.value.columns == f.columns && |r.value.rows| == |f.rows|
    decreases |names|
  {
    if names == [] then Ok(f)
    else
      var g :- Outliers.CapColumn(f, names[0]);
      CapAll(g, names[1..])
  }

  /** A column whose label is not listed keeps every cell. */
  lemma {:induction false} CapAllKeepsOthers(f: Frame, names: seq<string>, k: nat)
    requires WellFormed(f) && k < |f.columns| && f.columns[k] !in names
    requires CapAll(f, names).Ok?
    ensures forall i :: 0 <= i < |f.rows| ==> CapAll(f, names).value.rows[i][k] == f.rows[i][k]
    decreases |names|
  {
    if names != [] {
      var g := Outliers.CapColumn(f, names[0]).value;
      assert f.columns[k] !in names[1..];
      CapAllKeepsOthers(g, names[1..], k);
      if names[0] in f.columns {
        assert IndexOf(f.columns, names[0]) != k;
      }
    }
  }

  /** Every listed column that is present holds only numbers and missing cells once the
      loop has gone through: a column with text would have failed its quantile, and
      clipping keeps numbers numbers. This is why the `pd.to_numeric` pass that follows
      (lines 125-127) changes nothing. */
  lemma {:induction false} CapAllNumeric(f: Frame, names: seq<string>, name: string)
    requires WellFormed(f) && CapAll(f, names).Ok? && name in names && name in f.columns
    ensures var g := CapAll(f, names).value;
      HasColumn(g.rows, IndexOf(g.columns, name)) && IsNumeric(Column(g.rows, IndexOf(g.columns, name)))
    decreases |names|
  {
    var g := Outliers.CapColumn(f, names[0]).value;
    if name == names[0] {
      Outliers.CapLeavesNumeric(f, name);
      CapAllKeepsNumeric(g, names[1..], IndexOf(f.columns, name));
    } else {
      assert name in names[1..];
      CapAllNumeric(g, names[1..], name);
    }
  }

  lemma {:induction false} CapAllKeepsNumeric(f: Frame, names: seq<string>, k: nat)
    requires WellFormed(f) && k < |f.columns| && CapAll(f, names).Ok?
    requires HasColumn(f.rows, k) && IsNumeric(Column(f.rows, k))
    ensures HasColumn(CapAll(f, names).value.rows, k) && IsNumeric(Column(CapAll(f, names).value.rows, k))
    decreases |names|
  {
    if names != [] {
      Outliers.CapKeepsNumeric(f, names[0], k);
      CapAllKeepsNumeric(Outliers.CapColumn(f, names[0]).value, names[1..], k);
    }
  }

  /** Every listed label that is present names a column of numbers and missing cells. */
  predicate ListedNumeric(f: Frame, names: seq<string>)
    requires WellFormed(f)
  {
    forall n :: n in names && n in f.columns ==> IsNumeric(Column(f.rows, IndexOf(f.columns, n)))
  }

  /** Lines 111-118: the loop goes through exactly when every listed column present in
      the table holds only numbers and missing cells; listed labels the table lacks are
      skipped. */
  lemma {:induction false} CapAllOkIff(f: Frame, names: seq<string>)
    requires WellFormed(f)
    ensures CapAll(f, names).Ok? <==> ListedNumeric(f, names)
    decreases |names|
  {
    if names != [] {
      var c := Outliers.CapColumn(f, names[0]);
      if c.Err? {
        assert names[0] in names && names[0] in f.columns;
      } else {
        var g := c.value;
        CapAllOkIff(g, names[1..]);
        forall n | n in names[1..] && n in f.columns
          ensures IsNumeric(Column(g.rows, IndexOf(g.columns, n))) <==> IsNumeric(Column(f.rows, IndexOf(f.columns, n)))
        {
          CapColumnNumericSame(f, names[0], n);
        }
        assert names == [names[0]] + names[1..];
      }
    }
  }

  // Capping one column leaves every column exactly as numeric as it was.
  lemma CapColumnNumericSame(f: Frame, name: string, n: string)
    requires WellFormed(f) && Outliers.CapColumn(f, name).Ok? && n in f.columns
    ensures var g := Outliers.CapColumn(f, name).value; var k := IndexOf(f.columns, n);
      HasColumn(g.rows, k) && HasColumn(f.rows, k) &&
      (IsNumeric(Column(g.rows, k)) <==> IsNumeric(Column(f.rows, k)))
  {
    var g := Outliers.CapColumn(f, name).value;
    var k := IndexOf(f.columns, n);
    assert HasColumn(f.rows, k) && HasColumn(g.rows, k);
    if n == name {
      Outliers.CapLeavesNumeric(f, name);
    } else {
      CapColumnKeepsOther(f, name, k);
      assert Column(g.rows, k) == Column(f.rows, k);
    }
  }

  /** No label is listed twice. */
  predicate NoRepeats(names: seq<string>) {
    forall a, b :: 0 <= a < b < |names| ==> names[a] != names[b]
  }

  /** Lines 111-118: a listed column ends clipped to the bounds computed from its
      values before the loop (every cell is its clip, the identity when the column had
      no outlier); the columns capped before or after it do not change it. */
  lemma {:induction false} CapAllClips(f: Frame, names: seq<string>, k: nat)
    requires WellFormed(f) && k < |f.columns| && CapAll(f, names).Ok?
    requires NoRepeats(names) && f.columns[k] in names && IndexOf(f.columns, f.columns[k]) == k
    ensures forall i :: 0 <= i < |f.rows| ==>
      CapAll(f, names).value.rows[i][k] ==
        if Outliers.CapBounds(f, k).Some? then Outliers.ClipCell(f.rows[i][k], Outliers.CapBounds(f, k).value)
        else f.rows[i][k]
    decreases |names|
  {
    var g := Outliers.CapColumn(f, names[0]).value;
    assert CapAll(f, names) == CapAll(g, names[1..]);
    NoRepeatsTail(names);
    if names[0] == f.columns[k] {
      CapAllKeepsOthers(g, names[1..], k);
    } else {
      assert f.columns[k] in names[1..];
      CapColumnKeepsOther(f, names[0], k);
      CapAllClips(g, names[1..], k);
    }
  }

  // Capping another column keeps column k and its bounds.
  lemma CapColumnKeepsOther(f: Frame, name: string, k: nat)
    requires WellFormed(f) && k < |f.columns| && f.columns[k] != name && Outliers.CapColumn(f, name).Ok?
    ensures var g := Outliers.CapColumn(f, name).value;
      && (forall i :: 0 <= i < |f.rows| ==> g.rows[i][k] == f.rows[i][k])
      && Outliers.CapBounds(g, k) == Outliers.CapBounds(f, k)
  {
    var g := Outliers.CapColumn(f, name).value;
    if name in f.columns {
      assert IndexOf(f.columns, name) != k;
    }
    assert forall i :: 0 <= i < |f.rows| ==> g.rows[i][k] == f.rows[i][k];
    SameColumnSameBounds(f, g, k);
  }

  lemma NoRepeatsTail(names: seq<string>)
    requires NoRepeats(names) && names != []
    ensures NoRepeats(names[1..]) && names[0] !in names[1..]
  {
    forall m | 0 <= m < |names[1..]| ensures names[1..][m] != names[0] {
      assert names[1..][m] == names[m + 1];
    }
  }

  // Two tables that agree on column k have the same capping bounds for it.
  lemma SameColumnSameBounds(f: Frame, g: Frame, k: nat)
    requires WellFormed(f) && WellFormed(g) && k < |f.columns| && k < |g.columns|
    requires |g.rows| == |f.rows| && forall i :: 0 <= i < |f.rows| ==> g.rows[i][k] == f.rows[i][k]
    ensures Outliers.CapBounds(g, k) == Outliers.CapBounds(f, k)
  {
    assert HasColumn(f.rows, k) && HasColumn(g.rows, k);
    assert Column(g.rows, k) == Column(f.rows, k);
  }

  /** Lines 82 and 89: the two categorical columns normalized one after the other. Both
      are then present and hold only normalized cells; the labels and the row count do
      not change. */
  function NormalizeCategoricals(dated: Frame): (r: Result<Frame>)
    requires WellFormed(dated)
    ensures r.Ok? ==> WellFormed(r.value) && r.value.columns == dated.columns && |r.value.rows| == |dated.rows|
    ensures r.Ok? ==> forall name :: name in Categorical.CategoricalColumns ==>
      && name in r.value.columns
      && forall i :: 0 <= i < |r.value.rows| ==> Categorical.IsNormalized(r.value.rows[i][IndexOf(r.value.columns, name)])
  {
    var educated :- Categorical.NormalizeCategorical(dated, Categorical.Education);
    var married :- Categorical.NormalizeCategorical(educated, Categorical.MaritalStatus);
    NormalizedBeforeCapping(dated, Categorical.Education);
    NormalizedBeforeCapping(dated, Categorical.MaritalStatus);
    Ok(married)
  }

  /** Lines 30-89 on the table the script read: duplicates, income, labels, dates and
      the two categorical columns, in that order. The date parser is a parameter. The
      labels end up standardized, the only rows removed are the repeats counted at line
      30, and both categorical columns are present with every cell lower-cased and
      stripped text or missing. */
  function Prepared(f: Frame, parse: Cell -> Option<Cell>): (r: Result<Frame>)
    requires WellFormed(f)
    ensures r.Ok? ==> WellFormed(r.value)
    ensures r.Ok? ==> r.value.columns == Names.StandardizeColumns(f).columns
    ensures r.Ok? ==> |r.value.rows| == |f.rows| - Dedup.DuplicatedCount(f.rows)
    ensures r.Ok? ==> forall name :: name in Categorical.CategoricalColumns ==>
      && name in r.value.columns
      && forall i :: 0 <= i < |r.value.rows| ==> Categorical.IsNormalized(r.value.rows[i][IndexOf(r.value.columns, name)])
  {
    Dedup.DropDuplicatesWellFormed(f);
    Dedup.DropDuplicatesCount(f.rows);
    var deduplicated := Frame(f.columns, Dedup.DropDuplicates(f.rows));
    var imputed :- Impute.ImputeIncome(deduplicated);
    var renamed := Names.StandardizeColumns(imputed);
    var dated :- Dates.ParseDates(renamed, parse);
    NormalizeCategoricals(dated)
  }

  /** The script from line 30 to line 133: the steps above, then the outlier loop, then
      the rendering of the categorical columns as text. The labels end up standardized
      and the only rows removed are the repeats counted at line 30. */
  function Cleaned(f: Frame, parse: Cell -> Option<Cell>): (r: Result<Frame>)
    requires WellFormed(f)
    ensures r.Ok? ==> WellFormed(r.value)
    ensures r.Ok? ==> r.value.columns == Names.StandardizeColumns(f).columns
    ensures r.Ok? ==> |r.value.rows| == |f.rows| - Dedup.DuplicatedCount(f.rows)
  {
    var prepared :- Prepared(f, parse);
    var capped :- CapAll(prepared, NumericalColumns);
    Ok(Categorical.AsStr(capped, Categorical.CategoricalColumns))
  }

  /** Once the preparation steps went through, the script runs to its end exactly when
      every listed numerical column present holds only numbers and missing cells. */
  lemma CleanedOkIff(f: Frame, parse: Cell -> Option<Cell>)
    requires WellFormed(f) && Prepared(f, parse).Ok?
    ensures Cleaned(f, parse).Ok? <==> ListedNumeric(Prepared(f, parse).value, NumericalColumns)
  {
    CapAllOkIff(Prepared(f, parse).value, NumericalColumns);
  }

  /** Every cell of the named column is lower-cased, stripped text. */
  predicate NormalizedText(g: Frame, name: string)
    requires WellFormed(g) && name in g.columns
  {
    forall i :: 0 <= i < |g.rows| ==>
      var c := g.rows[i][IndexOf(g.columns, name)];
      c.Text? && Categorical.IsNormalized(c)
  }

  /** After the whole script, the education and marital status columns hold only text,
      lower-cased and stripped: a missing value has become the text "nan". */
  lemma CleanedCategoricalText(f: Frame, parse: Cell -> Option<Cell>, name: string)
    requires WellFormed(f) && Cleaned(f, parse).Ok? && name in Categorical.CategoricalColumns
    ensures var g := Cleaned(f, parse).value;
      name in g.columns && NormalizedText(g, name)
  {
    var prepared := Prepared(f, parse).value;
    assert CapAll(prepared, NumericalColumns).Ok?;
    var capped := CapAll(prepared, NumericalColumns).value;
    assert Cleaned(f, parse).value == Categorical.AsStr(capped, Categorical.CategoricalColumns);
    assert name in prepared.columns;
    CappedStillNormalized(prepared, name);
    RenderedAsText(capped, name);
  }

  /** Column j of g is column j of p with every cell clipped to the bounds p's column
      gives (left as it is when the column holds no number). */
  predicate ClippedFrom(p: Frame, g: Frame, j: nat)
    requires WellFormed(p) && j < |p.columns| && |g.rows| == |p.rows| && WellFormed(g) && |g.columns| == |p.columns|
  {
    var b := Outliers.CapBounds(p, j);
    forall i :: 0 <= i < |p.rows| ==>
      g.rows[i][j] == if b.Some? then Outliers.ClipCell(p.rows[i][j], b.value) else p.rows[i][j]
  }

  /** Every number in column j of g lies within the bounds p's column gives. */
  predicate NumbersWithin(p: Frame, g: Frame, j: nat)
    requires WellFormed(p) && j < |p.columns| && |g.rows| == |p.rows| && WellFormed(g) && |g.columns| == |p.columns|
  {
    var b := Outliers.CapBounds(p, j);
    forall i :: 0 <= i < |p.rows| && g.rows[i][j].Num? ==>
      b.Some? && b.value.lower <= g.rows[i][j].n <= b.value.upper
  }

  /** What the script promises of capping, for its whole run: each numerical column that
      is present after line 89 ends up as that column, as it stood before the outlier
      loop, clipped to the bounds computed from it; so every number in it lies within
      those bounds. */
  lemma CleanedCapped(f: Frame, parse: Cell -> Option<Cell>, name: string)
    requires WellFormed(f) && Prepared(f, parse).Ok? && Cleaned(f, parse).Ok? && name in NumericalColumns
    requires name in Prepared(f, parse).value.columns
    ensures var p := Prepared(f, parse).value; var g := Cleaned(f, parse).value;
      && |g.rows| == |p.rows| && g.columns == p.columns
      && ClippedFrom(p, g, IndexOf(p.columns, name)) && NumbersWithin(p, g, IndexOf(p.columns, name))
  {
    CleanedUnfolds(f, parse);
    CappedThenRendered(Prepared(f, parse).value, name, Cleaned(f, parse).value);
  }

  lemma CleanedUnfolds(f: Frame, parse: Cell -> Option<Cell>)
    requires WellFormed(f) && Cleaned(f, parse).Ok?
    ensures Prepared(f, parse).Ok? && CapAll(Prepared(f, parse).value, NumericalColumns).Ok?
    ensures Cleaned(f, parse).value ==
      Categorical.AsStr(CapAll(Prepared(f, parse).value, NumericalColumns).value, Categorical.CategoricalColumns)
  {
  }

  // The last two steps of the script, on any table the first four produced.
  lemma CappedThenRendered(p: Frame, name: string, g: Frame)
    requires WellFormed(p) && CapAll(p, NumericalColumns).Ok? && name in NumericalColumns && name in p.columns
    requires g == Categorical.AsStr(CapAll(p, NumericalColumns).value, Categorical.CategoricalColumns)
    ensures |g.rows| == |p.rows| && g.columns == p.columns && WellFormed(g)
    ensures ClippedFrom(p, g, IndexOf(p.columns, name)) && NumbersWithin(p, g, IndexOf(p.columns, name))
  {
    var j := IndexOf(p.columns, name);
    var capped := CapAll(p, NumericalColumns).value;
    NumericalColumnsNoRepeats();
    CapAllClips(p, NumericalColumns, j);
    NumericalNotCategorical(name);
    assert ClippedFrom(p, g, j) by {
      Categorical.AsStrColumn(capped, Categorical.CategoricalColumns, j);
      assert capped.columns[j] !in Categorical.CategoricalColumns;
    }
    CappedWithinBounds(p, j, g);
  }

  // The numbers of a column whose cells are clipped lie within the bounds.
  lemma CappedWithinBounds(p: Frame, j: nat, g: Frame)
    requires WellFormed(p) && WellFormed(g) && j < |p.columns| == |g.columns| && |g.rows| == |p.rows|
    requires ClippedFrom(p, g, j)
    ensures NumbersWithin(p, g, j)
  {
    assert HasColumn(p.rows, j);
    forall i | 0 <= i < |p.rows|
      ensures Column(p.rows, j)[i] == p.rows[i][j]
    {
    }
  }

  lemma NumericalColumnsNoRepeats()
    ensures NoRepeats(NumericalColumns)
  {
  }

  lemma NumericalNotCategorical(name: string)
    requires name in NumericalColumns
    ensures name !in Categorical.CategoricalColumns
  {
    if name in Categorical.CategoricalColumns {
      CategoricalNotNumerical(name);
    }
  }

  /** After the whole script, every numerical column that is present holds only numbers
      and missing cells. */
  lemma CleanedNumeric(f: Frame, parse: Cell -> Option<Cell>, name: string)
    requires WellFormed(f) && Cleaned(f, parse).Ok? && name in NumericalColumns
    requires name in Names.StandardizeColumns(f).columns
    ensures var g := Cleaned(f, parse).value;
      name in g.columns && HasColumn(g.rows, IndexOf(g.columns, name)) && IsNumeric(Column(g.rows, IndexOf(g.columns, name)))
  {
    var prepared := Prepared(f, parse).value;
    assert CapAll(prepared, NumericalColumns).Ok?;
    var capped := CapAll(prepared, NumericalColumns).value;
    assert Cleaned(f, parse).value == Categorical.AsStr(capped, Categorical.CategoricalColumns);
    assert name in prepared.columns;
    CapAllNumeric(prepared, NumericalColumns, name);
    if name in Categorical.CategoricalColumns {
      CategoricalNotNumerical(name);
    }
    RenderedKeepsNumeric(capped, name);
  }

  // The rendering does not touch a column that is not categorical.
  lemma RenderedKeepsNumeric(capped: Frame, name: string)
    requires WellFormed(capped) && name in capped.columns && name !in Categorical.CategoricalColumns
    requires HasColumn(capped.rows, IndexOf(capped.columns, name)) && IsNumeric(Column(capped.rows, IndexOf(capped.columns, name)))
    ensures var g := Categorical.AsStr(capped, Categorical.CategoricalColumns);
      HasColumn(g.rows, IndexOf(g.columns, name)) && IsNumeric(Column(g.rows, IndexOf(g.columns, name)))
  {
    var g := Categorical.AsStr(capped, Categorical.CategoricalColumns);
    var j := IndexOf(capped.columns, name);
    Categorical.AsStrColumn(capped, Categorical.CategoricalColumns, j);
    assert HasColumn(g.rows, j);
    forall i | 0 <= i < |g.rows| ensures g.rows[i][j].Num? || g.rows[i][j].Missing? {
      assert Column(capped.rows, j)[i] == capped.rows[i][j];
    }
  }

  // Both categorical columns are normalized once the second of them has been.
  lemma NormalizedBeforeCapping(dated: Frame, name: string)
    requires WellFormed(dated) && name in Categorical.CategoricalColumns
    requires Categorical.NormalizeCategorical(dated, Categorical.Education).Ok?
    requires Categorical.NormalizeCategorical(Categorical.NormalizeCategorical(dated, Categorical.Education).value,
                                              Categorical.MaritalStatus).Ok?
    ensures var educated := Categorical.NormalizeCategorical(dated, Categorical.Education).value;
      var married := Categorical.NormalizeCategorical(educated, Categorical.MaritalStatus).value;
      && WellFormed(married) && married.columns == dated.columns && name in married.columns
      && forall i :: 0 <= i < |married.rows| ==> Categorical.IsNormalized(married.rows[i][IndexOf(married.columns, name)])
  {
    var educated := Categorical.NormalizeCategorical(dated, Categorical.Education).value;
    var married := Categorical.NormalizeCategorical(educated, Categorical.MaritalStatus).value;
    var j := IndexOf(dated.columns, name);
    if name == Categorical.Education {
      var m := IndexOf(dated.columns, Categorical.MaritalStatus);
      assert j != m;
      forall i | 0 <= i < |married.rows| ensures Categorical.IsNormalized(married.rows[i][j]) {
        assert married.rows[i][j] == educated.rows[i][j];
      }
    }
  }

  /** No categorical column is among the numerical ones. */
  lemma CategoricalNotNumerical(name: string)
    requires name in Categorical.CategoricalColumns
    ensures name !in NumericalColumns
  {
    assert name == Categorical.Education || name == Categorical.MaritalStatus;
  }

  // The outlier loop leaves a normalized categorical column alone.
  lemma CappedStillNormalized(married: Frame, name: string)
    requires WellFormed(married) && name in Categorical.CategoricalColumns && name in married.columns
    requires forall i :: 0 <= i < |married.rows| ==> Categorical.IsNormalized(married.rows[i][IndexOf(married.columns, name)])
    requires CapAll(married, NumericalColumns).Ok?
    ensures var capped := CapAll(married, NumericalColumns).value;
      forall i :: 0 <= i < |capped.rows| ==> Categorical.IsNormalized(capped.rows[i][IndexOf(capped.columns, name)])
  {
    CategoricalNotNumerical(name);
    CapAllKeepsOthers(married, NumericalColumns, IndexOf(married.columns, name));
  }

  // The rendering turns each cell of a normalized categorical column into normalized text.
  lemma RenderedAsText(capped: Frame, name: string)
    requires WellFormed(capped) && name in Categorical.CategoricalColumns && name in capped.columns
    requires forall i :: 0 <= i < |capped.rows| ==> Categorical.IsNormalized(capped.rows[i][IndexOf(capped.columns, name)])
    ensures var g := Categorical.AsStr(capped, Categorical.CategoricalColumns);
      forall i :: 0 <= i < |g.rows| ==>
        g.rows[i][IndexOf(g.columns, name)].Text? && Categorical.IsNormalized(g.rows[i][IndexOf(g.columns, name)])
  {
    var g := Categorical.AsStr(capped, Categorical.CategoricalColumns);
    var j := IndexOf(capped.columns, name);
    Categorical.AsStrColumn(capped, Categorical.CategoricalColumns, j);
    forall i | 0 <= i < |g.rows| ensures g.rows[i][j].Text? && Categorical.IsNormalized(g.rows[i][j]) {
      Categorical.AsStrKeepsNormalized(capped.rows[i][j]);
    }
  }
}
