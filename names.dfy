/** Standardizing the column labels (data_cleaning.py, line 66). */
module Names {
  import opened Frames
  import opened Text

  /** `df.columns = df.columns.str.lower().str.strip().str.replace(' ', '_')`: every
      label is standardized in place; the rows are not touched. */
  function StandardizeColumns(f: Frame): (g: Frame)
    ensures g.rows == f.rows && |g.columns| == |f.columns|
    ensures forall k :: 0 <= k < |f.columns| ==> g.columns[k] == StandardizeName(f.columns[k])
    ensures WellFormed(f) ==> WellFormed(g)
  {
    Frame(seq(|f.columns|, k requires 0 <= k < |f.columns| => StandardizeName(f.columns[k])), f.rows)
  }

  /** Renaming twice renames once. */
  lemma StandardizeColumnsIdempotent(f: Frame)
    ensures StandardizeColumns(StandardizeColumns(f)) == StandardizeColumns(f)
  {
    var g := StandardizeColumns(f);
    forall k | 0 <= k < |f.columns|
      ensures StandardizeName(g.columns[k]) == g.columns[k]
    {
      StandardizeNameIdempotent(f.columns[k]);
    }
  }
}
