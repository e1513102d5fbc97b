/** The order statistics the script relies on, over exact reals: pandas' default
    (linear interpolation) quantile and the median, both over the non-missing values. */
module Stats {

  predicate Sorted(s: seq<real>) {
    forall i, j :: 0 <= i < j < |s| ==> s[i] <= s[j]
  }

  /** Places x into a sorted sequence. */
  function Insert(x: real, s: seq<real>): (r: seq<real>)
    requires Sorted(s)
    ensures Sorted(r)
    ensures |r| == |s| + 1
    ensures multiset(r) == multiset(s) + multiset{x}
  {
    if s == [] || x <= s[0] then
      ConsSorted(x, s);
      [x] + s
    else
      var rest := Insert(x, s[1..]);
      assert s == [s[0]] + s[1..];
      InsertedAboveHead(x, s, rest);
      ConsSorted(s[0], rest);
      [s[0]] + rest
  }

  lemma ConsSorted(x: real, s: seq<real>)
    requires Sorted(s) && (s == [] || x <= s[0])
    ensures Sorted([x] + s)
  {
  }

  lemma InsertedAboveHead(x: real, s: seq<real>, rest: seq<real>)
    requires Sorted(s) && s != [] && s[0] < x
    requires multiset(rest) == multiset(s[1..]) + multiset{x}
    ensures forall k :: 0 <= k < |rest| ==> s[0] <= rest[k]
  {
    forall k | 0 <= k < |rest| ensures s[0] <= rest[k] {
      assert rest[k] in multiset(rest);
      if rest[k] != x {
        assert rest[k] in multiset(s[1..]);
        var m :| 0 <= m < |s[1..]| && s[1..][m] == rest[k];
        assert s[m + 1] == rest[k];
      }
    }
  }

  /** The values in ascending order (a sorted permutation is unique, so this is the
      order any sort produces). */
  function Sort(xs: seq<real>): (r: seq<real>)
    ensures Sorted(r)
    ensures |r| == |xs|
    ensures multiset(r) == multiset(xs)
  {
    if xs == [] then []
    else
      assert xs == [xs[0]] + xs[1..];
      Insert(xs[0], Sort(xs[1..]))
  }

  /** Sorting values that are already in order leaves them as they are. */
  lemma {:induction false} SortOfSorted(xs: seq<real>)
    requires Sorted(xs)
    ensures Sort(xs) == xs
  {
    if xs != [] {
      SortOfSorted(xs[1..]);
      assert xs == [xs[0]] + xs[1..];
    }
  }

  lemma SortBounds(xs: seq<real>, lo: real, hi: real)
    requires forall i :: 0 <= i < |xs| ==> lo <= xs[i] <= hi
    ensures |Sort(xs)| == |xs|
    ensures forall k :: 0 <= k < |xs| ==> lo <= Sort(xs)[k] <= hi
  {
    var s := Sort(xs);
    forall k | 0 <= k < |s| ensures lo <= s[k] <= hi {
      assert s[k] in multiset(s);
      assert s[k] in multiset(xs);
    }
  }

  /** Linear interpolation at fractional position h of a sorted sequence:
      x[lo] + (h - lo) * (x[lo + 1] - x[lo]) with lo = floor(h). */
  function Interpolate(x: seq<real>, h: real): real
    requires |x| > 0 && 0.0 <= h <= (|x| - 1) as real
  {
    var lo := h.Floor;
    if lo + 1 < |x| then x[lo] + (h - lo as real) * (x[lo + 1] - x[lo]) else x[lo]
  }

  lemma ScaleBetween(f: real, d: real)
    requires 0.0 <= f <= 1.0 && 0.0 <= d
    ensures 0.0 <= f * d <= d
  {
  }

  lemma ScaleMonotone(f: real, g: real, d: real)
    requires f <= g && 0.0 <= d
    ensures f * d <= g * d
  {
    assert g * d - f * d == (g - f) * d;
  }

  /** The interpolated value lies between the two neighbours it interpolates. */
  lemma InterpolateBracket(x: seq<real>, h: real)
    requires |x| > 0 && 0.0 <= h <= (|x| - 1) as real && Sorted(x)
    ensures 0 <= h.Floor < |x|
    ensures x[h.Floor] <= Interpolate(x, h)
    ensures h.Floor + 1 < |x| ==> Interpolate(x, h) <= x[h.Floor + 1]
  {
    var lo := h.Floor;
    if lo + 1 < |x| {
      ScaleBetween(h - lo as real, x[lo + 1] - x[lo]);
    }
  }

  /** Interpolating further along a sorted sequence never gives a smaller value. */
  lemma InterpolateMonotone(x: seq<real>, h1: real, h2: real)
    requires |x| > 0 && Sorted(x)
    requires 0.0 <= h1 <= h2 <= (|x| - 1) as real
    ensures Interpolate(x, h1) <= Interpolate(x, h2)
  {
    var lo1, lo2 := h1.Floor, h2.Floor;
    InterpolateBracket(x, h1);
    InterpolateBracket(x, h2);
    if lo1 == lo2 {
      if lo1 + 1 < |x| {
        AffineMonotone(x[lo1], x[lo1 + 1], h1 - lo1 as real, h2 - lo1 as real);
      } else {
        assert Interpolate(x, h1) == x[lo1] == Interpolate(x, h2);
      }
    } else {
      assert lo1 + 1 <= lo2;
      assert x[lo1 + 1] <= x[lo2];
    }
  }

  // Moving further from a towards a larger b never goes back.
  lemma AffineMonotone(a: real, b: real, f1: real, f2: real)
    requires a <= b && f1 <= f2
    ensures a + f1 * (b - a) <= a + f2 * (b - a)
  {
    ScaleMonotone(f1, f2, b - a);
  }

  /** Fractional position (n - 1) * q of the q-quantile among n sorted values. */
  function Position(n: nat, q: real): (h: real)
    requires n > 0 && 0.0 <= q <= 1.0
    ensures 0.0 <= h <= (n - 1) as real
  {
    ScaleBetween(q, (n - 1) as real);
    (n - 1) as real * q
  }

  lemma PositionMonotone(n: nat, q1: real, q2: real)
    requires n > 0 && 0.0 <= q1 <= q2 <= 1.0
    ensures Position(n, q1) <= Position(n, q2)
  {
    ScaleMonotone(q1, q2, (n - 1) as real);
  }

  /** Position 0 is the first of the sorted values, and position 1 the last. */
  lemma PositionEnds(n: nat, q: real)
    requires n > 0 && 0.0 <= q <= 1.0
    ensures q == 0.0 ==> Position(n, q) == 0.0
    ensures q == 1.0 ==> Position(n, q) == (n - 1) as real
  {
  }

  /** Interpolating at the first position gives the first value, at the last the last. */
  lemma InterpolateEnds(x: seq<real>)
    requires |x| > 0
    ensures Interpolate(x, 0.0) == x[0]
    ensures Interpolate(x, (|x| - 1) as real) == x[|x| - 1]
  {
    assert (0.0).Floor == 0;
    assert ((|x| - 1) as real).Floor == |x| - 1;
  }

  /** pandas' `Series.quantile(q)` with its default linear interpolation, on the
      non-missing values xs: position (n - 1) * q of the sorted values. */
  function Quantile(xs: seq<real>, q: real): (r: real)
    requires |xs| > 0 && 0.0 <= q <= 1.0
    ensures q == 0.0 ==> r == Sort(xs)[0]
    ensures q == 1.0 ==> r == Sort(xs)[|xs| - 1]
  {
    PositionEnds(|xs|, q);
    InterpolateEnds(Sort(xs));
    Interpolate(Sort(xs), Position(|xs|, q))
  }

  /** A larger q never gives a smaller quantile; in particular Q1 <= Q3. */
  lemma QuantileMonotone(xs: seq<real>, q1: real, q2: real)
    requires |xs| > 0 && 0.0 <= q1 <= q2 <= 1.0
    ensures Quantile(xs, q1) <= Quantile(xs, q2)
  {
    PositionMonotone(|xs|, q1, q2);
    InterpolateMonotone(Sort(xs), Position(|xs|, q1), Position(|xs|, q2));
  }

  /** A quantile never leaves the range of the values. */
  lemma QuantileBetween(xs: seq<real>, q: real, lo: real, hi: real)
    requires |xs| > 0 && 0.0 <= q <= 1.0
    requires forall i :: 0 <= i < |xs| ==> lo <= xs[i] <= hi
    ensures lo <= Quantile(xs, q) <= hi
  {
    SortBounds(xs, lo, hi);
    InterpolateBracket(Sort(xs), Position(|xs|, q));
  }

  /** pandas' `Series.median()` on the non-missing values: the middle value, or the
      mean of the two middle values when their number is even. */
  function Median(xs: seq<real>): (r: real)
    requires |xs| > 0
    ensures |xs| % 2 == 1 ==> r in xs
  {
    var s := Sort(xs);
    var n := |s|;
    if n % 2 == 1 then
      assert s[n / 2] in multiset(xs);
      s[n / 2]
    else (s[n / 2 - 1] + s[n / 2]) / 2.0
  }

  /** The median is the 0.5 quantile. */
  lemma MedianIsMiddleQuantile(xs: seq<real>)
    requires |xs| > 0
    ensures Median(xs) == Quantile(xs, 0.5)
  {
    InterpolateMiddle(Sort(xs));
  }

  // Interpolating at position (n - 1) / 2 takes the middle value or the mean of the
  // two middle values.
  lemma InterpolateMiddle(s: seq<real>)
    requires |s| > 0
    ensures var n := |s|;
      Interpolate(s, Position(n, 0.5)) == if n % 2 == 1 then s[n / 2] else (s[n / 2 - 1] + s[n / 2]) / 2.0
  {
    var n := |s|;
    var h := Position(n, 0.5);
    if n % 2 == 1 {
      assert h == (n / 2) as real;
      assert h.Floor == n / 2;
    } else {
      assert h == (n / 2 - 1) as real + 0.5;
      assert h.Floor == n / 2 - 1;
    }
  }

  /** The median lies within any range that holds all the values; for values that are
      all equal it is that value. */
  lemma MedianBetween(xs: seq<real>, lo: real, hi: real)
    requires |xs| > 0
    requires forall i :: 0 <= i < |xs| ==> lo <= xs[i] <= hi
    ensures lo <= Median(xs) <= hi
  {
    MedianIsMiddleQuantile(xs);
    QuantileBetween(xs, 0.5, lo, hi);
  }
}
