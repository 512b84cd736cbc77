/** The grid indexer of data_preprocessing/grid.py: axis construction (the
    recursive halving of old_create_grid_axes and the equal-width axes of
    create_grid_axes), the coordinate-to-cell lookup which_grid, its inverse
    grid_to_coords, and find_cells, which labels every row of a table.
    Coordinates are exact reals, so the rounding of np.linspace does not arise. */
module Grid {
  import opened Results

  /** The exceptions the indexer raises. */
  datatype GridError =
    | PointOutsideGrid   // ValueError("Point is outside the grid bounds.")
    | EmptyAxis          // IndexError: lats[0] or lons[0] of an empty list
    | NoLonCells         // ZeroDivisionError: // and % by n_lon_cells == 0
    | IndexOutOfRange    // IndexError: lats[row] or lons[col] past either end
    | EmptyColumn        // ValueError: min() or max() of an empty column

  type Axis = seq<real>

  // ---------------------------------------------------------------------------
  // Orderings of an axis

  predicate Ascending(a: Axis) {
    forall i, j :: 0 <= i <= j < |a| ==> a[i] <= a[j]
  }

  predicate StrictlyAscending(a: Axis) {
    forall i, j :: 0 <= i < j < |a| ==> a[i] < a[j]
  }

  predicate Descending(a: Axis) {
    forall i, j :: 0 <= i <= j < |a| ==> a[i] >= a[j]
  }

  predicate StrictlyDescending(a: Axis) {
    forall i, j :: 0 <= i < j < |a| ==> a[i] > a[j]
  }

  /** `list(reversed(a))` */
  function Reverse(a: Axis): (r: Axis)
    ensures |r| == |a|
    ensures forall i :: 0 <= i < |a| ==> r[i] == a[|a| - 1 - i]
  {
    if a == [] then [] else Reverse(a[1..]) + [a[0]]
  }

  lemma ReverseReverse(a: Axis)
    ensures Reverse(Reverse(a)) == a
  {
  }

  lemma ReverseOrder(a: Axis)
    ensures Descending(a) ==> Ascending(Reverse(a))
    ensures StrictlyDescending(a) ==> StrictlyAscending(Reverse(a))
    ensures Ascending(a) ==> Descending(Reverse(a))
    ensures StrictlyAscending(a) ==> StrictlyDescending(Reverse(a))
  {
  }

  // ---------------------------------------------------------------------------
  // Axis construction

  function Pow2(n: nat): (r: nat)
    ensures r >= 1
  {
    if n == 0 then 1 else 2 * Pow2(n - 1)
  }


  /** split_range of old_create_grid_axes: halve [lo, hi] `levels` times and
      splice the two halves, dropping the left half's copy of the midpoint. */
  function SplitRange(lo: real, hi: real, levels: nat): (r: Axis)
    ensures |r| == Pow2(levels) + 1
    decreases levels
  {
    if levels == 0 then [lo, hi]
    else
      var mid := (lo + hi) / 2.0;
      var left := SplitRange(lo, mid, levels - 1);
      var right := SplitRange(mid, hi, levels - 1);
      left[..|left| - 1] + right
  }

  /** Exact-arithmetic np.linspace(start, stop, num): num equally spaced
      points from start to stop inclusive, and [start] when num == 1. */
  function Linspace(start: real, stop: real, num: nat): (r: Axis)
    ensures |r| == num
  {
    if num == 1 then [start]
    else
      var step := (stop - start) / ((num - 1) as real);
      seq(num, i => start + (i as real) * step)
  }

  /** old_create_grid_axes: both axes by recursive halving. */
  function OldCreateGridAxes(minLat: real, maxLat: real, minLon: real, maxLon: real, levels: nat): (r: (Axis, Axis))
  {
    (SplitRange(minLat, maxLat, levels), SplitRange(minLon, maxLon, levels))
  }

  /** create_grid_axes; the longitude cell count comes first. */
  function CreateGridAxes(minLat: real, maxLat: real, minLon: real, maxLon: real,
                          numLonCells: nat, numLatCells: nat): (r: (Axis, Axis))
    ensures |r.0| == numLatCells + 1 && |r.1| == numLonCells + 1
  {
    (Linspace(minLat, maxLat, numLatCells + 1), Linspace(minLon, maxLon, numLonCells + 1))
  }

  // ---------------------------------------------------------------------------
  // Properties of the axes

  /** k * s as a k-fold sum, which keeps the spacing proofs in linear arithmetic. */
  function Times(k: nat, s: real): real {
    if k == 0 then 0.0 else Times(k - 1, s) + s
  }

  lemma {:induction false} TimesSplit(a: nat, c: nat, s: real)
    requires a <= c
    ensures Times(c, s) == Times(a, s) + Times(c - a, s)
    decreases c - a
  {
    if a < c { TimesSplit(a, c - 1, s); }
  }

  lemma {:induction false} TimesIsProduct(k: nat, s: real)
    ensures Times(k, s) == (k as real) * s
  {
    if k > 0 { TimesIsProduct(k - 1, s); }
  }

  lemma SplitRangeLeftHalf(lo: real, hi: real, levels: nat, i: nat)
    requires levels > 0 && i < Pow2(levels - 1)
    ensures SplitRange(lo, hi, levels)[i] == SplitRange(lo, (lo + hi) / 2.0, levels - 1)[i]
  {
  }

  lemma SplitRangeRightHalf(lo: real, hi: real, levels: nat, i: nat)
    requires levels > 0 && Pow2(levels - 1) <= i <= Pow2(levels)
    ensures SplitRange(lo, hi, levels)[i] == SplitRange((lo + hi) / 2.0, hi, levels - 1)[i - Pow2(levels - 1)]
  {
  }

  lemma HalfWidth(lo: real, hi: real, levels: nat, s: real)
    requires levels > 0
    requires Times(Pow2(levels), s) == hi - lo
    ensures Times(Pow2(levels - 1), s) == (lo + hi) / 2.0 - lo == hi - (lo + hi) / 2.0
  {
    var p := Pow2(levels - 1);
    assert Pow2(levels) == p + p;
    TimesSplit(p, Pow2(levels), s);
  }

  /** Breakpoint i of SplitRange(lo, hi, levels) lies i bin widths s above lo. */
  lemma {:induction false} SplitRangeAt(lo: real, hi: real, levels: nat, s: real, i: nat)
    requires Times(Pow2(levels), s) == hi - lo
    requires i <= Pow2(levels)
    ensures SplitRange(lo, hi, levels)[i] == lo + Times(i, s)
    decreases levels, 1
  {
    if levels == 0 {
      assert SplitRange(lo, hi, levels) == [lo, hi];
      if i == 1 {
        assert Times(1, s) == s;
      }
    } else if i < Pow2(levels - 1) {
      var mid := (lo + hi) / 2.0;
      HalfWidth(lo, hi, levels, s);
      SplitRangeAt(lo, mid, levels - 1, s, i);
      SplitRangeLeftHalf(lo, hi, levels, i);
      var x := SplitRange(lo, hi, levels)[i];
      var y := SplitRange(lo, mid, levels - 1)[i];
      assert x == y;
    } else {
      SplitRangeAtUpper(lo, hi, levels, s, i);
    }
  }

  lemma {:induction false} SplitRangeAtUpper(lo: real, hi: real, levels: nat, s: real, i: nat)
    requires levels > 0
    requires Times(Pow2(levels), s) == hi - lo
    requires Pow2(levels - 1) <= i <= Pow2(levels)
    ensures SplitRange(lo, hi, levels)[i] == lo + Times(i, s)
    decreases levels, 0
  {
    var p := Pow2(levels - 1);
    var mid := (lo + hi) / 2.0;
    HalfWidth(lo, hi, levels, s);
    SplitRangeAt(mid, hi, levels - 1, s, i - p);
    SplitRangeRightHalf(lo, hi, levels, i);
    TimesSplit(p, i, s);
    var x := SplitRange(lo, hi, levels)[i];
    var y := SplitRange(mid, hi, levels - 1)[i - p];
    assert x == y;
  }

  /** k steps of (hi - lo) / k cover [lo, hi]. */
  lemma StepFills(lo: real, hi: real, k: nat, step: real)
    requires k >= 1 && step == (hi - lo) / (k as real)
    ensures Times(k, step) == hi - lo
  {
    var n := k as real;
    TimesIsProduct(k, step);
    assert n * step == hi - lo;
  }

  /** Breakpoint i of SplitRange, once the bin width is known to fill [lo, hi]. */
  lemma SplitRangeScaled(lo: real, hi: real, levels: nat, s: real, i: nat)
    requires Times(Pow2(levels), s) == hi - lo
    requires i <= Pow2(levels)
    ensures SplitRange(lo, hi, levels)[i] == lo + (i as real) * s
  {
    SplitRangeAt(lo, hi, levels, s, i);
    TimesIsProduct(i, s);
  }

  /** The halving recursion makes 2^levels bins of equal width: neighbouring
      breakpoints lie (hi - lo) / 2^levels apart. */
  lemma SplitRangeSpacing(lo: real, hi: real, levels: nat, i: nat)
    requires i < Pow2(levels)
    ensures SplitRange(lo, hi, levels)[i + 1] - SplitRange(lo, hi, levels)[i] == (hi - lo) / (Pow2(levels) as real)
  {
    var s := (hi - lo) / (Pow2(levels) as real);
    StepFills(lo, hi, Pow2(levels), s);
    SplitRangeAt(lo, hi, levels, s, i);
    SplitRangeAt(lo, hi, levels, s, i + 1);
  }

  /** The first breakpoint is lo, the last hi, and the two halves share the
      midpoint, which sits at index 2^(levels-1). */
  lemma SplitRangeEndpoints(lo: real, hi: real, levels: nat)
    ensures SplitRange(lo, hi, levels)[0] == lo
    ensures SplitRange(lo, hi, levels)[Pow2(levels)] == hi
    ensures levels > 0 ==> SplitRange(lo, hi, levels)[Pow2(levels - 1)] == (lo + hi) / 2.0
  {
    var s := (hi - lo) / (Pow2(levels) as real);
    StepFills(lo, hi, Pow2(levels), s);
    SplitRangeAt(lo, hi, levels, s, 0);
    SplitRangeAt(lo, hi, levels, s, Pow2(levels));
    if levels > 0 {
      HalfWidth(lo, hi, levels, s);
      SplitRangeAt(lo, hi, levels, s, Pow2(levels - 1));
    }
  }

  /** The superseded recursive construction and the equal-width one agree:
      halving `levels` times is linspace with 2^levels cells. */
  lemma SplitRangeIsLinspace(lo: real, hi: real, levels: nat)
    ensures SplitRange(lo, hi, levels) == Linspace(lo, hi, Pow2(levels) + 1)
  {
    var r := SplitRange(lo, hi, levels);
    var l := Linspace(lo, hi, Pow2(levels) + 1);
    forall i | 0 <= i < |r|
      ensures r[i] == l[i]
    {
      SplitRangeLinspaceAt(lo, hi, levels, i);
    }
  }

  lemma SplitRangeLinspaceAt(lo: real, hi: real, levels: nat, i: nat)
    requires i <= Pow2(levels)
    ensures SplitRange(lo, hi, levels)[i] == Linspace(lo, hi, Pow2(levels) + 1)[i]
  {
    var n := Pow2(levels) + 1;
    var step := (hi - lo) / ((n - 1) as real);
    StepFills(lo, hi, n - 1, step);
    SplitRangeScaled(lo, hi, levels, step, i);
    LinspaceAt(lo, hi, n, step, i);
  }

  /** Breakpoint i of a linspace axis with num > 1 points. */
  lemma LinspaceAt(start: real, stop: real, num: nat, step: real, i: nat)
    requires 1 < num && i < num
    requires step == (stop - start) / ((num - 1) as real)
    ensures Linspace(start, stop, num)[i] == start + (i as real) * step
  {
  }

  /** linspace starts at start and, with two or more points, ends exactly at
      stop; it ascends when start <= stop, strictly when start < stop, and
      descends strictly when start > stop. */
  lemma LinspaceShape(start: real, stop: real, num: nat)
    requires num >= 1
    ensures Linspace(start, stop, num)[0] == start
    ensures num >= 2 ==> Linspace(start, stop, num)[num - 1] == stop
    ensures start <= stop ==> Ascending(Linspace(start, stop, num))
    ensures start < stop ==> StrictlyAscending(Linspace(start, stop, num))
    ensures start > stop ==> StrictlyDescending(Linspace(start, stop, num))
  {
    var r := Linspace(start, stop, num);
    if num >= 2 {
      LinspaceLast(start, stop, num);
      forall i, j | 0 <= i < j < num
        ensures start < stop ==> r[i] < r[j]
        ensures start == stop ==> r[i] == r[j]
        ensures start > stop ==> r[i] > r[j]
      {
        LinspaceOrder(start, stop, num, i, j);
      }
    }
  }

  lemma LinspaceLast(start: real, stop: real, num: nat)
    requires num >= 2
    ensures Linspace(start, stop, num)[num - 1] == stop
  {
    var d := (num - 1) as real;
    var step := (stop - start) / d;
    LinspaceAt(start, stop, num, step, num - 1);
    assert d * step == stop - start;
  }

  lemma LinspaceOrder(start: real, stop: real, num: nat, i: nat, j: nat)
    requires 0 <= i < j < num
    ensures start < stop ==> Linspace(start, stop, num)[i] < Linspace(start, stop, num)[j]
    ensures start == stop ==> Linspace(start, stop, num)[i] == Linspace(start, stop, num)[j]
    ensures start > stop ==> Linspace(start, stop, num)[i] > Linspace(start, stop, num)[j]
  {
    var step := (stop - start) / ((num - 1) as real);
    QuotientSign(stop - start, (num - 1) as real);
    LinspaceAt(start, stop, num, step, i);
    LinspaceAt(start, stop, num, step, j);
    ScaleOrder(i, j, step);
  }

  lemma QuotientSign(x: real, d: real)
    requires d > 0.0
    ensures x > 0.0 ==> x / d > 0.0
    ensures x == 0.0 ==> x / d == 0.0
    ensures x < 0.0 ==> x / d < 0.0
  {
  }

  lemma ScaleOrder(i: nat, j: nat, step: real)
    requires i < j
    ensures step > 0.0 ==> (i as real) * step < (j as real) * step
    ensures step == 0.0 ==> (i as real) * step == (j as real) * step
    ensures step < 0.0 ==> (i as real) * step > (j as real) * step
  {
    assert (j as real) * step - (i as real) * step == ((j - i) as real) * step;
  }

  /** create_grid_axes returns num_lat_cells + 1 latitudes and
      num_lon_cells + 1 longitudes running from the minimum to the maximum. */
  lemma CreateGridAxesShape(minLat: real, maxLat: real, minLon: real, maxLon: real,
                            numLonCells: nat, numLatCells: nat)
    requires numLonCells >= 1 && numLatCells >= 1
    ensures var (lats, lons) := CreateGridAxes(minLat, maxLat, minLon, maxLon, numLonCells, numLatCells);
      && |lats| == numLatCells + 1 && |lons| == numLonCells + 1
      && lats[0] == minLat && lats[numLatCells] == maxLat
      && lons[0] == minLon && lons[numLonCells] == maxLon
  {
    LinspaceShape(minLat, maxLat, numLatCells + 1);
    LinspaceShape(minLon, maxLon, numLonCells + 1);
  }
  // ---------------------------------------------------------------------------
  // Locating a point: which_grid

  /** bisect.bisect_right(a, x, lo, hi) as CPython computes it. On an
      ascending list the result splits [lo, hi) into the entries <= x and
      the entries > x. */
  function BisectRight(a: Axis, x: real, lo: nat, hi: nat): (r: nat)
    requires lo <= hi <= |a|
    ensures lo <= r <= hi
    ensures Ascending(a) ==> forall i :: lo <= i < r ==> a[i] <= x
    ensures Ascending(a) ==> forall i :: r <= i < hi ==> x < a[i]
    decreases hi - lo
  {
    if lo < hi then
      var mid := (lo + hi) / 2;
      if x < a[mid] then BisectRight(a, x, lo, mid) else BisectRight(a, x, mid + 1, hi)
    else lo
  }

  function Min(a: int, b: int): int { if a <= b then a else b }
  function Max(a: int, b: int): int { if a >= b then a else b }

  /** The fix-up at the top of which_grid: an axis whose first entry exceeds
      its last is reversed. */
  function Normalize(a: Axis): (r: Axis)
    requires |a| > 0
    ensures |r| == |a|
    ensures r[0] <= r[|r| - 1]
  {
    if a[0] > a[|a| - 1] then Reverse(a) else a
  }

  /** The 0-based bin of v: the rightmost breakpoint <= v, clamped into
      [0, n - 1] for an axis of n + 1 breakpoints, n = |a| - 1. */
  function BinIndex(a: Axis, v: real): int {
    Min(Max(BisectRight(a, v, 0, |a|) - 1, 0), |a| - 2)
  }

  /** Row-major 1-based cell id of 0-based bins. */
  function CellId(latBin0: int, lonBin0: int, nLonCells: int): int {
    var latIdx := latBin0 + 1;
    var lonIdx := lonBin0 + 1;
    (latIdx - 1) * nLonCells + lonIdx
  }

  /** v lies between the two ends of the axis, whichever way it runs. */
  predicate WithinEnds(a: Axis, v: real)
    requires |a| > 0
  {
    (a[0] <= v <= a[|a| - 1]) || (a[|a| - 1] <= v <= a[0])
  }

  /** which_grid(lats, lons, lat_in, lon_in). */
  function WhichGrid(lats: Axis, lons: Axis, latIn: real, lonIn: real): (r: Result<int, GridError>)
    ensures r == Err(EmptyAxis) <==> |lats| == 0 || |lons| == 0
    ensures |lats| > 0 && |lons| > 0 ==>
      (r == Err(PointOutsideGrid) <==> !WithinEnds(lats, latIn) || !WithinEnds(lons, lonIn))
    ensures r.Ok? || r == Err(EmptyAxis) || r == Err(PointOutsideGrid)
  {
    if |lats| == 0 || |lons| == 0 then Err(EmptyAxis)
    else
      var la := Normalize(lats);
      var lo := Normalize(lons);
      var nLonCells := |lo| - 1;
      if !(la[0] <= latIn <= la[|la| - 1]) || !(lo[0] <= lonIn <= lo[|lo| - 1]) then
        Err(PointOutsideGrid)
      else
        var latBin0 := BinIndex(la, latIn);
        var lonBin0 := BinIndex(lo, lonIn);
        Ok(CellId(latBin0, lonBin0, nLonCells))
  }

  lemma CellIdBounds(latBin0: int, lonBin0: int, nLatCells: int, nLonCells: int)
    ensures nLatCells >= 1 && nLonCells >= 1 && 0 <= latBin0 < nLatCells && 0 <= lonBin0 < nLonCells ==>
      1 <= CellId(latBin0, lonBin0, nLonCells) <= nLatCells * nLonCells
  {
    if nLatCells >= 1 && nLonCells >= 1 && 0 <= latBin0 < nLatCells && 0 <= lonBin0 < nLonCells {
      assert latBin0 * nLonCells <= (nLatCells - 1) * nLonCells;
    }
  }
  // ---------------------------------------------------------------------------
  // Properties of which_grid

  /** v falls in bin b of the axis a: a[b] <= v < a[b + 1], where the last bin
      also takes its upper edge. */
  predicate InBin(a: Axis, b: int, v: real) {
    0 <= b < |a| - 1 && a[b] <= v && (v < a[b + 1] || (b == |a| - 2 && v == a[b + 1]))
  }

  /** On an ascending axis, the clamped bisect_right bin of an in-range value
      is a bin that holds it. */
  lemma BinIndexLocates(a: Axis, v: real)
    requires |a| >= 2 && Ascending(a) && a[0] <= v <= a[|a| - 1]
    ensures InBin(a, BinIndex(a, v), v)
  {
    var r := BisectRight(a, v, 0, |a|);
    assert r >= 1;
    if r == |a| {
      assert a[|a| - 2] <= v;
    } else {
      assert a[r - 1] <= v < a[r];
    }
  }

  /** On an ascending axis a value lies in at most one bin. */
  lemma InBinUnique(a: Axis, b: int, c: int, v: real)
    requires Ascending(a) && InBin(a, b, v) && InBin(a, c, v)
    ensures b == c
  {
  }

  /** The bin which_grid picks is exactly the bin that holds the value. */
  lemma BinIndexIff(a: Axis, b: int, v: real)
    requires |a| >= 2 && Ascending(a) && a[0] <= v <= a[|a| - 1]
    ensures BinIndex(a, v) == b <==> InBin(a, b, v)
  {
    BinIndexLocates(a, v);
    if InBin(a, b, v) {
      InBinUnique(a, b, BinIndex(a, v), v);
    }
  }

  /** Right-biased ties: a value on an interior breakpoint a[j] goes to the
      bin above it, and one on the top breakpoint is clamped into the last bin. */
  lemma BoundaryBins(a: Axis, j: int)
    requires |a| >= 2 && StrictlyAscending(a) && 0 <= j < |a| - 1
    ensures BinIndex(a, a[j]) == j
    ensures BinIndex(a, a[|a| - 1]) == |a| - 2
  {
    assert InBin(a, j, a[j]);
    BinIndexIff(a, j, a[j]);
    assert InBin(a, |a| - 2, a[|a| - 1]);
    BinIndexIff(a, |a| - 2, a[|a| - 1]);
  }

  /** A monotone axis normalises to an ascending one, a strictly monotone
      axis to a strictly ascending one. */
  lemma NormalizeAscends(a: Axis)
    requires |a| > 0
    ensures Ascending(a) || Descending(a) ==> Ascending(Normalize(a))
    ensures StrictlyAscending(a) || StrictlyDescending(a) ==> StrictlyAscending(Normalize(a))
  {
    ReverseOrder(a);
    if Descending(a) && a[0] <= a[|a| - 1] {
      forall i, j | 0 <= i <= j < |a|
        ensures a[i] <= a[j]
      {
        assert a[0] >= a[i] >= a[j] >= a[|a| - 1];
      }
    }
  }

  lemma NormalizeFixesAscending(a: Axis)
    requires |a| > 0 && Ascending(a)
    ensures Normalize(a) == a
  {
  }

  lemma NormalizeIdempotent(a: Axis)
    requires |a| > 0
    ensures Normalize(Normalize(a)) == Normalize(a)
  {
  }

  /** Reversing an axis whose ends differ does not change its normal form. */
  lemma NormalizeReverse(a: Axis)
    requires |a| > 0 && a[0] != a[|a| - 1]
    ensures Normalize(Reverse(a)) == Normalize(a)
  {
    ReverseReverse(a);
  }

  /** Reversing a monotone axis whose ends agree changes nothing: it is constant. */
  lemma ReverseConstant(a: Axis)
    requires |a| > 0 && a[0] == a[|a| - 1] && (Ascending(a) || Descending(a))
    ensures Reverse(a) == a
  {
    forall i | 0 <= i < |a|
      ensures Reverse(a)[i] == a[i]
    {
      assert a[i] == a[0] && a[|a| - 1 - i] == a[0];
    }
  }

  /** An axis which_grid gives the same answer for when it is reversed: empty,
      with distinct ends, or monotone. */
  predicate ReversibleAxis(a: Axis) {
    |a| == 0 || a[0] != a[|a| - 1] || Ascending(a) || Descending(a)
  }

  lemma NormalizeReversible(a: Axis)
    requires |a| > 0 && ReversibleAxis(a)
    ensures Normalize(Reverse(a)) == Normalize(a)
  {
    if a[0] != a[|a| - 1] {
      NormalizeReverse(a);
    } else {
      ReverseConstant(a);
    }
  }

  /** which_grid only sees the normal form of each axis. */
  lemma WhichGridNormalized(lats: Axis, lons: Axis, latIn: real, lonIn: real)
    requires |lats| > 0 && |lons| > 0
    ensures WhichGrid(Normalize(lats), Normalize(lons), latIn, lonIn) == WhichGrid(lats, lons, latIn, lonIn)
  {
    NormalizeIdempotent(lats);
    NormalizeIdempotent(lons);
  }

  /** Reversing either axis list, or both, leaves the result unchanged. */
  lemma WhichGridReversal(lats: Axis, lons: Axis, latIn: real, lonIn: real)
    requires ReversibleAxis(lats) && ReversibleAxis(lons)
    ensures WhichGrid(Reverse(lats), lons, latIn, lonIn) == WhichGrid(lats, lons, latIn, lonIn)
    ensures WhichGrid(lats, Reverse(lons), latIn, lonIn) == WhichGrid(lats, lons, latIn, lonIn)
    ensures WhichGrid(Reverse(lats), Reverse(lons), latIn, lonIn) == WhichGrid(lats, lons, latIn, lonIn)
  {
    if |lats| > 0 && |lons| > 0 {
      NormalizeReversible(lats);
      NormalizeReversible(lons);
      WhichGridNormalized(lats, lons, latIn, lonIn);
      WhichGridNormalized(Reverse(lats), lons, latIn, lonIn);
      WhichGridNormalized(lats, Reverse(lons), latIn, lonIn);
      WhichGridNormalized(Reverse(lats), Reverse(lons), latIn, lonIn);
    }
  }

  /** Row-major ids decode back to their bins with / and %, so distinct bin
      pairs get distinct ids. */
  lemma CellIdDecode(latBin0: int, lonBin0: int, n: int)
    requires n >= 1 && latBin0 >= 0 && 0 <= lonBin0 < n
    ensures (CellId(latBin0, lonBin0, n) - 1) / n == latBin0
    ensures (CellId(latBin0, lonBin0, n) - 1) % n == lonBin0
  {
    var x := latBin0 * n + lonBin0;
    assert CellId(latBin0, lonBin0, n) - 1 == x;
    DivModUnique(x, n, latBin0, lonBin0);
  }

  lemma DivModUnique(x: int, n: int, q: int, m: int)
    requires n >= 1 && 0 <= m < n && x == q * n + m
    ensures x / n == q && x % n == m
  {
    var d := x / n - q;
    assert n * d == m - x % n;
    MulBounds(n, d);
  }

  lemma MulBounds(n: int, d: int)
    requires n >= 1
    ensures d >= 1 ==> n * d >= n
    ensures d <= -1 ==> n * d <= -n
  {
  }

  lemma CellIdInjective(b1: int, c1: int, b2: int, c2: int, n: int)
    requires n >= 1 && b1 >= 0 && b2 >= 0 && 0 <= c1 < n && 0 <= c2 < n
    requires CellId(b1, c1, n) == CellId(b2, c2, n)
    ensures b1 == b2 && c1 == c2
  {
    CellIdDecode(b1, c1, n);
    CellIdDecode(b2, c2, n);
  }

  /** For axes of two or more breakpoints every id which_grid returns lies in
      [1, n_lat_cells * n_lon_cells]. */
  lemma WhichGridIdRange(lats: Axis, lons: Axis, latIn: real, lonIn: real)
    requires |lats| >= 2 && |lons| >= 2
    requires WhichGrid(lats, lons, latIn, lonIn).Ok?
    ensures 1 <= WhichGrid(lats, lons, latIn, lonIn).value <= (|lats| - 1) * (|lons| - 1)
  {
    var la, lo := Normalize(lats), Normalize(lons);
    CellIdBounds(BinIndex(la, latIn), BinIndex(lo, lonIn), |lats| - 1, |lons| - 1);
  }

  /** For monotone axes, the id which_grid returns names, through / and %,
      the row and the column whose bins hold the point. */
  lemma WhichGridLocates(lats: Axis, lons: Axis, latIn: real, lonIn: real)
    requires |lats| >= 2 && |lons| >= 2
    requires Ascending(lats) || Descending(lats)
    requires Ascending(lons) || Descending(lons)
    requires WhichGrid(lats, lons, latIn, lonIn).Ok?
    ensures var c, n := WhichGrid(lats, lons, latIn, lonIn).value, |lons| - 1;
      && 1 <= c <= (|lats| - 1) * n
      && InBin(Normalize(lats), (c - 1) / n, latIn)
      && InBin(Normalize(lons), (c - 1) % n, lonIn)
  {
    var la, lo := Normalize(lats), Normalize(lons);
    NormalizeAscends(lats);
    NormalizeAscends(lons);
    WhichGridNormalized(lats, lons, latIn, lonIn);
    WhichGridAscending(la, lo, latIn, lonIn);
    var b, k := BinIndex(la, latIn), BinIndex(lo, lonIn);
    BinIndexLocates(la, latIn);
    BinIndexLocates(lo, lonIn);
    CellIdDecode(b, k, |lons| - 1);
    CellIdBounds(b, k, |lats| - 1, |lons| - 1);
  }

  /** Conversely, a point in row b and column k of ascending axes gets the id
      b * n_lon_cells + k + 1. */
  lemma WhichGridOfBins(lats: Axis, lons: Axis, latIn: real, lonIn: real, b: int, k: int)
    requires Ascending(lats) && Ascending(lons)
    requires InBin(lats, b, latIn) && InBin(lons, k, lonIn)
    ensures WhichGrid(lats, lons, latIn, lonIn) == Ok(b * (|lons| - 1) + k + 1)
  {
    assert lats[0] <= lats[b] && lats[b + 1] <= lats[|lats| - 1];
    assert lons[0] <= lons[k] && lons[k + 1] <= lons[|lons| - 1];
    WhichGridAscending(lats, lons, latIn, lonIn);
    BinIndexIff(lats, b, latIn);
    BinIndexIff(lons, k, lonIn);
  }

  /** On ascending axes with the point inside, which_grid is the cell id of
      the two clamped bins. */
  lemma WhichGridAscending(lats: Axis, lons: Axis, latIn: real, lonIn: real)
    requires |lats| >= 1 && |lons| >= 1 && lats[0] <= lats[|lats| - 1] && lons[0] <= lons[|lons| - 1]
    requires lats[0] <= latIn <= lats[|lats| - 1] && lons[0] <= lonIn <= lons[|lons| - 1]
    ensures WhichGrid(lats, lons, latIn, lonIn) == Ok(CellId(BinIndex(lats, latIn), BinIndex(lons, lonIn), |lons| - 1))
  {
    assert Normalize(lats) == lats && Normalize(lons) == lons;
  }
  // ---------------------------------------------------------------------------
  // From a cell id back to its corner: grid_to_coords

  /** Python's a // d, which rounds toward negative infinity. */
  function FloorDiv(a: int, d: int): (q: int)
    requires d != 0
    ensures d > 0 ==> d * q <= a < d * q + d
    ensures d < 0 ==> d * q + d < a <= d * q
  {
    if d > 0 then a / d else (-a) / (-d)
  }

  /** Python's a % d, which takes the sign of d. */
  function FloorMod(a: int, d: int): (m: int)
    requires d != 0
    ensures a == d * FloorDiv(a, d) + m
    ensures d > 0 ==> 0 <= m < d
    ensures d < 0 ==> d < m <= 0
  {
    a - d * FloorDiv(a, d)
  }

  /** lst[i] on a Python list: a negative i counts back from the end. */
  function PyIndex(s: Axis, i: int): (r: Result<real, GridError>)
    ensures r.Ok? <==> -|s| <= i < |s|
    ensures r.Ok? ==> r.value in s
  {
    if 0 <= i < |s| then Ok(s[i])
    else if -|s| <= i < 0 then Ok(s[|s| + i])
    else Err(IndexOutOfRange)
  }

  /** grid_to_coords(cell_id, lats, lons): the breakpoints of row
      (cell_id - 1) // n_lon_cells and column (cell_id - 1) % n_lon_cells. */
  function GridToCoords(cellId: int, lats: Axis, lons: Axis): (r: Result<(real, real), GridError>)
    ensures r == Err(NoLonCells) <==> |lons| == 1
    ensures r.Ok? ==> r.value.0 in lats && r.value.1 in lons
  {
    var nLonCells := |lons| - 1;
    if nLonCells == 0 then Err(NoLonCells)
    else
      var c := cellId - 1;
      var latBin0 := FloorDiv(c, nLonCells);
      var lonBin0 := FloorMod(c, nLonCells);
      match PyIndex(lats, latBin0)
      case Err(e) => Err(e)
      case Ok(latBl) =>
        match PyIndex(lons, lonBin0)
        case Err(e) => Err(e)
        case Ok(lonBl) => Ok((latBl, lonBl))
  }

  /** For an id in [1, n_lat_cells * n_lon_cells], grid_to_coords returns the
      breakpoints of row (id - 1) / n and column (id - 1) % n, n = n_lon_cells. */
  lemma GridToCoordsInRange(c: int, lats: Axis, lons: Axis)
    requires |lats| >= 2 && |lons| >= 2
    requires 1 <= c <= (|lats| - 1) * (|lons| - 1)
    ensures var n := |lons| - 1;
      && 0 <= (c - 1) / n < |lats| - 1
      && GridToCoords(c, lats, lons) == Ok((lats[(c - 1) / n], lons[(c - 1) % n]))
  {
    var n, x := |lons| - 1, c - 1;
    var q := x / n;
    assert x == n * q + x % n;
    if q >= |lats| - 1 {
      MulMonotone(n, |lats| - 1, q);
      assert false;
    }
    assert FloorDiv(x, n) == q;
  }

  lemma MulMonotone(n: int, a: int, b: int)
    requires n >= 0 && a <= b
    ensures n * a <= n * b
  {
  }

  /** Round trip: on strictly ascending axes, which_grid of the corner that
      grid_to_coords returns for an in-range id is that id again. */
  lemma GridToCoordsRoundTrip(c: int, lats: Axis, lons: Axis)
    requires |lats| >= 2 && |lons| >= 2
    requires StrictlyAscending(lats) && StrictlyAscending(lons)
    requires 1 <= c <= (|lats| - 1) * (|lons| - 1)
    ensures GridToCoords(c, lats, lons).Ok?
    ensures var p := GridToCoords(c, lats, lons).value; WhichGrid(lats, lons, p.0, p.1) == Ok(c)
  {
    var n := |lons| - 1;
    GridToCoordsInRange(c, lats, lons);
    var b, k := (c - 1) / n, (c - 1) % n;
    assert InBin(lats, b, lats[b]);
    assert InBin(lons, k, lons[k]);
    DivModIdentity(c - 1, |lons| - 1);
    assert b * (|lons| - 1) + k + 1 == c;
    var p := GridToCoords(c, lats, lons).value;
    assert p.0 == lats[b] && p.1 == lons[k];
    WhichGridOfBins(lats, lons, p.0, p.1, b, k);
  }

  lemma DivModIdentity(x: int, n: int)
    requires n >= 1
    ensures x == (x / n) * n + x % n
  {
  }

  /** The other way round: on monotone ascending axes, grid_to_coords of the
      id of an in-bounds point is the lower-left corner of the bin pair that
      holds the point. */
  lemma GridToCoordsLowerLeft(lats: Axis, lons: Axis, latIn: real, lonIn: real, c: int)
    requires |lats| >= 2 && |lons| >= 2
    requires Ascending(lats) && Ascending(lons)
    requires WhichGrid(lats, lons, latIn, lonIn) == Ok(c)
    ensures InBin(lats, (c - 1) / (|lons| - 1), latIn) && InBin(lons, (c - 1) % (|lons| - 1), lonIn)
    ensures GridToCoords(c, lats, lons) == Ok((lats[(c - 1) / (|lons| - 1)], lons[(c - 1) % (|lons| - 1)]))
  {
    WhichGridLocates(lats, lons, latIn, lonIn);
    NormalizeFixesAscending(lats);
    NormalizeFixesAscending(lons);
    GridToCoordsInRange(c, lats, lons);
  }

  /** Id 0 is not rejected: (0 - 1) // n is -1, so the row wraps to the last
      latitude and the column to the last but one longitude. */
  lemma GridToCoordsWrapsIdZero(lats: Axis, lons: Axis)
    requires |lats| >= 1 && |lons| >= 2
    ensures GridToCoords(0, lats, lons) == Ok((lats[|lats| - 1], lons[|lons| - 2]))
  {
    var n := |lons| - 1;
    assert FloorDiv(-1, n) == -1;
  }

  /** grid_to_coords indexes the axes as given, while which_grid reverses
      descending ones: on the descending 4 x 4 axes over [38, 39] x [-122, -121],
      id 10 goes to the point (38.5, -121.25), which which_grid puts in cell 12. */
  lemma GridToCoordsIgnoresOrientation()
    ensures var lats := [39.0, 38.75, 38.5, 38.25, 38.0];
            var lons := [-121.0, -121.25, -121.5, -121.75, -122.0];
      && GridToCoords(10, lats, lons) == Ok((38.5, -121.25))
      && WhichGrid(lats, lons, 38.5, -121.25) == Ok(12)
  {
    var lats := [39.0, 38.75, 38.5, 38.25, 38.0];
    var lons := [-121.0, -121.25, -121.5, -121.75, -122.0];
    var la := [38.0, 38.25, 38.5, 38.75, 39.0];
    var lo := [-122.0, -121.75, -121.5, -121.25, -121.0];
    assert FloorDiv(9, 4) == 2 && FloorMod(9, 4) == 1;
    NormalizeDescendingExample(lats, la);
    NormalizeDescendingExample(lons, lo);
    assert InBin(la, 2, 38.5) && InBin(lo, 3, -121.25);
    WhichGridOfBins(la, lo, 38.5, -121.25, 2, 3);
    WhichGridNormalized(lats, lons, 38.5, -121.25);
  }

  lemma NormalizeDescendingExample(a: Axis, r: Axis)
    requires |a| == 5 && a[0] > a[4] && r == [a[4], a[3], a[2], a[1], a[0]]
    requires r[0] <= r[1] <= r[2] <= r[3] <= r[4]
    ensures Normalize(a) == r && Ascending(r)
  {
  }

  /** grid_to_coords with the axes put in ascending order first, as which_grid
      does. */
  function GridToCoordsNormalized(cellId: int, lats: Axis, lons: Axis): (r: Result<(real, real), GridError>)
    ensures r == Err(EmptyAxis) <==> |lats| == 0 || |lons| == 0
    ensures r.Ok? ==> r.value.0 in lats && r.value.1 in lons
  {
    if |lats| == 0 || |lons| == 0 then Err(EmptyAxis)
    else
      ReverseMembers(lats);
      ReverseMembers(lons);
      GridToCoords(cellId, Normalize(lats), Normalize(lons))
  }

  lemma ReverseMembers(a: Axis)
    ensures forall x :: x in Reverse(a) <==> x in a
  {
    forall x | x in a
      ensures x in Reverse(a)
    {
      var i :| 0 <= i < |a| && a[i] == x;
      assert Reverse(a)[|a| - 1 - i] == x;
    }
  }

  /** The corrected inverse completes the round trip on strictly monotone axes
      running either way. */
  lemma GridToCoordsNormalizedRoundTrip(c: int, lats: Axis, lons: Axis)
    requires |lats| >= 2 && |lons| >= 2
    requires StrictlyAscending(lats) || StrictlyDescending(lats)
    requires StrictlyAscending(lons) || StrictlyDescending(lons)
    requires 1 <= c <= (|lats| - 1) * (|lons| - 1)
    ensures GridToCoordsNormalized(c, lats, lons).Ok?
    ensures var p := GridToCoordsNormalized(c, lats, lons).value; WhichGrid(lats, lons, p.0, p.1) == Ok(c)
  {
    NormalizeAscends(lats);
    NormalizeAscends(lons);
    GridToCoordsRoundTrip(c, Normalize(lats), Normalize(lons));
    var p := GridToCoordsNormalized(c, lats, lons).value;
    WhichGridNormalized(lats, lons, p.0, p.1);
  }
  // ---------------------------------------------------------------------------
  // Labelling a table: find_cells

  /** min() of a non-empty column. */
  function SeqMin(s: seq<real>): (m: real)
    requires |s| > 0
    ensures m in s
    ensures forall i :: 0 <= i < |s| ==> m <= s[i]
  {
    if |s| == 1 then s[0]
    else
      var t := SeqMin(s[1..]);
      if s[0] <= t then s[0] else t
  }

  /** max() of a non-empty column. */
  function SeqMax(s: seq<real>): (m: real)
    requires |s| > 0
    ensures m in s
    ensures forall i :: 0 <= i < |s| ==> s[i] <= m
  {
    if |s| == 1 then s[0]
    else
      var t := SeqMax(s[1..]);
      if s[0] >= t then s[0] else t
  }

  /** The axes find_cells builds: num_cols longitude cells and num_rows
      latitude cells between the extremes of the two columns. */
  function ColumnAxes(latitude: seq<real>, longitude: seq<real>, numCols: nat, numRows: nat): (r: (Axis, Axis))
    requires |latitude| > 0 && |longitude| > 0
    ensures |r.0| == numRows + 1 && |r.1| == numCols + 1
  {
    CreateGridAxes(SeqMin(latitude), SeqMax(latitude), SeqMin(longitude), SeqMax(longitude), numCols, numRows)
  }

  /** Axes built from a column's extremes cover every row: with at least one
      cell each way no row is outside the grid and every id lies in
      [1, num_cols * num_rows]. */
  lemma ColumnAxesCoverColumn(latitude: seq<real>, longitude: seq<real>, numCols: nat, numRows: nat, j: int)
    requires |latitude| == |longitude| && 0 <= j < |latitude|
    requires numCols >= 1 && numRows >= 1
    ensures var (lats, lons) := ColumnAxes(latitude, longitude, numCols, numRows);
      && WhichGrid(lats, lons, latitude[j], longitude[j]).Ok?
      && 1 <= WhichGrid(lats, lons, latitude[j], longitude[j]).value <= numCols * numRows
  {
    var (lats, lons) := ColumnAxes(latitude, longitude, numCols, numRows);
    CreateGridAxesShape(SeqMin(latitude), SeqMax(latitude), SeqMin(longitude), SeqMax(longitude), numCols, numRows);
    assert WithinEnds(lats, latitude[j]) && WithinEnds(lons, longitude[j]);
    WhichGridIdRange(lats, lons, latitude[j], longitude[j]);
    assert (|lats| - 1) * (|lons| - 1) == numRows * numCols;
  }

  /** A table with latitude and longitude columns, to which find_cells adds a
      cell column in place. */
  class PointTable {
    var latitude: seq<real>
    var longitude: seq<real>
    var cell: Option<seq<int>>

    ghost predicate Valid()
      reads this
    {
      |latitude| == |longitude| && (cell.Some? ==> |cell.value| == |latitude|)
    }

    constructor (latitude: seq<real>, longitude: seq<real>)
      requires |latitude| == |longitude|
      ensures Valid()
      ensures this.latitude == latitude && this.longitude == longitude && cell == None
    {
      this.latitude := latitude;
      this.longitude := longitude;
      cell := None;
    }
  }

  /** The row-by-row df.apply(f, axis=1) of find_cells: f of every row, or the
      error of the first row for which f raises. */
  method ApplyRows<E>(latitude: seq<real>, longitude: seq<real>, f: (real, real) -> Result<int, E>)
    returns (r: Result<seq<int>, E>)
    requires |latitude| == |longitude|
    ensures r.Ok? <==> forall j :: 0 <= j < |latitude| ==> f(latitude[j], longitude[j]).Ok?
    ensures r.Ok? ==> |r.value| == |latitude|
    ensures r.Ok? ==> forall j :: 0 <= j < |latitude| ==> f(latitude[j], longitude[j]) == Ok(r.value[j])
    ensures r.Err? ==> exists j :: FirstFailure(latitude, longitude, f, j) && f(latitude[j], longitude[j]) == Err(r.error)
  {
    var cells: seq<int> := [];
    var j := 0;
    while j < |latitude|
      invariant 0 <= j <= |latitude|
      invariant |cells| == j
      invariant forall i :: 0 <= i < j ==> f(latitude[i], longitude[i]) == Ok(cells[i])
    {
      var c := f(latitude[j], longitude[j]);
      if c.Err? {
        return Err(c.error);
      }
      cells := cells + [c.value];
      j := j + 1;
    }
    r := Ok(cells);
  }

  /** Row j is the first row for which f raises. */
  predicate FirstFailure<E>(latitude: seq<real>, longitude: seq<real>, f: (real, real) -> Result<int, E>, j: int)
    requires |latitude| == |longitude|
  {
    0 <= j < |latitude| && f(latitude[j], longitude[j]).Err?
    && forall i :: 0 <= i < j ==> f(latitude[i], longitude[i]).Ok?
  }

  /** find_cells(df, num_cols, num_rows): labels every row with its which_grid
      id and returns the axes. An empty table raises at min(); a row outside
      the grid raises, and the table is then left without a cell column. */
  method FindCells(df: PointTable, numCols: nat, numRows: nat) returns (r: Result<(Axis, Axis), GridError>)
    requires df.Valid()
    modifies df
    ensures df.Valid()
    ensures df.latitude == old(df.latitude) && df.longitude == old(df.longitude)
    ensures |df.latitude| == 0 ==> r == Err(EmptyColumn)
    ensures r.Err? ==> df.cell == old(df.cell)
    ensures r.Ok? ==> |df.latitude| > 0 && r.value == ColumnAxes(df.latitude, df.longitude, numCols, numRows)
    ensures |df.latitude| > 0 ==> (r.Ok? <==> AllRowsInGrid(df.latitude, df.longitude, numCols, numRows))
    ensures r.Ok? ==> df.cell.Some? && forall j :: 0 <= j < |df.latitude| ==>
      WhichGrid(r.value.0, r.value.1, df.latitude[j], df.longitude[j]) == Ok(df.cell.value[j])
  {
    var latitude, longitude := df.latitude, df.longitude;
    if |latitude| == 0 {
      return Err(EmptyColumn);
    }
    var axes := ColumnAxes(latitude, longitude, numCols, numRows);
    var cells := ApplyRows(latitude, longitude, (lat, lon) => WhichGrid(axes.0, axes.1, lat, lon));
    if cells.Err? {
      return Err(cells.error);
    }
    df.cell := Some(cells.value);
    r := Ok(axes);
  }

  /** No row of the table falls outside the axes find_cells builds for it. */
  predicate AllRowsInGrid(latitude: seq<real>, longitude: seq<real>, numCols: nat, numRows: nat)
    requires |latitude| == |longitude| > 0
  {
    var (lats, lons) := ColumnAxes(latitude, longitude, numCols, numRows);
    forall j :: 0 <= j < |latitude| ==> WhichGrid(lats, lons, latitude[j], longitude[j]).Ok?
  }

  /** With at least one cell each way, find_cells labels every row. */
  lemma FindCellsSucceeds(latitude: seq<real>, longitude: seq<real>, numCols: nat, numRows: nat)
    requires |latitude| == |longitude| > 0
    requires numCols >= 1 && numRows >= 1
    ensures AllRowsInGrid(latitude, longitude, numCols, numRows)
  {
    forall j | 0 <= j < |latitude|
      ensures WhichGrid(ColumnAxes(latitude, longitude, numCols, numRows).0,
                        ColumnAxes(latitude, longitude, numCols, numRows).1, latitude[j], longitude[j]).Ok?
    {
      ColumnAxesCoverColumn(latitude, longitude, numCols, numRows, j);
    }
  }
}
