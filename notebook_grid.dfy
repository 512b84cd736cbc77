/** The notebook copy of the indexer, notebooks/coordinategrid/grid.py. Its
    create_grid_axes builds both axes by recursive halving (Grid.OldCreateGridAxes)
    and its which_grid is Grid.WhichGrid without the debug print; the lemmas
    here state what the two promise together. */
module NotebookGrid {
  import opened Results
  import opened Grid

  /** Both axes of the halving construction have 2^levels + 1 breakpoints,
      start at the minimum and end at the maximum, and the two halves meet at
      the midpoint. */
  lemma LevelAxesShape(minLat: real, maxLat: real, minLon: real, maxLon: real, levels: nat)
    ensures var (lats, lons) := OldCreateGridAxes(minLat, maxLat, minLon, maxLon, levels);
      && |lats| == Pow2(levels) + 1 && |lons| == Pow2(levels) + 1
      && lats[0] == minLat && lats[Pow2(levels)] == maxLat
      && lons[0] == minLon && lons[Pow2(levels)] == maxLon
      && (levels > 0 ==> lats[Pow2(levels - 1)] == (minLat + maxLat) / 2.0)
      && (levels > 0 ==> lons[Pow2(levels - 1)] == (minLon + maxLon) / 2.0)
  {
    SplitRangeEndpoints(minLat, maxLat, levels);
    SplitRangeEndpoints(minLon, maxLon, levels);
  }

  /** With min < max the breakpoints strictly ascend; with min > max they
      strictly descend, and with min == max they are all equal. */
  lemma SplitRangeOrder(lo: real, hi: real, levels: nat)
    ensures lo <= hi ==> Ascending(SplitRange(lo, hi, levels))
    ensures lo < hi ==> StrictlyAscending(SplitRange(lo, hi, levels))
    ensures lo > hi ==> StrictlyDescending(SplitRange(lo, hi, levels))
  {
    SplitRangeIsLinspace(lo, hi, levels);
    LinspaceShape(lo, hi, Pow2(levels) + 1);
  }

  /** Every halving axis is one which_grid treats the same when reversed. */
  lemma SplitRangeReversible(lo: real, hi: real, levels: nat)
    ensures ReversibleAxis(SplitRange(lo, hi, levels))
  {
    SplitRangeOrder(lo, hi, levels);
    if lo > hi {
      assert Descending(SplitRange(lo, hi, levels));
    }
  }

  /** On the halving axes, which_grid raises exactly when the point is outside
      the box spanned by the two bounds, whichever way round they are given. */
  lemma LevelGridOutsideIff(minLat: real, maxLat: real, minLon: real, maxLon: real, levels: nat,
                            latIn: real, lonIn: real)
    ensures var (lats, lons) := OldCreateGridAxes(minLat, maxLat, minLon, maxLon, levels);
      WhichGrid(lats, lons, latIn, lonIn) == Err(PointOutsideGrid) <==>
        !((minLat <= latIn <= maxLat) || (maxLat <= latIn <= minLat))
        || !((minLon <= lonIn <= maxLon) || (maxLon <= lonIn <= minLon))
  {
    LevelAxesShape(minLat, maxLat, minLon, maxLon, levels);
  }

  /** On the halving axes every id which_grid returns lies in [1, 4^levels]. */
  lemma LevelGridIds(minLat: real, maxLat: real, minLon: real, maxLon: real, levels: nat,
                     latIn: real, lonIn: real)
    ensures var (lats, lons) := OldCreateGridAxes(minLat, maxLat, minLon, maxLon, levels);
      WhichGrid(lats, lons, latIn, lonIn).Ok? ==>
        1 <= WhichGrid(lats, lons, latIn, lonIn).value <= Pow2(levels) * Pow2(levels)
  {
    var (lats, lons) := OldCreateGridAxes(minLat, maxLat, minLon, maxLon, levels);
    if WhichGrid(lats, lons, latIn, lonIn).Ok? {
      WhichGridIdRange(lats, lons, latIn, lonIn);
    }
  }

  /** Right-biased ties on ascending halving axes: a point on the lower-left
      breakpoint pair of a cell gets that cell. */
  lemma LevelGridBreakpoint(minLat: real, maxLat: real, minLon: real, maxLon: real, levels: nat,
                            b: nat, k: nat)
    requires minLat < maxLat && minLon < maxLon
    requires b < Pow2(levels) && k < Pow2(levels)
    ensures var (lats, lons) := OldCreateGridAxes(minLat, maxLat, minLon, maxLon, levels);
      WhichGrid(lats, lons, lats[b], lons[k]) == Ok(b * Pow2(levels) + k + 1)
  {
    var (lats, lons) := OldCreateGridAxes(minLat, maxLat, minLon, maxLon, levels);
    LevelAxesShape(minLat, maxLat, minLon, maxLon, levels);
    SplitRangeOrder(minLat, maxLat, levels);
    SplitRangeOrder(minLon, maxLon, levels);
    StrictAxesBin(lats, lons, lats[b], lons[k], b, k, Pow2(levels));
  }

  /** The top-right corner of the box is clamped into the last cell, 4^levels. */
  lemma LevelGridTopCorner(minLat: real, maxLat: real, minLon: real, maxLon: real, levels: nat)
    requires minLat < maxLat && minLon < maxLon
    ensures var (lats, lons) := OldCreateGridAxes(minLat, maxLat, minLon, maxLon, levels);
      WhichGrid(lats, lons, maxLat, maxLon) == Ok(Pow2(levels) * Pow2(levels))
  {
    var (lats, lons) := OldCreateGridAxes(minLat, maxLat, minLon, maxLon, levels);
    var n := Pow2(levels);
    LevelAxesShape(minLat, maxLat, minLon, maxLon, levels);
    SplitRangeOrder(minLat, maxLat, levels);
    SplitRangeOrder(minLon, maxLon, levels);
    LastCell(lats, lons, maxLat, maxLon, n);
  }

  /** The top-right breakpoint pair of strictly ascending n-cell axes is cell n * n. */
  lemma LastCell(lats: Axis, lons: Axis, latIn: real, lonIn: real, n: int)
    requires |lats| == |lons| == n + 1 >= 2 && StrictlyAscending(lats) && StrictlyAscending(lons)
    requires latIn == lats[n] && lonIn == lons[n]
    ensures WhichGrid(lats, lons, latIn, lonIn) == Ok(n * n)
  {
    StrictAxesBin(lats, lons, latIn, lonIn, n - 1, n - 1, n);
    assert (n - 1) * n + (n - 1) + 1 == n * n;
  }

  /** The bin pair of a point on strictly ascending halving axes. */
  lemma StrictAxesBin(lats: Axis, lons: Axis, latIn: real, lonIn: real, b: int, k: int, n: int)
    requires |lats| == |lons| == n + 1 >= 2 && StrictlyAscending(lats) && StrictlyAscending(lons)
    requires 0 <= b < |lats| - 1 && 0 <= k < |lons| - 1
    requires latIn == lats[b] || (b == |lats| - 2 && latIn == lats[b + 1])
    requires lonIn == lons[k] || (k == |lons| - 2 && lonIn == lons[k + 1])
    ensures WhichGrid(lats, lons, latIn, lonIn) == Ok(b * n + k + 1)
  {
    assert InBin(lats, b, latIn) && InBin(lons, k, lonIn);
    WhichGridOfBins(lats, lons, latIn, lonIn, b, k);
  }

  /** Reversing either halving axis, or both, never changes which_grid's answer. */
  lemma LevelGridReversal(minLat: real, maxLat: real, minLon: real, maxLon: real, levels: nat,
                          latIn: real, lonIn: real)
    ensures var (lats, lons) := OldCreateGridAxes(minLat, maxLat, minLon, maxLon, levels);
      && WhichGrid(Reverse(lats), lons, latIn, lonIn) == WhichGrid(lats, lons, latIn, lonIn)
      && WhichGrid(lats, Reverse(lons), latIn, lonIn) == WhichGrid(lats, lons, latIn, lonIn)
      && WhichGrid(Reverse(lats), Reverse(lons), latIn, lonIn) == WhichGrid(lats, lons, latIn, lonIn)
  {
    SplitRangeReversible(minLat, maxLat, levels);
    SplitRangeReversible(minLon, maxLon, levels);
    var (lats, lons) := OldCreateGridAxes(minLat, maxLat, minLon, maxLon, levels);
    WhichGridReversal(lats, lons, latIn, lonIn);
  }
}
