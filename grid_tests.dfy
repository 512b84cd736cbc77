/** The assertions of TestGridFunctions in data_preprocessing/test_grid.py, on
    the 4 x 4 grid over latitudes [38, 39] and longitudes [-122, -121]. The
    create_grid_axes and which_grid copied into that file are the ones of
    data_preprocessing/grid.py, so the lemmas speak of Grid.CreateGridAxes
    and Grid.WhichGrid. */
module GridTests {
  import opened Results
  import opened Grid

  function TestLats(): Axis { CreateGridAxes(38.0, 39.0, -122.0, -121.0, 4, 4).0 }
  function TestLons(): Axis { CreateGridAxes(38.0, 39.0, -122.0, -121.0, 4, 4).1 }

  /** The breakpoints the set-up expects: steps of a quarter degree. */
  lemma TestAxesValues()
    ensures TestLats() == [38.0, 38.25, 38.5, 38.75, 39.0]
    ensures TestLons() == [-122.0, -121.75, -121.5, -121.25, -121.0]
  {
    var lats, lons := TestLats(), TestLons();
    LinspaceAt(38.0, 39.0, 5, 0.25, 1);
    LinspaceAt(38.0, 39.0, 5, 0.25, 2);
    LinspaceAt(38.0, 39.0, 5, 0.25, 3);
    LinspaceAt(-122.0, -121.0, 5, 0.25, 1);
    LinspaceAt(-122.0, -121.0, 5, 0.25, 2);
    LinspaceAt(-122.0, -121.0, 5, 0.25, 3);
    LinspaceShape(38.0, 39.0, 5);
    LinspaceShape(-122.0, -121.0, 5);
  }

  /** test_create_grid_axes: five breakpoints each way, from the minimum to
      the maximum. */
  lemma TestCreateGridAxes()
    ensures |TestLats()| == 5 && |TestLons()| == 5
    ensures TestLats()[0] == 38.0 && TestLats()[4] == 39.0
  {
    CreateGridAxesShape(38.0, 39.0, -122.0, -121.0, 4, 4);
  }

  /** Ascending test axes and the bins that the point falls into give its id. */
  lemma TestPoint(lats: Axis, lons: Axis, latIn: real, lonIn: real, b: int, k: int)
    requires lats == [38.0, 38.25, 38.5, 38.75, 39.0]
    requires lons == [-122.0, -121.75, -121.5, -121.25, -121.0]
    requires InBin(lats, b, latIn) && InBin(lons, k, lonIn)
    ensures WhichGrid(lats, lons, latIn, lonIn) == Ok(b * 4 + k + 1)
  {
    assert Ascending(lats) && Ascending(lons);
    WhichGridOfBins(lats, lons, latIn, lonIn, b, k);
  }

  /** test_which_grid_center: (38.6, -121.6) is in cell 10. */
  lemma TestWhichGridCenter()
    ensures WhichGrid(TestLats(), TestLons(), 38.6, -121.6) == Ok(10)
  {
    TestAxesValues();
    TestPoint(TestLats(), TestLons(), 38.6, -121.6, 2, 1);
  }

  /** test_which_grid_on_boundary: (38.5, -121.5) lies on the lower-left
      corner of cell 11 and goes to it. */
  lemma TestWhichGridOnBoundary()
    ensures WhichGrid(TestLats(), TestLons(), 38.5, -121.5) == Ok(11)
  {
    TestAxesValues();
    TestPoint(TestLats(), TestLons(), 38.5, -121.5, 2, 2);
  }

  /** test_which_grid_corners: the first and the last cell. */
  lemma TestWhichGridCorners()
    ensures WhichGrid(TestLats(), TestLons(), 38.1, -121.9) == Ok(1)
    ensures WhichGrid(TestLats(), TestLons(), 38.9, -121.1) == Ok(16)
  {
    TestAxesValues();
    TestPoint(TestLats(), TestLons(), 38.1, -121.9, 0, 0);
    TestPoint(TestLats(), TestLons(), 38.9, -121.1, 3, 3);
  }

  /** test_which_grid_out_of_bounds: a latitude too low and a longitude too
      high both raise. */
  lemma TestWhichGridOutOfBounds()
    ensures WhichGrid(TestLats(), TestLons(), 37.0, -121.5) == Err(PointOutsideGrid)
    ensures WhichGrid(TestLats(), TestLons(), 38.5, -120.0) == Err(PointOutsideGrid)
  {
    TestAxesValues();
  }

  /** test_which_grid_reversed_axes: with both lists reversed the centre point
      is still in cell 10. */
  lemma TestWhichGridReversedAxes()
    ensures WhichGrid(Reverse(TestLats()), Reverse(TestLons()), 38.6, -121.6) == Ok(10)
  {
    TestAxesValues();
    assert Ascending(TestLats()) && Ascending(TestLons());
    WhichGridReversal(TestLats(), TestLons(), 38.6, -121.6);
    TestWhichGridCenter();
  }
}
