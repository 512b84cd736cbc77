# EMSHeatMap grid indexer and densifier in Dafny

This project models two pieces of the EMSHeatMap preprocessing code and proves
what they promise.

- **The grid indexer.** Sources: `data_preprocessing/grid.py`, its copy in
  `data_preprocessing/test_grid.py`, and `notebooks/coordinategrid/grid.py`.
  - Axes are built two ways: by recursive halving (`split_range`) and as equal-width breakpoints (`np.linspace`).
  - `which_grid` maps a point to a 1-based, row-major cell id. It first puts each axis in ascending order, raises when the point is outside the grid, and picks the bin of the rightmost breakpoint at or below the value, clamped into range.
  - `grid_to_coords` maps an id back to the lower-left corner of its cell.
  - `find_cells` adds a `cell` column to a table in place.
- **The densifier** `add_non_emergency`, from `data_preprocessing/add_non_emergency.py`.
  - It adds `date_day`, `hour` and `is_emergency` to the caller's frame.
  - It builds an hour-by-cell scaffold and counts events per (date, cell).
  - It left-joins the counts onto the scaffold and turns them into a 0/1 flag.
  - It would then merge in daily weather, sort by (cell, date) and forward-fill.

Modules:

- `Results` (`results.dfy`): `Option` and `Result`. Python exceptions become `Err` values.
- `Grid` (`grid.dfy`): `data_preprocessing/grid.py`. The `create_grid_axes` and `which_grid` in `data_preprocessing/test_grid.py` are line-for-line copies of these and share the same members.
- `GridTests` (`grid_tests.dfy`): the `TestGridFunctions` assertions, as lemmas about concrete values.
- `NotebookGrid` (`notebook_grid.dfy`): `notebooks/coordinategrid/grid.py`.
  - Its `create_grid_axes(..., levels)` is `Grid.OldCreateGridAxes`.
  - Its `which_grid` is `Grid.WhichGrid` without the debug print.
  - The lemmas state what the two promise together.
- `NonEmergency` (`non_emergency.dfy`): `add_non_emergency`.
  - Lines 9-13 are a method on an `EventTable` class that changes the frame's columns.
  - Lines 16-34 are pure functions over sequences of records.
  - The sort and forward-fill of line 42 are a method with a scan loop, modelled on their own.

Modelling choices:

- Coordinates are `real`, so `np.linspace` is exact: `start + i * (stop - start) / (num - 1)`.
- `bisect_right` follows CPython's binary search and works on any list, sorted or not.
- Python's floor `//` and `%` are written out, and so is negative list indexing. `grid_to_coords` is therefore modelled for every integer id.
- Timestamps are whole seconds since the epoch. An hour is 3600 s. The calendar day is the floor division by 86400.

What `add_non_emergency` actually does, as the model states it:

- The function never returns a frame.
  - It always mutates the caller's frame first.
  - It then raises at one of three points:
    - at `pd.date_range` on an empty frame (the min and max are NaT);
    - at the column selection of line 38 when the weather columns are missing;
    - otherwise at the merge of line 39, whose key `date_day` is not a column of `merged_df`.
  - `NonEmergency.AddNonEmergency` states this.
- The scaffold's cell list is `range(256)`, which is 0..255. The ids `which_grid` produces are 1..256. See "Findings".
- Only a 0/1 flag survives the merge, not the count. `NonEmergency.DensifyForgetsCounts` shows that two event lists with the same keys give the same frame.
- `ffill` after `sort_values(['cell', 'date'])` is not grouped by cell. The first hour of a cell with no weather takes the last hour's weather of the previous cell (`NonEmergency.FillCrossesCells`).
- Line 39 raises, so line 42 is never reached. The sort and fill are modelled on their own, on a column in the scaffold's hour-major order.

## Model

| member | source | states |
|---|---|---|
| Grid.Reverse | data_preprocessing/grid.py:34-37 | `list(reversed(a))` keeps the length and puts entry `|a|-1-i` at position i |
| Grid.ReverseReverse | data_preprocessing/grid.py:34-37 | reversing twice gives the list back |
| Grid.ReverseOrder | data_preprocessing/grid.py:33-37 | reversal turns a (strictly) descending axis into a (strictly) ascending one and back |
| Grid.SplitRange | data_preprocessing/grid.py:6-12 | `split_range(min, max, levels)` returns 2^levels + 1 breakpoints |
| Grid.OldCreateGridAxes | data_preprocessing/grid.py:5-16 | both axes by split_range; it has no contract of its own: NotebookGrid.LevelAxesShape states their length, endpoints and midpoint, and NotebookGrid.SplitRangeOrder their order |
| Grid.SplitRangeSpacing | data_preprocessing/grid.py:6-12 | neighbouring breakpoints are exactly (max - min) / 2^levels apart: the halving makes equal bins (also notebooks/coordinategrid/grid.py:5-11) |
| Grid.SplitRangeEndpoints | data_preprocessing/grid.py:6-12 | the first breakpoint is min, the last max, and the spliced halves share the midpoint at index 2^(levels-1) exactly once |
| Grid.SplitRangeIsLinspace | data_preprocessing/grid.py:5-29 | the recursive halving and `np.linspace` with 2^levels cells give the same axis |
| Grid.Linspace | data_preprocessing/grid.py:25-26 | `np.linspace(start, stop, num)` has num points |
| Grid.LinspaceShape | data_preprocessing/grid.py:25-26 | linspace starts at start, ends at stop, and is ascending, strictly ascending or strictly descending as start <=, < or > stop |
| Grid.CreateGridAxes | data_preprocessing/grid.py:19-29 | num_lat_cells + 1 latitudes and num_lon_cells + 1 longitudes, the lon count being the earlier argument; Grid.CreateGridAxesShape adds the endpoints |
| Grid.CreateGridAxesShape | data_preprocessing/grid.py:19-29 | `create_grid_axes` returns num_lat_cells + 1 latitudes and num_lon_cells + 1 longitudes, each from min to max; the lon count is the earlier argument |
| Grid.BisectRight | data_preprocessing/grid.py:48-49 | `bisect_right` stays in [lo, hi]; on an ascending list it splits it into the entries <= x and the entries > x |
| Grid.Normalize | data_preprocessing/grid.py:33-37 | the fix-up keeps the length and leaves first <= last |
| Grid.BinIndex | data_preprocessing/grid.py:47-49 | the bisect_right bin clamped into range; no contract of its own: Grid.BinIndexIff states that on an ascending axis it is exactly the bin that holds the value, and Grid.BoundaryBins where breakpoints go |
| Grid.CellId | data_preprocessing/grid.py:51-56 | the row-major 1-based id; no contract of its own: Grid.CellIdDecode and Grid.CellIdInjective state that it decodes back to its bins and that distinct bins give distinct ids |
| Grid.WhichGrid | data_preprocessing/grid.py:32-58 | IndexError on an empty axis; otherwise ValueError exactly when a coordinate lies outside the ends of its axis, in either orientation; no other error |
| Grid.CellIdBounds | data_preprocessing/grid.py:51-56 | ids of in-range bins lie in [1, n_lat_cells * n_lon_cells] |
| Grid.BinIndexLocates | data_preprocessing/grid.py:47-49 | on an ascending axis, the clamped bisect_right bin of an in-range value holds the value |
| Grid.InBinUnique | data_preprocessing/grid.py:47-49 | on an ascending axis a value lies in at most one bin |
| Grid.BinIndexIff | data_preprocessing/grid.py:47-49 | the chosen bin is b exactly when b holds the value (both directions) |
| Grid.BoundaryBins | data_preprocessing/grid.py:47-49 | a value on interior breakpoint j goes to bin j, the upper bin; the top breakpoint is clamped into the last bin |
| Grid.NormalizeAscends | data_preprocessing/grid.py:33-37 | a monotone axis becomes ascending, a strictly monotone one strictly ascending |
| Grid.NormalizeFixesAscending | data_preprocessing/grid.py:33-37 | an ascending axis is left as it is |
| Grid.NormalizeIdempotent | data_preprocessing/grid.py:33-37 | normalising twice is normalising once |
| Grid.NormalizeReverse | data_preprocessing/grid.py:33-37 | an axis with distinct ends and its reversal normalise to the same list |
| Grid.ReverseConstant | data_preprocessing/grid.py:33-37 | a monotone axis with equal ends is constant, so reversal does not change it |
| Grid.NormalizeReversible | data_preprocessing/grid.py:33-37 | an axis and its reversal normalise to the same list, for every axis with distinct ends or monotone |
| Grid.WhichGridNormalized | data_preprocessing/grid.py:33-37 | which_grid gives the same answer on the normalised axes |
| Grid.WhichGridReversal | data_preprocessing/grid.py:33-37 | reversing the lat list, the lon list or both leaves every result (id or error) unchanged |
| Grid.CellIdDecode | data_preprocessing/grid.py:51-56 | (id - 1) / n and (id - 1) % n give back the two 0-based bins |
| Grid.CellIdInjective | data_preprocessing/grid.py:51-56 | distinct bin pairs give distinct ids |
| Grid.WhichGridIdRange | data_preprocessing/grid.py:39-56 | every id returned lies in [1, n_lat_cells * n_lon_cells] |
| Grid.WhichGridLocates | data_preprocessing/grid.py:32-58 | on monotone axes the returned id decodes to the row and column whose bins hold the point |
| Grid.WhichGridOfBins | data_preprocessing/grid.py:47-56 | conversely, a point in bin b of the lats and bin k of the lons gets id b * n_lon_cells + k + 1 |
| Grid.FloorDiv | data_preprocessing/grid.py:101 | Python `//` rounds toward negative infinity, for either sign of divisor |
| Grid.FloorMod | data_preprocessing/grid.py:102 | Python `%` satisfies a == d * (a // d) + a % d and takes the sign of d |
| Grid.PyIndex | data_preprocessing/grid.py:105-106 | `lst[i]` succeeds exactly for -len <= i < len and returns an element of the list |
| Grid.GridToCoords | data_preprocessing/grid.py:91-118 | ZeroDivisionError exactly when there is a single longitude; any result is a pair of breakpoints of the two axes |
| Grid.GridToCoordsInRange | data_preprocessing/grid.py:96-106 | for ids in [1, n_lat_cells * n_lon_cells], the result is (lats[(id-1) / n], lons[(id-1) % n]) with the row in range |
| Grid.GridToCoordsRoundTrip | data_preprocessing/grid.py:91-118 | on strictly ascending axes, which_grid of the corner of id c is c again |
| Grid.GridToCoordsLowerLeft | data_preprocessing/grid.py:91-118 | on ascending axes, grid_to_coords of which_grid's id of a point is the lower-left corner of the cell that holds the point |
| Grid.GridToCoordsWrapsIdZero | data_preprocessing/grid.py:100-106 | id 0 is not rejected: it wraps to (last latitude, last-but-one longitude) |
| Grid.GridToCoordsIgnoresOrientation | data_preprocessing/grid.py:105-106 | on descending 4 x 4 axes, id 10 gives (38.5, -121.25), which which_grid puts in cell 12 |
| Grid.GridToCoordsNormalized | data_preprocessing/grid.py:91-118 | grid_to_coords on axes normalised as which_grid does; `EmptyAxis` exactly when an axis is empty (an out-of-range id still gives `IndexOutOfRange`); any result is a pair of breakpoints of the two axes |
| Grid.ReverseMembers | data_preprocessing/grid.py:34-37 | reversal keeps the same members |
| Grid.GridToCoordsNormalizedRoundTrip | data_preprocessing/grid.py:91-118 | the normalised inverse completes the round trip on strictly monotone axes in either direction |
| Grid.SeqMin | data_preprocessing/grid.py:78 | `min` of a non-empty column is a member no larger than any entry |
| Grid.SeqMax | data_preprocessing/grid.py:79 | `max` of a non-empty column is a member no smaller than any entry |
| Grid.ColumnAxes | data_preprocessing/grid.py:78-81 | num_rows + 1 latitudes and num_cols + 1 longitudes from the column extremes; Grid.ColumnAxesCoverColumn states that every row falls inside them |
| Grid.ColumnAxesCoverColumn | data_preprocessing/grid.py:77-86 | axes built from the column extremes put every row inside the grid, with an id in [1, num_cols * num_rows] |
| Grid.PointTable.constructor | data_preprocessing/grid.py:77 | a table with the given columns and no cell column |
| Grid.ApplyRows | data_preprocessing/grid.py:83-86 | `df.apply(f, axis=1)` succeeds exactly when f succeeds on every row, and then holds f of each row in order; otherwise it raises the error of the first failing row |
| Grid.FindCells | data_preprocessing/grid.py:77-88 | error on an empty table; leaves latitude and longitude alone; succeeds exactly when every row is inside the axes it returns, and then sets cell[j] to which_grid of row j; on an error the cell column is unchanged |
| Grid.FindCellsSucceeds | data_preprocessing/grid.py:77-88 | with at least one cell each way, no row of a non-empty table raises |
| GridTests.TestAxesValues | data_preprocessing/test_grid.py:59-65 | the set-up axes are [38.0, 38.25, 38.5, 38.75, 39.0] and [-122.0, -121.75, -121.5, -121.25, -121.0] |
| GridTests.TestCreateGridAxes | data_preprocessing/test_grid.py:67-74 | five breakpoints each way; the lats run from 38.0 to 39.0 |
| GridTests.TestPoint | data_preprocessing/test_grid.py:19-45 | on the test axes, a point in lat bin b and lon bin k gets id 4b + k + 1 |
| GridTests.TestWhichGridCenter | data_preprocessing/test_grid.py:76-82 | (38.6, -121.6) is in cell 10 |
| GridTests.TestWhichGridOnBoundary | data_preprocessing/test_grid.py:84-90 | (38.5, -121.5) is in cell 11 |
| GridTests.TestWhichGridCorners | data_preprocessing/test_grid.py:92-100 | (38.1, -121.9) is in cell 1 and (38.9, -121.1) in cell 16 |
| GridTests.TestWhichGridOutOfBounds | data_preprocessing/test_grid.py:102-109 | (37.0, -121.5) and (38.5, -120.0) raise ValueError |
| GridTests.TestWhichGridReversedAxes | data_preprocessing/test_grid.py:111-117 | with both lists reversed, (38.6, -121.6) is still in cell 10 |
| NotebookGrid.LevelAxesShape | notebooks/coordinategrid/grid.py:4-15 | both axes have 2^levels + 1 breakpoints from min to max and meet at the midpoint |
| NotebookGrid.SplitRangeOrder | notebooks/coordinategrid/grid.py:5-11 | with min < max the breakpoints strictly ascend, with min > max they strictly descend |
| NotebookGrid.SplitRangeReversible | notebooks/coordinategrid/grid.py:5-11 | every halving axis is one whose reversal which_grid treats alike |
| NotebookGrid.LevelGridOutsideIff | notebooks/coordinategrid/grid.py:28-30 | ValueError exactly when the point is outside the box of the two bounds, given either way round; no print |
| NotebookGrid.LevelGridIds | notebooks/coordinategrid/grid.py:25-41 | every id lies in [1, 4^levels] |
| NotebookGrid.LevelGridBreakpoint | notebooks/coordinategrid/grid.py:32-41 | a point on the lower-left breakpoints of row b and column k gets id b * 2^levels + k + 1 (right-biased ties) |
| NotebookGrid.LevelGridTopCorner | notebooks/coordinategrid/grid.py:32-41 | the top-right corner is clamped into the last cell, 4^levels |
| NotebookGrid.StrictAxesBin | notebooks/coordinategrid/grid.py:32-43 | on strictly ascending axes, a breakpoint pair (or the top edge) of row b and column k gets id b * n + k + 1 |
| NotebookGrid.LevelGridReversal | notebooks/coordinategrid/grid.py:20-23 | reversing either halving axis, or both, never changes the result |
| NonEmergency.DayOf | data_preprocessing/add_non_emergency.py:9 | the day d with d * 86400 <= t < (d + 1) * 86400 |
| NonEmergency.HourOf | data_preprocessing/add_non_emergency.py:10 | the hour h in [0, 24) of t within its day |
| NonEmergency.AllHours | data_preprocessing/add_non_emergency.py:18 | `pd.date_range(start, end, freq='H')` has (end - start) / 3600 + 1 entries, entry i being start + 3600 i |
| NonEmergency.AllHoursMembers | data_preprocessing/add_non_emergency.py:16-18 | t is an hour of the range exactly when start <= t <= end and t - start is a whole number of hours |
| NonEmergency.ScaffoldCells | data_preprocessing/add_non_emergency.py:19 | `range(256)` has 256 entries, holds exactly the cells 0..255 (so not 256) and is strictly increasing |
| NonEmergency.Scaffold | data_preprocessing/add_non_emergency.py:21-24 | the scaffold has |hours| * 256 rows |
| NonEmergency.ScaffoldAt | data_preprocessing/add_non_emergency.py:21-24 | row i * 256 + j is (hour i, cell j): hour-major, then cell |
| NonEmergency.ScaffoldRow | data_preprocessing/add_non_emergency.py:21-24 | row k is (hour k / 256, cell k % 256) |
| NonEmergency.ScaffoldMembers | data_preprocessing/add_non_emergency.py:16-24 | a key is a scaffold row exactly when its date is one of the hours and its cell one of the cells |
| NonEmergency.ScaffoldNoDuplicates | data_preprocessing/add_non_emergency.py:18-24 | with distinct hours and cells, no two rows share a (date, cell) key |
| NonEmergency.Lookup | data_preprocessing/add_non_emergency.py:28 | a key has a count exactly when some aggregate row has that key |
| NonEmergency.AddEvent | data_preprocessing/add_non_emergency.py:28 | counting one event adds at most one row to the aggregate; NonEmergency.AddEventLookup states that the event's key then has a row with its count plus one and every other count is unchanged |
| NonEmergency.AddEventAbove | data_preprocessing/add_non_emergency.py:28 | a lower bound of the new key and of every row is still a lower bound after counting the event |
| NonEmergency.AddEventSorted | data_preprocessing/add_non_emergency.py:28 | counting one more event keeps the aggregate strictly sorted by (date, cell) |
| NonEmergency.AddEventLookup | data_preprocessing/add_non_emergency.py:28 | counting one event raises its key's count by one and leaves every other count as it was |
| NonEmergency.LookupAbsentBelow | data_preprocessing/add_non_emergency.py:28 | a key below the first key of a sorted aggregate has no row |
| NonEmergency.GroupCount | data_preprocessing/add_non_emergency.py:28 | the aggregate has at most one row per event; NonEmergency.GroupCountLookup states each key's count and NonEmergency.GroupCountSorted the one row per key |
| NonEmergency.GroupCountSorted | data_preprocessing/add_non_emergency.py:28 | `groupby(['date', 'cell']).size()` is strictly sorted by key, so it has one row per distinct key |
| NonEmergency.GroupCountLookup | data_preprocessing/add_non_emergency.py:28 | a key's emergency_count is the number of events with that key, and keys with no event have no row |
| NonEmergency.SortedUnique | data_preprocessing/add_non_emergency.py:28 | a strictly sorted aggregate has unique keys |
| NonEmergency.Matches | data_preprocessing/add_non_emergency.py:30 | a left row has no matching aggregate row exactly when no aggregate row has its key |
| NonEmergency.MatchesUnique | data_preprocessing/add_non_emergency.py:30 | with unique aggregate keys a key matches at most its own row |
| NonEmergency.LeftMerge | data_preprocessing/add_non_emergency.py:30 | a left merge never drops a left row and every merged key comes from the left frame; NonEmergency.LeftMergeKeepsRows states the exact rows under unique aggregate keys |
| NonEmergency.LeftMergeKeepsRows | data_preprocessing/add_non_emergency.py:30 | with unique aggregate keys, the left merge keeps the scaffold's row count, order and keys, and attaches each key's own count or NaN |
| NonEmergency.EarliestDate | data_preprocessing/add_non_emergency.py:16 | `date.min()` is an event date no later than any other |
| NonEmergency.LatestDate | data_preprocessing/add_non_emergency.py:17 | `date.max()` is an event date no earlier than any other |
| NonEmergency.EventHours | data_preprocessing/add_non_emergency.py:16-18 | the hours start at the earliest event date and all lie between the earliest and the latest; NonEmergency.AllHoursMembers states exactly which times are hours |
| NonEmergency.Densify | data_preprocessing/add_non_emergency.py:16-34 | fails at `date_range` exactly on an empty frame; otherwise merged_df has |hours| * 256 rows |
| NonEmergency.IsEmergencyIff | data_preprocessing/add_non_emergency.py:16-34 | row k of merged_df carries scaffold key k, and is_emergency is 1 exactly when some event has that (date, cell), 0 exactly when none does |
| NonEmergency.UnmatchedEventMarksNothing | data_preprocessing/add_non_emergency.py:18-33 | an event whose cell is not in the cell list, or whose time is not one of the hours, is the key of no row |
| NonEmergency.EventMarksItsRow | data_preprocessing/add_non_emergency.py:18-33 | an event a whole number of hours after the earliest one, with a listed cell, has a row flagged 1 |
| NonEmergency.DensifyForgetsCounts | data_preprocessing/add_non_emergency.py:28-34 | event lists with the same keys give the same merged_df: the count is dropped |
| NonEmergency.EarliestSame | data_preprocessing/add_non_emergency.py:16 | event lists with the same keys have the same earliest date |
| NonEmergency.LatestSame | data_preprocessing/add_non_emergency.py:17 | event lists with the same keys have the same latest date |
| NonEmergency.ZeroBasedCellsMissTopCell | data_preprocessing/add_non_emergency.py:19 | on the 16 x 16 halving grid which_grid gives the top-right corner id 256, which `range(256)` lacks |
| NonEmergency.ZeroBasedCellsDropEvent | data_preprocessing/add_non_emergency.py:19 | an event in cell 256 leaves every row of the scaffold over range(256) with is_emergency 0 |
| NonEmergency.GridCellIds | data_preprocessing/add_non_emergency.py:19 | the corrected cell list holds exactly 1..256 |
| NonEmergency.GridCellIdsCoverLevelGrid | data_preprocessing/add_non_emergency.py:19 | every id which_grid returns on the 16 x 16 halving grid is in the corrected list |
| NonEmergency.GridCellIdsMarkEveryEvent | data_preprocessing/add_non_emergency.py:19 | with the corrected list, every event with an id in 1..256 on the hourly grid has its row flagged 1 |
| NonEmergency.EventTable.constructor | data_preprocessing/add_non_emergency.py:7 | a frame with the given date, cell and weather columns and none of the added ones |
| NonEmergency.DayColumn | data_preprocessing/add_non_emergency.py:9 | each entry is the day that contains the timestamp of its row |
| NonEmergency.HourColumn | data_preprocessing/add_non_emergency.py:10 | each entry is in [0, 24) and is the hour of its row's timestamp within its day |
| NonEmergency.AddNonEmergency | data_preprocessing/add_non_emergency.py:7-39 | sets date_day, hour and is_emergency = 1 on every row of the caller's frame and changes nothing else; then raises: no timestamps on an empty frame, a missing fmax without weather columns, and otherwise a missing date_day at the merge |
| NonEmergency.CellMajorIndex | data_preprocessing/add_non_emergency.py:42 | position k of the cell-major order names cell k / h and hour k % h, a row of the hour-major frame |
| NonEmergency.CellMajor | data_preprocessing/add_non_emergency.py:42 | the re-ordered frame has as many rows as the original |
| NonEmergency.CellMajorAt | data_preprocessing/add_non_emergency.py:42 | the row of hour t and cell j moves from t * 256 + j to j * h + t: every row is kept |
| NonEmergency.CellMajorInjective | data_preprocessing/add_non_emergency.py:42 | different positions take different rows, so the re-ordering is a permutation |
| NonEmergency.DivModOrder | data_preprocessing/add_non_emergency.py:42 | positions in cell-major order are ordered by cell, then by hour |
| NonEmergency.CellMajorSorted | data_preprocessing/add_non_emergency.py:42 | on the scaffold with ascending hours, the re-ordered keys are strictly sorted by (cell, date): it is the order `sort_values(['cell', 'date'])` produces |
| NonEmergency.LastPresent | data_preprocessing/add_non_emergency.py:42 | there is a present value up to a row exactly when some row so far is present, and it is one of them |
| NonEmergency.ForwardFill | data_preprocessing/add_non_emergency.py:42 | `ffill` gives each row the last present value among the rows up to it |
| NonEmergency.LastPresentIff | data_preprocessing/add_non_emergency.py:42 | row i is filled with v exactly when some row j <= i holds v and every row after j up to i is missing |
| NonEmergency.SortAndFill | data_preprocessing/add_non_emergency.py:42 | sort by (cell, date), then fill: row k is the last present value of the cell-major frame up to k |
| NonEmergency.FillCrossesCells | data_preprocessing/add_non_emergency.py:42 | when cell c + 1 has no value at the first hour and cell c has v at the last hour, the fill gives cell c + 1 the value v |
| NonEmergency.CellBoundary | data_preprocessing/add_non_emergency.py:42 | in cell-major order the first hour of cell c + 1 directly follows the last hour of cell c |
| NonEmergency.LastPresentAfterGap | data_preprocessing/add_non_emergency.py:42 | a missing value right after a present one is filled with it |
| NonEmergency.LeadingMissingStays | data_preprocessing/add_non_emergency.py:42 | missing values before the first present one stay missing |

## Left out

- Grid.WhichGridReversal: requires each axis to have distinct ends or be monotone (`ReversibleAxis`). A non-monotone list whose first and last entries are equal is left as it is by the fix-up, and its reversal is a different list. There which_grid can answer differently, so the invariance does not hold for it.
- Grid.GridToCoordsRoundTrip: stated for strictly ascending axes and ids in range. Repeated breakpoints make a zero-width cell, whose corner belongs to the next cell.
- Grid.SplitRange and Grid.OldCreateGridAxes take `levels` as a natural number. A negative `levels` in Python recurses until RecursionError; that error path is not modelled.
- Grid.CreateGridAxes and Grid.ColumnAxes (and so Grid.FindCells) take the cell counts as natural numbers. In Python a count of -1 gives `np.linspace(num=0)`, an empty axis, and a count below -1 raises ValueError; neither path is modelled.
- The `print` before the `ValueError` in `data_preprocessing/grid.py:44` and `data_preprocessing/test_grid.py:31` is output only and is left out.
- The `test()` helpers of `data_preprocessing/grid.py:61-74` and `notebooks/coordinategrid/grid.py:46-60` are left out. They only print, and the first calls `create_grid_axes` with the wrong number of arguments.
- `np.linspace` floating-point rounding is left out, because coordinates are exact reals. The test lemmas therefore use `==` where the tests use `assertAlmostEqual`. `assertIsInstance(..., list)` has no counterpart.
- NonEmergency.AddNonEmergency does not model these:
  - pandas datetime parsing (`pd.to_datetime`);
  - the other columns of the caller's frame;
  - the exact KeyError message, which lists all missing columns. The model names `fmax`, the first of them.
- The weather merge of line 39 and everything after it in `add_non_emergency` cannot succeed. The sort and `ffill` of line 42 are therefore modelled on their own, for a single column in the scaffold's hour-major order (NonEmergency.SortAndFill). Every column of `final_df` is filled the same way and independently.
- NonEmergency.CellMajorSorted: the sort is stated as the one ordering that is strictly sorted by (cell, date). A sort on two columns keeps equal keys in their original order, but the scaffold's keys are unique, so that order never matters.
- NonEmergency.Densify takes the cell list as a parameter so that `range(256)` and the corrected 1..256 can be compared. `AddNonEmergency` passes `range(256)`, as the source does.
- The rest of the repository is not part of this model:
  - data download and CSV I/O (`emt_data.py`, `weather_data.py`);
  - the faiss nearest-station join (`match_weather_data.py`);
  - XGBoost training and use;
  - the Streamlit dashboard;
  - the orchestration scripts `results_data.py` and `training_data.py`.

## Findings

| source | as written | input that shows it | evidently intended | confidence | as-written member | corrected member |
|---|---|---|---|---|---|---|
| data_preprocessing/grid.py:105-106 | `grid_to_coords` indexes `lats` and `lons` as given, while `which_grid` first reverses descending axes | descending 4 x 4 axes over [38, 39] x [-122, -121]: id 10 gives (38.5, -121.25), and which_grid puts that point in cell 12 | put the axes in ascending order first, as `which_grid` does, so that the corner of id c is in cell c | medium, not executed | Grid.GridToCoordsIgnoresOrientation | Grid.GridToCoordsNormalizedRoundTrip |
| data_preprocessing/add_non_emergency.py:19 | the scaffold's cells are `range(256)`, that is 0..255 | on the 16 x 16 grid (levels = 4) which_grid gives the top-right corner id 256; an event in cell 256 flags no row, while the never-produced cell 0 gets rows | cells 1..256, the ids which_grid returns | high, not executed | NonEmergency.ZeroBasedCellsDropEvent | NonEmergency.GridCellIdsMarkEveryEvent |
