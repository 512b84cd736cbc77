/** add_non_emergency of data_preprocessing/add_non_emergency.py: it densifies
    the emergency events into an hourly table with one row per (hour, cell),
    flags the rows that had an event, and would then join daily weather and
    forward-fill it. Timestamps are whole seconds since the epoch; the calendar
    day of a timestamp is its floor-division by 86400. */
module NonEmergency {
  import opened Results
  import opened Grid
  import NotebookGrid

  const SecondsPerHour: int := 3600
  const SecondsPerDay: int := 86400
  /** The length of the fixed cell list of the scaffold, range(256). */
  const NumCells: nat := 256

  /** The (date, cell) key the scaffold, the group-count and the merge use. */
  datatype Key = Key(date: int, cell: int)

  /** The exceptions of add_non_emergency. */
  datatype FrameError =
    | NoTimestamps               // pd.date_range with NaT ends: the input is empty
    | MissingColumn(name: string) // KeyError of a column lookup or a merge key

  /** .dt.date of a timestamp, as a day number. */
  function DayOf(t: int): (d: int)
    ensures d * SecondsPerDay <= t < (d + 1) * SecondsPerDay
  {
    t / SecondsPerDay
  }

  /** .dt.hour of a timestamp. */
  function HourOf(t: int): (h: int)
    ensures 0 <= h < 24
    ensures DayOf(t) * SecondsPerDay + h * SecondsPerHour <= t < DayOf(t) * SecondsPerDay + (h + 1) * SecondsPerHour
  {
    (t % SecondsPerDay) / SecondsPerHour
  }

  // ---------------------------------------------------------------------------
  // The scaffold (lines 16-24)

  /** pd.date_range(start, end, freq='H'): start, start + 1h, ... up to end. */
  function AllHours(start: int, end: int): (r: seq<int>)
    requires start <= end
    ensures |r| == (end - start) / SecondsPerHour + 1
    ensures forall i :: 0 <= i < |r| ==> r[i] == start + i * SecondsPerHour
    decreases end - start
  {
    if end - start < SecondsPerHour then [start]
    else [start] + AllHours(start + SecondsPerHour, end)
  }

  /** The hours are exactly the whole-hour offsets from start that do not pass end. */
  lemma {:induction false} AllHoursMembers(start: int, end: int, t: int)
    requires start <= end
    ensures t in AllHours(start, end) <==>
      start <= t <= end && (t - start) % SecondsPerHour == 0
  {
    var r := AllHours(start, end);
    if start <= t <= end && (t - start) % SecondsPerHour == 0 {
      var i := (t - start) / SecondsPerHour;
      assert t == start + i * SecondsPerHour;
      assert r[i] == t;
    }
    if t in r {
      var i :| 0 <= i < |r| && r[i] == t;
      assert t == start + i * SecondsPerHour;
      assert i <= (end - start) / SecondsPerHour;
    }
  }

  /** range(256), the cell list the scaffold is built from. */
  function ScaffoldCells(): (r: seq<int>)
    ensures |r| == NumCells
    ensures forall c :: c in r <==> 0 <= c < NumCells
    ensures forall i, j :: 0 <= i < j < |r| ==> r[i] < r[j]
  {
    var r := seq(NumCells, j => j);
    forall c | 0 <= c < NumCells
      ensures c in r
    {
      assert r[c] == c;
    }
    r
  }

  /** The rows of one hour: (hour, cell) for every cell in order. */
  function HourRows(hour: int, cells: seq<int>): (r: seq<Key>)
    ensures |r| == |cells|
    ensures forall j :: 0 <= j < |cells| ==> r[j] == Key(hour, cells[j])
  {
    seq(|cells|, j requires 0 <= j < |cells| => Key(hour, cells[j]))
  }

  /** [(hour, cell) for hour in all_hours for cell in all_cells]. */
  function Scaffold(hours: seq<int>, cells: seq<int>): (r: seq<Key>)
    requires |cells| == NumCells
    ensures |r| == |hours| * NumCells
  {
    if hours == [] then [] else HourRows(hours[0], cells) + Scaffold(hours[1..], cells)
  }

  /** Row i * 256 + j of the scaffold pairs hour i with cell j: hour-major order. */
  lemma {:induction false} ScaffoldAt(hours: seq<int>, cells: seq<int>, i: int, j: int)
    requires |cells| == NumCells
    requires 0 <= i < |hours| && 0 <= j < NumCells
    ensures Scaffold(hours, cells)[i * NumCells + j] == Key(hours[i], cells[j])
  {
    if i > 0 {
      ScaffoldAt(hours[1..], cells, i - 1, j);
    }
  }

  /** Every row, written through its quotient and remainder by 256. */
  lemma ScaffoldRow(hours: seq<int>, cells: seq<int>, k: int)
    requires |cells| == NumCells
    requires 0 <= k < |hours| * NumCells
    ensures 0 <= k / NumCells < |hours|
    ensures Scaffold(hours, cells)[k] == Key(hours[k / NumCells], cells[k % NumCells])
  {
    ScaffoldAt(hours, cells, k / NumCells, k % NumCells);
  }

  /** A key is a scaffold row exactly when its hour is one of the hours and
      its cell one of the cells. */
  lemma ScaffoldMembers(hours: seq<int>, cells: seq<int>, key: Key)
    requires |cells| == NumCells
    ensures key in Scaffold(hours, cells) <==> key.date in hours && key.cell in cells
  {
    var s := Scaffold(hours, cells);
    if key in s {
      var k :| 0 <= k < |s| && s[k] == key;
      ScaffoldRow(hours, cells, k);
    }
    if key.date in hours && key.cell in cells {
      var i :| 0 <= i < |hours| && hours[i] == key.date;
      var j :| 0 <= j < |cells| && cells[j] == key.cell;
      ScaffoldAt(hours, cells, i, j);
    }
  }

  /** With distinct hours and distinct cells no (date, cell) key repeats. */
  lemma ScaffoldNoDuplicates(hours: seq<int>, cells: seq<int>, p: int, q: int)
    requires |cells| == NumCells
    requires forall a, b :: 0 <= a < b < |hours| ==> hours[a] != hours[b]
    requires forall a, b :: 0 <= a < b < |cells| ==> cells[a] != cells[b]
    requires 0 <= p < q < |hours| * NumCells
    ensures Scaffold(hours, cells)[p] != Scaffold(hours, cells)[q]
  {
    ScaffoldRow(hours, cells, p);
    ScaffoldRow(hours, cells, q);
    if p / NumCells == q / NumCells {
      assert p % NumCells != q % NumCells;
    }
  }
  // ---------------------------------------------------------------------------
  // The group-count (line 28)

  /** (date, cell) order, the order groupby sorts its groups in. */
  predicate KeyLess(a: Key, b: Key) {
    a.date < b.date || (a.date == b.date && a.cell < b.cell)
  }

  /** One row of emergency_agg: a key and its emergency_count. */
  datatype AggRow = AggRow(key: Key, count: nat)

  predicate StrictlySorted(agg: seq<AggRow>) {
    forall i, j :: 0 <= i < j < |agg| ==> KeyLess(agg[i].key, agg[j].key)
  }

  /** The emergency_count of a key, if it has a row. */
  function Lookup(agg: seq<AggRow>, key: Key): (r: Option<nat>)
    ensures r.Some? <==> exists i :: 0 <= i < |agg| && agg[i].key == key
  {
    if agg == [] then None
    else if agg[0].key == key then Some(agg[0].count)
    else Lookup(agg[1..], key)
  }

  /** Counting one more event into a sorted aggregate. */
  function AddEvent(agg: seq<AggRow>, key: Key): (r: seq<AggRow>)
    ensures |agg| <= |r| <= |agg| + 1
  {
    if agg == [] then [AggRow(key, 1)]
    else if agg[0].key == key then [AggRow(key, agg[0].count + 1)] + agg[1..]
    else if KeyLess(key, agg[0].key) then [AggRow(key, 1)] + agg
    else [agg[0]] + AddEvent(agg[1..], key)
  }

  /** A lower bound of the key and of every row stays a lower bound of every
      row after AddEvent. */
  lemma {:induction false} AddEventAbove(agg: seq<AggRow>, key: Key, lo: Key)
    requires KeyLess(lo, key)
    requires forall i :: 0 <= i < |agg| ==> KeyLess(lo, agg[i].key)
    ensures forall i :: 0 <= i < |AddEvent(agg, key)| ==> KeyLess(lo, AddEvent(agg, key)[i].key)
  {
    if agg != [] && agg[0].key != key && !KeyLess(key, agg[0].key) {
      AddEventAbove(agg[1..], key, lo);
    }
  }

  /** AddEvent keeps the aggregate sorted by (date, cell). */
  lemma {:induction false} AddEventSorted(agg: seq<AggRow>, key: Key)
    requires StrictlySorted(agg)
    ensures StrictlySorted(AddEvent(agg, key))
  {
    if agg != [] && agg[0].key != key && !KeyLess(key, agg[0].key) {
      AddEventSorted(agg[1..], key);
      AddEventAbove(agg[1..], key, agg[0].key);
    }
  }

  /** The count of a key, zero when it has no row. */
  function CountOf(o: Option<nat>): nat {
    match o
    case None => 0
    case Some(c) => c
  }

  /** AddEvent bumps the count of its own key and leaves every other count alone. */
  lemma {:induction false} AddEventLookup(agg: seq<AggRow>, key: Key, other: Key)
    requires StrictlySorted(agg)
    ensures Lookup(AddEvent(agg, key), other) ==
      if other == key then Some(CountOf(Lookup(agg, key)) + 1) else Lookup(agg, other)
  {
    if agg == [] {
    } else if agg[0].key == key {
    } else if KeyLess(key, agg[0].key) {
      LookupAbsentBelow(agg, key);
    } else {
      AddEventLookup(agg[1..], key, other);
    }
  }

  /** A key below the first key of a sorted aggregate has no row. */
  lemma LookupAbsentBelow(agg: seq<AggRow>, key: Key)
    requires StrictlySorted(agg) && agg != [] && KeyLess(key, agg[0].key)
    ensures Lookup(agg, key) == None
  {
    forall i | 0 <= i < |agg|
      ensures agg[i].key != key
    {
      if i > 0 {
        assert KeyLess(agg[0].key, agg[i].key);
      }
    }
  }

  /** emergency_df.groupby(['date', 'cell']).size().reset_index(): the
      events counted one after another into a sorted aggregate. */
  function GroupCount(events: seq<Key>): (r: seq<AggRow>)
    ensures |r| <= |events|
  {
    if events == [] then [] else AddEvent(GroupCount(events[..|events| - 1]), events[|events| - 1])
  }

  /** The aggregate is sorted by (date, cell), so it has one row per key. */
  lemma {:induction false} GroupCountSorted(events: seq<Key>)
    ensures StrictlySorted(GroupCount(events))
  {
    if events != [] {
      GroupCountSorted(events[..|events| - 1]);
      AddEventSorted(GroupCount(events[..|events| - 1]), events[|events| - 1]);
    }
  }

  /** A key's emergency_count is the number of events with that key; keys no
      event has get no row. */
  lemma {:induction false} GroupCountLookup(events: seq<Key>, key: Key)
    ensures Lookup(GroupCount(events), key) ==
      if multiset(events)[key] == 0 then None else Some(multiset(events)[key])
  {
    if events != [] {
      var init, last := events[..|events| - 1], events[|events| - 1];
      assert events == init + [last];
      CountSnoc(init, last, key);
      GroupCountLookup(init, key);
      GroupCountSorted(init);
      var agg := GroupCount(init);
      assert GroupCount(events) == AddEvent(agg, last);
      AddEventLookup(agg, last, key);
    }
  }

  /** Appending an event adds one to its key's multiplicity only. */
  lemma CountSnoc(init: seq<Key>, last: Key, key: Key)
    ensures multiset(init + [last])[key] == multiset(init)[key] + if last == key then 1 else 0
  {
    assert multiset(init + [last]) == multiset(init) + multiset{last};
  }

  // ---------------------------------------------------------------------------
  // The left merge (line 30) and the is_emergency flag (lines 33-34)

  /** No two rows of the aggregate share a key. */
  predicate UniqueKeys(agg: seq<AggRow>) {
    forall i, j :: 0 <= i < j < |agg| ==> agg[i].key != agg[j].key
  }

  lemma SortedUnique(agg: seq<AggRow>)
    requires StrictlySorted(agg)
    ensures UniqueKeys(agg)
  {
  }

  /** One row of merged_df: the scaffold key and the emergency_count, NaN
      (None) when the aggregate has no row for the key. */
  datatype MergedRow = MergedRow(key: Key, count: Option<nat>)

  /** The counts of the aggregate rows whose key is key, in aggregate order. */
  function Matches(agg: seq<AggRow>, key: Key): (r: seq<nat>)
    ensures r == [] <==> forall i :: 0 <= i < |agg| ==> agg[i].key != key
  {
    if agg == [] then []
    else (if agg[0].key == key then [agg[0].count] else []) + Matches(agg[1..], key)
  }

  /** pd.merge(left, agg, on=['date', 'cell'], how='left'): each left row in
      order, repeated once per matching aggregate row, or kept once with a
      missing count when nothing matches. */
  function LeftMerge(left: seq<Key>, agg: seq<AggRow>): (r: seq<MergedRow>)
    ensures |r| >= |left|
    ensures forall i :: 0 <= i < |r| ==> r[i].key in left
  {
    if left == [] then []
    else
      var m := Matches(agg, left[0]);
      var rows := if m == [] then [MergedRow(left[0], None)]
                  else seq(|m|, i requires 0 <= i < |m| => MergedRow(left[0], Some(m[i])));
      rows + LeftMerge(left[1..], agg)
  }

  /** With unique keys a key matches at most its own Lookup row. */
  lemma {:induction false} MatchesUnique(agg: seq<AggRow>, key: Key)
    requires UniqueKeys(agg)
    ensures Matches(agg, key) == if Lookup(agg, key).None? then [] else [Lookup(agg, key).value]
  {
    if agg != [] {
      MatchesUnique(agg[1..], key);
      if agg[0].key == key {
        assert forall i :: 0 <= i < |agg[1..]| ==> agg[1..][i].key != key by {
          forall i | 0 <= i < |agg[1..]| ensures agg[1..][i].key != key {
            assert agg[1..][i] == agg[i + 1];
          }
        }
      }
    }
  }

  /** Because the aggregate keys are unique, the left merge keeps the left
      frame's row count and keys, and attaches each key's own count. */
  lemma {:induction false} LeftMergeKeepsRows(left: seq<Key>, agg: seq<AggRow>)
    requires UniqueKeys(agg)
    ensures |LeftMerge(left, agg)| == |left|
    ensures forall i :: 0 <= i < |left| ==> LeftMerge(left, agg)[i] == MergedRow(left[i], Lookup(agg, left[i]))
  {
    if left != [] {
      MatchesUnique(agg, left[0]);
      LeftMergeKeepsRows(left[1..], agg);
      var r := LeftMerge(left, agg);
      forall i | 0 <= i < |left|
        ensures r[i] == MergedRow(left[i], Lookup(agg, left[i]))
      {
        if i > 0 {
          assert r[i] == LeftMerge(left[1..], agg)[i - 1];
        }
      }
    }
  }

  /** A row of merged_df after line 34: its key and is_emergency. */
  datatype FlagRow = FlagRow(date: int, cell: int, isEmergency: int)

  /** np.where(emergency_count.notna(), 1, 0) followed by dropping the count. */
  function FlagRows(merged: seq<MergedRow>): (r: seq<FlagRow>)
    ensures |r| == |merged|
    ensures forall i :: 0 <= i < |r| ==> r[i].date == merged[i].key.date && r[i].cell == merged[i].key.cell
    ensures forall i :: 0 <= i < |r| ==> (r[i].isEmergency == 1 <==> merged[i].count.Some?)
    ensures forall i :: 0 <= i < |r| ==> (r[i].isEmergency == 0 <==> merged[i].count.None?)
  {
    seq(|merged|, i requires 0 <= i < |merged| =>
      FlagRow(merged[i].key.date, merged[i].key.cell, if merged[i].count.Some? then 1 else 0))
  }

  // ---------------------------------------------------------------------------
  // Lines 16-34 together

  /** emergency_df['date'].min() of a non-empty frame. */
  function EarliestDate(events: seq<Key>): (m: int)
    requires events != []
    ensures exists i :: 0 <= i < |events| && events[i].date == m
    ensures forall i :: 0 <= i < |events| ==> m <= events[i].date
  {
    if |events| == 1 then events[0].date
    else
      var rest := EarliestDate(events[1..]);
      assert forall i :: 1 <= i < |events| ==> events[i] == events[1..][i - 1];
      if events[0].date <= rest then events[0].date else rest
  }

  /** emergency_df['date'].max() of a non-empty frame. */
  function LatestDate(events: seq<Key>): (m: int)
    requires events != []
    ensures exists i :: 0 <= i < |events| && events[i].date == m
    ensures forall i :: 0 <= i < |events| ==> events[i].date <= m
  {
    if |events| == 1 then events[0].date
    else
      var rest := LatestDate(events[1..]);
      assert forall i :: 1 <= i < |events| ==> events[i] == events[1..][i - 1];
      if events[0].date >= rest then events[0].date else rest
  }

  /** The hours of the scaffold of a non-empty event list. */
  function EventHours(events: seq<Key>): (r: seq<int>)
    requires events != []
    ensures |r| >= 1 && r[0] == EarliestDate(events)
    ensures forall i :: 0 <= i < |r| ==> EarliestDate(events) <= r[i] <= LatestDate(events)
  {
    AllHours(EarliestDate(events), LatestDate(events))
  }

  /** merged_df after line 34: the scaffold over the given cell list, left
      merged with the event counts, the count turned into a 0/1 flag. The
      source passes range(256) as the cells; Densify takes them as a
      parameter so that the 1-based cell list can be compared. */
  function Densify(events: seq<Key>, cells: seq<int>): (r: Result<seq<FlagRow>, FrameError>)
    requires |cells| == NumCells
    ensures r.Err? <==> events == []
    ensures r.Err? ==> r.error == NoTimestamps
    ensures r.Ok? ==> |r.value| == |EventHours(events)| * NumCells
  {
    if events == [] then Err(NoTimestamps)
    else
      var scaffold := Scaffold(EventHours(events), cells);
      var agg := GroupCount(events);
      GroupCountSorted(events);
      SortedUnique(agg);
      LeftMergeKeepsRows(scaffold, agg);
      Ok(FlagRows(LeftMerge(scaffold, agg)))
  }

  /** Row k of merged_df is the k-th scaffold key, and its is_emergency is 1
      exactly when some event has that exact (date, cell) key, 0 otherwise. */
  lemma IsEmergencyIff(events: seq<Key>, cells: seq<int>, k: int)
    requires |cells| == NumCells && events != []
    requires 0 <= k < |EventHours(events)| * NumCells
    ensures var row := Densify(events, cells).value[k];
      Key(row.date, row.cell) == Scaffold(EventHours(events), cells)[k] &&
      (row.isEmergency == 1 <==> Key(row.date, row.cell) in events) &&
      (row.isEmergency == 0 <==> Key(row.date, row.cell) !in events)
  {
    var scaffold := Scaffold(EventHours(events), cells);
    var agg := GroupCount(events);
    GroupCountSorted(events);
    SortedUnique(agg);
    LeftMergeKeepsRows(scaffold, agg);
    GroupCountLookup(events, scaffold[k]);
  }

  /** A row is flagged only when its cell is one of the scaffold cells and its
      hour one of the scaffold hours; so an event whose cell is not in the
      list, or whose timestamp is not a whole number of hours after the
      earliest one, marks no row. */
  lemma UnmatchedEventMarksNothing(events: seq<Key>, cells: seq<int>, e: Key, k: int)
    requires |cells| == NumCells && events != []
    requires e.cell !in cells || e.date !in EventHours(events)
    requires 0 <= k < |EventHours(events)| * NumCells
    ensures Key(Densify(events, cells).value[k].date, Densify(events, cells).value[k].cell) != e
  {
    IsEmergencyIff(events, cells, k);
    ScaffoldMembers(EventHours(events), cells, Scaffold(EventHours(events), cells)[k]);
  }

  /** Every event on the hourly grid whose cell is in the list marks the row
      that carries its key. */
  lemma EventMarksItsRow(events: seq<Key>, cells: seq<int>, e: Key)
    requires |cells| == NumCells && events != []
    requires e in events && e.cell in cells
    requires (e.date - EarliestDate(events)) % SecondsPerHour == 0
    ensures FlagRow(e.date, e.cell, 1) in Densify(events, cells).value
  {
    var hours := EventHours(events);
    AllHoursMembers(EarliestDate(events), LatestDate(events), e.date);
    ScaffoldMembers(hours, cells, e);
    var s := Scaffold(hours, cells);
    var k :| 0 <= k < |s| && s[k] == e;
    IsEmergencyIff(events, cells, k);
  }

  /** Only whether a key occurs is kept, not how often: two event lists with
      the same keys give the same merged_df. */
  lemma DensifyForgetsCounts(events1: seq<Key>, events2: seq<Key>, cells: seq<int>)
    requires |cells| == NumCells
    requires forall e :: e in events1 <==> e in events2
    ensures Densify(events1, cells) == Densify(events2, cells)
  {
    if events2 != [] {
      assert events2[0] in events1;
    }
    if events1 != [] {
      assert events1[0] in events2;
      EarliestSame(events1, events2);
      LatestSame(events1, events2);
      var r1, r2 := Densify(events1, cells).value, Densify(events2, cells).value;
      forall k | 0 <= k < |r1|
        ensures r1[k] == r2[k]
      {
        IsEmergencyIff(events1, cells, k);
        IsEmergencyIff(events2, cells, k);
      }
      assert r1 == r2;
    }
  }

  lemma EarliestSame(events1: seq<Key>, events2: seq<Key>)
    requires events1 != [] && events2 != []
    requires forall e :: e in events1 <==> e in events2
    ensures EarliestDate(events1) == EarliestDate(events2)
  {
    var i :| 0 <= i < |events1| && events1[i].date == EarliestDate(events1);
    var j :| 0 <= j < |events2| && events2[j].date == EarliestDate(events2);
    assert events1[i] in events2;
    assert events2[j] in events1;
  }

  lemma LatestSame(events1: seq<Key>, events2: seq<Key>)
    requires events1 != [] && events2 != []
    requires forall e :: e in events1 <==> e in events2
    ensures LatestDate(events1) == LatestDate(events2)
  {
    var i :| 0 <= i < |events1| && events1[i].date == LatestDate(events1);
    var j :| 0 <= j < |events2| && events2[j].date == LatestDate(events2);
    assert events1[i] in events2;
    assert events2[j] in events1;
  }

  // ---------------------------------------------------------------------------
  // The 0-based cell list against the 1-based which_grid ids (line 19)

  /** The cells in the event data come from which_grid on the 16x16 halving
      grid (levels = 4), and the top-right corner of that grid gets id 256,
      which range(256) does not hold. */
  lemma ZeroBasedCellsMissTopCell(minLat: real, maxLat: real, minLon: real, maxLon: real,
                                  levels: nat)
    requires minLat < maxLat && minLon < maxLon && levels == 4
    ensures var (lats, lons) := OldCreateGridAxes(minLat, maxLat, minLon, maxLon, levels);
      WhichGrid(lats, lons, maxLat, maxLon) == Ok(256) && 256 !in ScaffoldCells()
  {
    NotebookGrid.LevelGridTopCorner(minLat, maxLat, minLon, maxLon, levels);
    Pow2Four(levels);
  }

  /** An event in cell 256 marks no row of the scaffold over range(256):
      merged_df loses it. */
  lemma ZeroBasedCellsDropEvent(t: int)
    ensures forall row :: row in Densify([Key(t, 256)], ScaffoldCells()).value ==> row.isEmergency == 0
  {
    var events, e := [Key(t, 256)], Key(t, 256);
    var rows := Densify(events, ScaffoldCells()).value;
    forall row | row in rows
      ensures row.isEmergency == 0
    {
      var k :| 0 <= k < |rows| && rows[k] == row;
      IsEmergencyIff(events, ScaffoldCells(), k);
      UnmatchedEventMarksNothing(events, ScaffoldCells(), e, k);
    }
  }

  /** The cell ids which_grid produces on the 16x16 grid: 1, ..., 256. */
  function GridCellIds(): (r: seq<int>)
    ensures |r| == NumCells
    ensures forall c :: c in r <==> 1 <= c <= NumCells
  {
    var r := seq(NumCells, j => j + 1);
    forall c | 1 <= c <= NumCells
      ensures c in r
    {
      assert r[c - 1] == c;
    }
    r
  }

  /** Every id which_grid returns on the 16x16 halving grid is one of
      GridCellIds. */
  lemma GridCellIdsCoverLevelGrid(minLat: real, maxLat: real, minLon: real, maxLon: real,
                                  levels: nat, latIn: real, lonIn: real)
    requires levels == 4
    ensures var (lats, lons) := OldCreateGridAxes(minLat, maxLat, minLon, maxLon, levels);
      WhichGrid(lats, lons, latIn, lonIn).Ok? ==> WhichGrid(lats, lons, latIn, lonIn).value in GridCellIds()
  {
    NotebookGrid.LevelGridIds(minLat, maxLat, minLon, maxLon, levels, latIn, lonIn);
    Pow2Four(levels);
  }

  /** 4 levels of halving give 16 cells per axis. */
  lemma Pow2Four(levels: nat)
    requires levels == 4
    ensures Pow2(levels) * Pow2(levels) == NumCells
  {
  }

  /** With the 1-based cell list, every event on the hourly grid whose cell
      came from which_grid on the 16x16 grid marks its row. */
  lemma GridCellIdsMarkEveryEvent(events: seq<Key>, e: Key)
    requires events != [] && e in events && 1 <= e.cell <= NumCells
    requires (e.date - EarliestDate(events)) % SecondsPerHour == 0
    ensures FlagRow(e.date, e.cell, 1) in Densify(events, GridCellIds()).value
  {
    EventMarksItsRow(events, GridCellIds(), e);
  }

  // ---------------------------------------------------------------------------
  // add_non_emergency on the caller's frame (lines 7-39)

  /** The daily weather columns fmax, fmin and prcp_in of one event row. */
  datatype Weather = Weather(fmax: real, fmin: real, prcpIn: real)

  /** emergency_df: the date and cell columns, the weather columns when the
      frame has them, and the columns add_non_emergency adds to it. */
  class EventTable {
    var date: seq<int>
    var cell: seq<int>
    var weather: Option<seq<Weather>>
    var dateDay: Option<seq<int>>
    var hour: Option<seq<int>>
    var isEmergency: Option<seq<int>>

    ghost predicate Valid()
      reads this
    {
      |cell| == |date| && (weather.Some? ==> |weather.value| == |date|)
    }

    constructor(date: seq<int>, cell: seq<int>, weather: Option<seq<Weather>>)
      requires |cell| == |date| && (weather.Some? ==> |weather.value| == |date|)
      ensures Valid()
      ensures this.date == date && this.cell == cell && this.weather == weather
      ensures dateDay.None? && hour.None? && isEmergency.None?
    {
      this.date := date;
      this.cell := cell;
      this.weather := weather;
      dateDay := None;
      hour := None;
      isEmergency := None;
    }

  }

  /** The (date, cell) key of every row. */
  function EventKeys(date: seq<int>, cell: seq<int>): (r: seq<Key>)
    requires |cell| == |date|
    ensures |r| == |date|
    ensures forall i :: 0 <= i < |r| ==> r[i].date == date[i] && r[i].cell == cell[i]
  {
    seq(|date|, i requires 0 <= i < |date| => Key(date[i], cell[i]))
  }

  /** pd.to_datetime(date).dt.date of a column. */
  function DayColumn(date: seq<int>): (r: seq<int>)
    ensures |r| == |date|
    ensures forall i :: 0 <= i < |r| ==> r[i] * SecondsPerDay <= date[i] < (r[i] + 1) * SecondsPerDay
  {
    seq(|date|, i requires 0 <= i < |date| => DayOf(date[i]))
  }

  /** pd.to_datetime(date).dt.hour of a column. */
  function HourColumn(date: seq<int>): (r: seq<int>)
    ensures |r| == |date|
    ensures forall i :: 0 <= i < |r| ==> 0 <= r[i] < 24
    ensures forall i :: 0 <= i < |r| ==>
      DayOf(date[i]) * SecondsPerDay + r[i] * SecondsPerHour <= date[i] < DayOf(date[i]) * SecondsPerDay + (r[i] + 1) * SecondsPerHour
  {
    seq(|date|, i requires 0 <= i < |date| => HourOf(date[i]))
  }

  /** add_non_emergency(emergency_df). It first adds date_day, hour and
      is_emergency = 1 to the caller's frame. An empty frame then fails at
      pd.date_range (its min and max are NaT). Otherwise the scaffold,
      group-count, merge and flag of lines 16-34 are built (Densify), and the
      weather selection of line 38 fails when the frame has no weather
      columns; when it has them, the merge of line 39 fails because
      merged_df has no date_day column. No call returns a frame. */
  method AddNonEmergency(df: EventTable) returns (r: Result<seq<FlagRow>, FrameError>)
    requires df.Valid()
    modifies df
    ensures df.Valid()
    ensures df.date == old(df.date) && df.cell == old(df.cell) && df.weather == old(df.weather)
    ensures df.dateDay == Some(DayColumn(df.date))
    ensures df.hour == Some(HourColumn(df.date))
    ensures df.isEmergency == Some(seq(|df.date|, i => 1))
    ensures r == if df.date == [] then Err(NoTimestamps)
                 else if df.weather.None? then Err(MissingColumn("fmax"))
                 else Err(MissingColumn("date_day"))
  {
    df.dateDay := Some(DayColumn(df.date));
    df.hour := Some(HourColumn(df.date));
    df.isEmergency := Some(seq(|df.date|, i => 1));
    var merged := Densify(EventKeys(df.date, df.cell), ScaffoldCells());
    if merged.Err? {
      return Err(merged.error);
    }
    if df.weather.None? {
      return Err(MissingColumn("fmax"));
    }
    return Err(MissingColumn("date_day"));
  }

  // ---------------------------------------------------------------------------
  // sort_values(['cell', 'date']).ffill() (line 42), on a frame in the
  // scaffold's hour-major order

  /** (cell, date) order. */
  predicate CellDateLess(a: Key, b: Key) {
    a.cell < b.cell || (a.cell == b.cell && a.date < b.date)
  }

  /** Position k of the cell-major order of h hours is the row of cell k / h
      at hour k % h; in the hour-major order that row is at
      (k % h) * 256 + k / h. */
  lemma CellMajorIndex(k: int, h: nat)
    requires 0 <= k < h * NumCells
    ensures h >= 1 && 0 <= k / h < NumCells && 0 <= k % h < h
    ensures 0 <= (k % h) * NumCells + k / h < h * NumCells
  {
    if h == 0 {
      assert false;
    }
    DivModUnique(k, h, k / h, k % h);
    if k / h >= NumCells {
      MulBounds(h, k / h - NumCells + 1);
    }
    MulBounds(NumCells, h - 1 - k % h);
  }

  /** The frame re-ordered by (cell, date): the rows of cell 0 over every
      hour, then those of cell 1, and so on. */
  function CellMajor<T>(rows: seq<T>, h: nat): (r: seq<T>)
    requires |rows| == h * NumCells
    ensures |r| == |rows|
  {
    seq(|rows|, k requires 0 <= k < |rows| =>
      CellMajorIndex(k, h);
      rows[(k % h) * NumCells + k / h])
  }

  /** The row of hour t and cell j, at t * 256 + j in the hour-major frame,
      is at j * h + t in the cell-major frame: every row is kept. */
  lemma CellMajorAt<T>(rows: seq<T>, h: nat, t: int, j: int)
    requires |rows| == h * NumCells && 0 <= t < h && 0 <= j < NumCells
    ensures 0 <= j * h + t < |rows| && 0 <= t * NumCells + j < |rows|
    ensures CellMajor(rows, h)[j * h + t] == rows[t * NumCells + j]
  {
    var k := j * h + t;
    MulBounds(h, NumCells - 1 - j);
    MulBounds(NumCells, h - 1 - t);
    DivModUnique(k, h, j, t);
  }

  /** Two positions of the cell-major order land on different rows. */
  lemma CellMajorInjective(h: nat, i: int, j: int)
    requires 0 <= i < j < h * NumCells
    ensures (i % h) * NumCells + i / h != (j % h) * NumCells + j / h
  {
    CellMajorIndex(i, h);
    CellMajorIndex(j, h);
    if (i % h) * NumCells + i / h == (j % h) * NumCells + j / h {
      DivModUnique((i % h) * NumCells + i / h, NumCells, i % h, i / h);
      DivModUnique((j % h) * NumCells + j / h, NumCells, j % h, j / h);
      DivModUnique(i, h, i / h, i % h);
      DivModUnique(j, h, j / h, j % h);
    }
  }

  /** Positions in cell-major order: an earlier position has a smaller cell,
      or the same cell and an earlier hour. */
  lemma DivModOrder(i: int, j: int, h: int)
    requires h >= 1 && 0 <= i < j
    ensures i / h < j / h || (i / h == j / h && i % h < j % h)
  {
    DivModUnique(i, h, i / h, i % h);
    DivModUnique(j, h, j / h, j % h);
    if i / h > j / h {
      MulBounds(h, i / h - j / h);
    }
  }

  /** On the scaffold of strictly ascending hours over range(256), the
      cell-major order is strictly sorted by (cell, date), so it is the one
      order sort_values(['cell', 'date']) can produce: every key is unique. */
  lemma CellMajorSorted(hours: seq<int>, i: int, j: int)
    requires forall a, b :: 0 <= a < b < |hours| ==> hours[a] < hours[b]
    requires 0 <= i < j < |hours| * NumCells
    ensures CellDateLess(CellMajor(Scaffold(hours, ScaffoldCells()), |hours|)[i],
                         CellMajor(Scaffold(hours, ScaffoldCells()), |hours|)[j])
  {
    var h := |hours|;
    CellMajorIndex(i, h);
    CellMajorIndex(j, h);
    ScaffoldAt(hours, ScaffoldCells(), i % h, i / h);
    ScaffoldAt(hours, ScaffoldCells(), j % h, j / h);
    DivModOrder(i, j, h);
  }

  /** The last present value of a column, None when every value is missing. */
  function LastPresent<T>(col: seq<Option<T>>): (r: Option<T>)
    ensures r.Some? <==> exists j :: 0 <= j < |col| && col[j].Some?
    ensures r.Some? ==> r in col
  {
    if col == [] then None
    else if col[|col| - 1].Some? then col[|col| - 1]
    else LastPresent(col[..|col| - 1])
  }

  /** ffill of one column: a scan carrying the last value seen. Row i gets
      the last present value among rows 0..i. */
  method ForwardFill<T>(col: seq<Option<T>>) returns (r: seq<Option<T>>)
    ensures |r| == |col|
    ensures forall i :: 0 <= i < |col| ==> r[i] == LastPresent(col[..i + 1])
  {
    r := [];
    var last: Option<T> := None;
    var i := 0;
    while i < |col|
      invariant 0 <= i <= |col| && |r| == i
      invariant last == LastPresent(col[..i])
      invariant forall k :: 0 <= k < i ==> r[k] == LastPresent(col[..k + 1])
    {
      assert col[..i + 1][..i] == col[..i];
      if col[i].Some? {
        last := col[i];
      }
      r := r + [last];
      i := i + 1;
    }
  }

  /** The filled value of row i is v exactly when some row j <= i holds v and
      every row after j up to i is missing: present values are kept and a
      missing one takes the nearest earlier present value. */
  lemma {:induction false} LastPresentIff<T>(col: seq<Option<T>>, i: int, v: T)
    requires 0 <= i < |col|
    ensures LastPresent(col[..i + 1]) == Some(v) <==>
      exists j :: 0 <= j <= i && col[j] == Some(v) && NoneBetween(col, j, i)
  {
    assert col[..i + 1][..i] == col[..i];
    if col[i].Some? {
      if LastPresent(col[..i + 1]) == Some(v) {
        assert col[i] == Some(v) && NoneBetween(col, i, i);
      }
      forall j | 0 <= j <= i && col[j] == Some(v) && NoneBetween(col, j, i)
        ensures j == i
      {
      }
    } else if i == 0 {
      assert !(col[0] == Some(v));
    } else {
      LastPresentIff(col, i - 1, v);
      assert col[..i] == col[..i - 1 + 1];
      forall j | 0 <= j <= i && col[j] == Some(v) && NoneBetween(col, j, i)
        ensures j <= i - 1 && NoneBetween(col, j, i - 1)
      {
      }
      forall j | 0 <= j <= i - 1 && col[j] == Some(v) && NoneBetween(col, j, i - 1)
        ensures NoneBetween(col, j, i)
      {
      }
    }
  }

  /** Every row after j up to i is missing. */
  predicate NoneBetween<T>(col: seq<Option<T>>, j: int, i: int)
    requires 0 <= j <= i < |col|
  {
    forall l :: j < l <= i ==> col[l].None?
  }

  /** sort_values(['cell', 'date']).ffill() of one column of the h-hour
      frame, given in hour-major order. */
  method SortAndFill<T>(col: seq<Option<T>>, h: nat) returns (r: seq<Option<T>>)
    requires |col| == h * NumCells
    ensures |r| == |col|
    ensures forall k :: 0 <= k < |col| ==> r[k] == LastPresent(CellMajor(col, h)[..k + 1])
  {
    r := ForwardFill(CellMajor(col, h));
  }

  /** The fill is not grouped by cell: when cell c + 1 has no value at the
      first hour, it takes the value of cell c at the last hour. */
  lemma FillCrossesCells<T>(col: seq<Option<T>>, h: nat, c: int, v: T)
    requires |col| == h * NumCells && h >= 1 && 0 <= c < NumCells - 1
    requires col[c + 1].None? && col[(h - 1) * NumCells + c] == Some(v)
    ensures 0 < (c + 1) * h < |col|
    ensures LastPresent(CellMajor(col, h)[..(c + 1) * h + 1]) == Some(v)
  {
    CellBoundary(col, h, c);
    LastPresentAfterGap(CellMajor(col, h), (c + 1) * h, v);
  }

  /** In cell-major order the first hour of cell c + 1 directly follows the
      last hour of cell c. */
  lemma CellBoundary<T>(col: seq<Option<T>>, h: nat, c: int)
    requires |col| == h * NumCells && h >= 1 && 0 <= c < NumCells - 1
    ensures 0 < (c + 1) * h < |col|
    ensures CellMajor(col, h)[(c + 1) * h] == col[c + 1]
    ensures CellMajor(col, h)[(c + 1) * h - 1] == col[(h - 1) * NumCells + c]
  {
    CellMajorAt(col, h, 0, c + 1);
    CellMajorAt(col, h, h - 1, c);
    assert (c + 1) * h == c * h + h;
  }

  /** A missing value right after a present one takes that value. */
  lemma LastPresentAfterGap<T>(s: seq<Option<T>>, k: int, v: T)
    requires 0 < k < |s| && s[k].None? && s[k - 1] == Some(v)
    ensures LastPresent(s[..k + 1]) == Some(v)
  {
    assert s[..k + 1][..k] == s[..k];
    assert s[..k] == s[..k - 1 + 1];
  }

  /** Missing values before the first present value stay missing. */
  lemma LeadingMissingStays<T>(col: seq<Option<T>>, i: int)
    requires 0 <= i < |col|
    requires forall j :: 0 <= j <= i ==> col[j].None?
    ensures LastPresent(col[..i + 1]) == None
  {
  }
}
