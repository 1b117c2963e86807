/** The feed loader: a stop table from the stop file and an averaged,
    directed edge table from the stop-time file, frozen into a `StopGraph`.
    A feed file is the sequence of its lines (header first) or `Unreadable`
    when it cannot be found or read. */
module GraphLoader {
  import opened Wrappers
  import opened Text
  import opened Csv
  import opened GtfsTime
  import opened Graph
  import opened Sorting

  /** The floor applied to every observed travel time and the weight of an
      edge with no samples. */
  const DefaultEdgeTimeSeconds: int := 120

  datatype FeedFile = Unreadable | Lines(lines: seq<string>)

  /** Loading aborts only when the stop file cannot be read. */
  datatype LoadError = StopsUnreadable

  /** `Double.parseDouble`, left abstract: `None` stands for the
      `NumberFormatException`. */
  type CoordinateParser = string -> Option<real>

  // ---------------------------------------------------------------------------
  // stops.txt
  // ---------------------------------------------------------------------------

  datatype StopColumns = StopColumns(id: nat, name: nat, latitude: nat, longitude: nat)

  /** The four required columns of the stop file, if the header has them all. */
  function StopColumnsOf(index: map<string, nat>): (r: Option<StopColumns>)
    ensures r.None? <==> ("stop_id" !in index || "stop_name" !in index || "stop_lat" !in index || "stop_lon" !in index)
  {
    if "stop_id" in index && "stop_name" in index && "stop_lat" in index && "stop_lon" in index
    then Some(StopColumns(index["stop_id"], index["stop_name"], index["stop_lat"], index["stop_lon"]))
    else None
  }

  /** One data row of the stop file. The name may be blank; the id and both
      coordinates may not, and the coordinates must parse. */
  function StopOfRow(line: string, cols: StopColumns, parseDouble: CoordinateParser): (r: Option<Stop>)
    ensures r.Some? ==> !IsBlank(r.value.id)
    ensures r.Some? ==> var t := ParseCsvLine(line);
                        && r.value.id == GetValue(t, cols.id)
                        && r.value.name == GetValue(t, cols.name)
                        && parseDouble(GetValue(t, cols.latitude)) == Some(r.value.latitude)
                        && parseDouble(GetValue(t, cols.longitude)) == Some(r.value.longitude)
    ensures var t := ParseCsvLine(line);
            r.Some? <==> && !IsBlank(GetValue(t, cols.id))
                         && !IsBlank(GetValue(t, cols.latitude)) && !IsBlank(GetValue(t, cols.longitude))
                         && parseDouble(GetValue(t, cols.latitude)).Some?
                         && parseDouble(GetValue(t, cols.longitude)).Some?
  {
    var t := ParseCsvLine(line);
    var id := GetValue(t, cols.id);
    var name := GetValue(t, cols.name);
    var lat := GetValue(t, cols.latitude);
    var lon := GetValue(t, cols.longitude);
    if IsBlank(id) || IsBlank(lat) || IsBlank(lon) then None
    else match (parseDouble(lat), parseDouble(lon))
      case (Some(latitude), Some(longitude)) => Some(Stop(id, name, latitude, longitude))
      case _ => None
  }

  /** The data rows of the stop file, each parsed on its own. */
  function StopRows(lines: seq<string>, cols: StopColumns, parseDouble: CoordinateParser): (r: seq<Option<Stop>>)
    ensures |r| == |lines|
    ensures forall i :: 0 <= i < |lines| ==> r[i] == StopOfRow(lines[i], cols, parseDouble)
  {
    seq(|lines|, i requires 0 <= i < |lines| => StopOfRow(lines[i], cols, parseDouble))
  }

  /** The row was kept and describes stop `id`. */
  predicate Defines(row: Option<Stop>, id: string) {
    row.Some? && row.value.id == id
  }

  /** The kept rows folded into a map, a later row replacing an earlier one
      with the same id (`HashMap.put`). */
  function StopTable(rows: seq<Option<Stop>>): (r: map<string, Stop>)
    ensures StopsKeyedById(r)
  {
    if |rows| == 0 then map[]
    else
      var table := StopTable(rows[..|rows| - 1]);
      match rows[|rows| - 1]
      case None => table
      case Some(s) => table[s.id := s]
  }

  /** A stop id is in the table exactly when some kept row describes it. */
  lemma {:induction false} StopTableMembers(rows: seq<Option<Stop>>, id: string)
    ensures id in StopTable(rows) <==> exists i :: 0 <= i < |rows| && Defines(rows[i], id)
  {
    if |rows| > 0 {
      var n := |rows| - 1;
      var init := rows[..n];
      StopTableMembers(init, id);
      assert forall i :: 0 <= i < n ==> rows[i] == init[i];
    }
  }

  /** The entry of a stop id is the stop of the last row describing it. */
  lemma {:induction false} StopTableLastRowWins(rows: seq<Option<Stop>>, id: string)
    requires id in StopTable(rows)
    ensures exists i :: && 0 <= i < |rows|
                        && rows[i] == Some(StopTable(rows)[id])
                        && forall j :: i < j < |rows| ==> !Defines(rows[j], id)
  {
    var n := |rows| - 1;
    var init := rows[..n];
    if Defines(rows[n], id) {
      assert rows[n] == Some(StopTable(rows)[id]);
    } else {
      assert StopTable(rows)[id] == StopTable(init)[id];
      StopTableLastRowWins(init, id);
      var i :| && 0 <= i < n
               && init[i] == Some(StopTable(init)[id])
               && forall j :: i < j < n ==> !Defines(init[j], id);
      assert rows[i] == init[i];
      assert forall j :: i < j < n ==> rows[j] == init[j];
    }
  }

  /** `loadStops`: an unreadable file is fatal; an empty file or a header
      missing a required column gives an empty table. */
  function LoadStops(file: FeedFile, parseDouble: CoordinateParser): (r: Result<map<string, Stop>, LoadError>)
    ensures r.Failure? <==> file.Unreadable?
    ensures r.Success? ==> StopsKeyedById(r.value)
    ensures file == Lines([]) ==> r == Success(map[])
    ensures file.Lines? && |file.lines| > 0 && StopColumnsOf(BuildColumnIndex(file.lines[0])).None? ==> r == Success(map[])
  {
    match file
    case Unreadable => Failure(StopsUnreadable)
    case Lines(lines) =>
      if |lines| == 0 then Success(map[])
      else
        match StopColumnsOf(BuildColumnIndex(lines[0]))
        case None => Success(map[])
        case Some(cols) => Success(StopTable(StopRows(lines[1..], cols, parseDouble)))
  }

  /** With the required columns present, a stop id is loaded exactly when some
      data row is kept for it, and its entry comes from the last such row. */
  lemma LoadStopsRows(lines: seq<string>, parseDouble: CoordinateParser, id: string)
    requires |lines| > 0 && StopColumnsOf(BuildColumnIndex(lines[0])).Some?
    ensures var cols := StopColumnsOf(BuildColumnIndex(lines[0])).value;
            var table := LoadStops(Lines(lines), parseDouble).value;
            && (id in table <==> exists i :: 1 <= i < |lines| && Defines(StopOfRow(lines[i], cols, parseDouble), id))
            && (id in table ==> exists i :: && 1 <= i < |lines|
                                             && StopOfRow(lines[i], cols, parseDouble) == Some(table[id])
                                             && forall j :: i < j < |lines| ==> !Defines(StopOfRow(lines[j], cols, parseDouble), id))
  {
    var cols := StopColumnsOf(BuildColumnIndex(lines[0])).value;
    var rows := StopRows(lines[1..], cols, parseDouble);
    assert LoadStops(Lines(lines), parseDouble).value == StopTable(rows);
    StopRowsMembers(lines, cols, parseDouble, id);
    StopRowsLastWins(lines, cols, parseDouble, id);
  }

  /** Membership, stated over the lines after the header. */
  lemma StopRowsMembers(lines: seq<string>, cols: StopColumns, parseDouble: CoordinateParser, id: string)
    requires |lines| > 0
    ensures id in StopTable(StopRows(lines[1..], cols, parseDouble))
            <==> exists i :: 1 <= i < |lines| && Defines(StopOfRow(lines[i], cols, parseDouble), id)
  {
    var rows := StopRows(lines[1..], cols, parseDouble);
    StopTableMembers(rows, id);
    if id in StopTable(rows) {
      var i :| 0 <= i < |rows| && Defines(rows[i], id);
      assert rows[i] == StopOfRow(lines[i + 1], cols, parseDouble);
    }
    if exists i :: 1 <= i < |lines| && Defines(StopOfRow(lines[i], cols, parseDouble), id) {
      var i :| 1 <= i < |lines| && Defines(StopOfRow(lines[i], cols, parseDouble), id);
      assert rows[i - 1] == StopOfRow(lines[i], cols, parseDouble);
    }
  }

  /** The last describing row wins, stated over the lines after the header. */
  lemma StopRowsLastWins(lines: seq<string>, cols: StopColumns, parseDouble: CoordinateParser, id: string)
    requires |lines| > 0
    ensures var table := StopTable(StopRows(lines[1..], cols, parseDouble));
            id in table ==> exists i :: && 1 <= i < |lines|
                                        && StopOfRow(lines[i], cols, parseDouble) == Some(table[id])
                                        && forall j :: i < j < |lines| ==> !Defines(StopOfRow(lines[j], cols, parseDouble), id)
  {
    var rows := StopRows(lines[1..], cols, parseDouble);
    if id in StopTable(rows) {
      var parse := line => StopOfRow(line, cols, parseDouble);
      forall i | 0 <= i < |rows| ensures rows[i] == parse(lines[i + 1]) {
        assert lines[1..][i] == lines[i + 1];
      }
      LinesLastWins(lines, rows, parse, id);
    }
  }

  /** `StopTableLastRowWins` restated over the lines the rows were parsed
      from, the header being line 0. */
  lemma LinesLastWins(lines: seq<string>, rows: seq<Option<Stop>>, parse: string -> Option<Stop>, id: string)
    requires |lines| == |rows| + 1
    requires forall i :: 0 <= i < |rows| ==> rows[i] == parse(lines[i + 1])
    requires id in StopTable(rows)
    ensures exists i :: && 1 <= i < |lines|
                        && parse(lines[i]) == Some(StopTable(rows)[id])
                        && forall j :: i < j < |lines| ==> !Defines(parse(lines[j]), id)
  {
    StopTableLastRowWins(rows, id);
    var k :| && 0 <= k < |rows|
             && rows[k] == Some(StopTable(rows)[id])
             && forall j :: k < j < |rows| ==> !Defines(rows[j], id);
    forall j | k + 1 < j < |lines| ensures !Defines(parse(lines[j]), id) {
      assert rows[j - 1] == parse(lines[j]);
    }
    assert parse(lines[k + 1]) == Some(StopTable(rows)[id]);
  }

  // ---------------------------------------------------------------------------
  // stop_times.txt: kept rows and trip groups
  // ---------------------------------------------------------------------------

  datatype StopTimeColumns = StopTimeColumns(trip: nat, arrival: nat, stop: nat, sequence: nat)

  function StopTimeColumnsOf(index: map<string, nat>): (r: Option<StopTimeColumns>)
    ensures r.None? <==> ("trip_id" !in index || "arrival_time" !in index || "stop_id" !in index || "stop_sequence" !in index)
  {
    if "trip_id" in index && "arrival_time" in index && "stop_id" in index && "stop_sequence" in index
    then Some(StopTimeColumns(index["trip_id"], index["arrival_time"], index["stop_id"], index["stop_sequence"]))
    else None
  }

  datatype StopTimeRow = StopTimeRow(stopId: string, sequence: int, arrivalSeconds: int)

  /** A kept stop-time row together with the trip it belongs to. */
  datatype TripRow = TripRow(tripId: string, row: StopTimeRow)

  /** One data row of the stop-time file: skipped when a required field is
      blank, when the stop was not loaded, or when the sequence or the arrival
      time does not parse. */
  function TripRowOf(line: string, cols: StopTimeColumns, stops: set<string>): (r: Option<TripRow>)
    ensures r.Some? ==> !IsBlank(r.value.tripId) && r.value.row.stopId in stops
    ensures r.Some? ==> var t := ParseCsvLine(line);
                        && r.value.tripId == GetValue(t, cols.trip)
                        && r.value.row.stopId == GetValue(t, cols.stop)
                        && ParseInt(GetValue(t, cols.sequence)) == Some(r.value.row.sequence)
                        && ParseGtfsTime(GetValue(t, cols.arrival)) == Some(r.value.row.arrivalSeconds)
    ensures GetValue(ParseCsvLine(line), cols.stop) !in stops ==> r.None?
    ensures var t := ParseCsvLine(line);
            r.Some? <==> && !IsBlank(GetValue(t, cols.trip)) && !IsBlank(GetValue(t, cols.stop))
                         && !IsBlank(GetValue(t, cols.arrival)) && !IsBlank(GetValue(t, cols.sequence))
                         && GetValue(t, cols.stop) in stops
                         && ParseInt(GetValue(t, cols.sequence)).Some?
                         && ParseGtfsTime(GetValue(t, cols.arrival)).Some?
  {
    var t := ParseCsvLine(line);
    var tripId := GetValue(t, cols.trip);
    var stopId := GetValue(t, cols.stop);
    var arrival := GetValue(t, cols.arrival);
    var sequence := GetValue(t, cols.sequence);
    if IsBlank(tripId) || IsBlank(stopId) || IsBlank(arrival) || IsBlank(sequence) then None
    else if stopId !in stops then None
    else match (ParseInt(sequence), ParseGtfsTime(arrival))
      case (Some(q), Some(a)) => Some(TripRow(tripId, StopTimeRow(stopId, q, a)))
      case _ => None
  }

  /** The values of the kept entries, in order. */
  function Kept<T>(s: seq<Option<T>>): (r: seq<T>)
    ensures |r| <= |s|
    ensures forall k :: 0 <= k < |r| ==> Some(r[k]) in s
  {
    if |s| == 0 then []
    else
      var init := Kept(s[..|s| - 1]);
      assert forall k :: 0 <= k < |s| - 1 ==> s[..|s| - 1][k] == s[k];
      match s[|s| - 1]
      case None => init
      case Some(x) => init + [x]
  }

  /** A skipped entry changes nothing about the others. */
  lemma {:induction false} SkippedRowIsInvisible<T>(before: seq<Option<T>>, after: seq<Option<T>>)
    ensures Kept(before + [None] + after) == Kept(before + after)
    decreases |after|
  {
    if |after| == 0 {
      assert (before + [None] + after)[..|before|] == before;
      assert before + after == before;
    } else {
      var a' := after[..|after| - 1];
      SkippedRowIsInvisible(before, a');
      assert (before + [None] + after)[..|before + [None] + after| - 1] == before + [None] + a';
      assert (before + after)[..|before + after| - 1] == before + a';
    }
  }

  /** The data rows of the stop-time file, each parsed on its own. */
  function TripRows(lines: seq<string>, cols: StopTimeColumns, stops: set<string>): (r: seq<Option<TripRow>>)
    ensures |r| == |lines|
    ensures forall i :: 0 <= i < |lines| ==> r[i] == TripRowOf(lines[i], cols, stops)
  {
    seq(|lines|, i requires 0 <= i < |lines| => TripRowOf(lines[i], cols, stops))
  }

  /** The rows that survive `TripRowOf`, in file order. */
  function KeptRows(lines: seq<string>, cols: StopTimeColumns, stops: set<string>): (r: seq<TripRow>)
    ensures |r| <= |lines|
    ensures RowsWithin(r, stops)
  {
    var parsed := TripRows(lines, cols, stops);
    KeptWithin(parsed, stops);
    Kept(parsed)
  }

  /** Dropping the skipped entries keeps only rows whose stop is in `stops`. */
  lemma KeptWithin(parsed: seq<Option<TripRow>>, stops: set<string>)
    requires forall i :: 0 <= i < |parsed| && parsed[i].Some? ==> parsed[i].value.row.stopId in stops
    ensures RowsWithin(Kept(parsed), stops)
  {
    var r := Kept(parsed);
    forall k | 0 <= k < |r|
      ensures r[k].row.stopId in stops
    {
      var i :| 0 <= i < |parsed| && parsed[i] == Some(r[k]);
    }
  }

  /** Every row's stop is one of `stops`. */
  predicate RowsWithin(rows: seq<TripRow>, stops: set<string>) {
    forall i :: 0 <= i < |rows| ==> rows[i].row.stopId in stops
  }

  function Concat<T>(groups: seq<seq<T>>): seq<T> {
    if |groups| == 0 then [] else Concat(groups[..|groups| - 1]) + groups[|groups| - 1]
  }

  lemma {:induction false} ConcatContains<T>(groups: seq<seq<T>>, k: int, i: int)
    requires 0 <= k < |groups| && 0 <= i < |groups[k]|
    ensures groups[k][i] in Concat(groups)
  {
    if k < |groups| - 1 {
      ConcatContains(groups[..|groups| - 1], k, i);
    }
  }

  function Last<T>(s: seq<T>): T
    requires |s| > 0
  {
    s[|s| - 1]
  }

  /** The runs of consecutive rows with the same trip id, in file order: a
      group closes whenever the trip id changes, so rows of one trip that are
      not contiguous form separate groups. (After the last row the source
      also processes the still-open group; with no kept rows that group is
      empty and contributes nothing, so it is not listed.) */
  function TripGroups(rows: seq<TripRow>): (r: seq<seq<TripRow>>)
    ensures Concat(r) == rows
    ensures Grouped(r)
  {
    if |rows| == 0 then []
    else
      var init := rows[..|rows| - 1];
      var x := rows[|rows| - 1];
      var g := TripGroups(init);
      assert rows == init + [x];
      if |init| > 0 && Last(init).tripId == x.tripId then
        ExtendStep(init, x, g);
        g[..|g| - 1] + [g[|g| - 1] + [x]]
      else
        StartStep(init, x, g);
        g + [[x]]
  }

  /** A row of the trip the last group holds joins that group. */
  lemma ExtendStep(init: seq<TripRow>, x: TripRow, g: seq<seq<TripRow>>)
    requires Concat(g) == init && Grouped(g) && |init| > 0 && Last(init).tripId == x.tripId
    ensures |g| > 0
    ensures Concat(g[..|g| - 1] + [g[|g| - 1] + [x]]) == init + [x]
    ensures Grouped(g[..|g| - 1] + [g[|g| - 1] + [x]])
  {
    LastOfConcat(g);
    var n := |g| - 1;
    assert Last(g[n]).tripId == x.tripId;
    GroupExtend(g, x);
    ConcatExtendLast(g[..n], g[n], x);
    SplitLastGroup(g);
  }

  lemma ConcatExtendLast<T>(front: seq<seq<T>>, last: seq<T>, x: T)
    ensures Concat(front + [last + [x]]) == Concat(front + [last]) + [x]
  {
    ConcatSnoc(front, last + [x]);
    ConcatSnoc(front, last);
  }

  lemma SplitLastGroup<T>(g: seq<seq<T>>)
    requires |g| > 0
    ensures g[..|g| - 1] + [g[|g| - 1]] == g
  {
  }

  /** A row of another trip opens a new group. */
  lemma StartStep(init: seq<TripRow>, x: TripRow, g: seq<seq<TripRow>>)
    requires Concat(g) == init && Grouped(g) && !(|init| > 0 && Last(init).tripId == x.tripId)
    ensures Concat(g + [[x]]) == init + [x]
    ensures Grouped(g + [[x]])
  {
    LastOfConcat(g);
    GroupStart(g, x);
    ConcatSnoc(g, [x]);
  }

  /** Every group is non-empty and holds one trip id, and neighbouring groups
      hold different trip ids. */
  predicate Grouped(groups: seq<seq<TripRow>>) {
    && (forall k :: 0 <= k < |groups| ==> |groups[k]| > 0)
    && (forall k, i :: 0 <= k < |groups| && 0 <= i < |groups[k]| ==> groups[k][i].tripId == groups[k][0].tripId)
    && (forall k :: 0 < k < |groups| ==> TripChangesAt(groups, k))
  }

  /** Group `k` starts a different trip from the one group `k - 1` ends. */
  predicate TripChangesAt(groups: seq<seq<TripRow>>, k: int)
    requires 0 < k < |groups| && |groups[k - 1]| > 0 && |groups[k]| > 0
  {
    Last(groups[k - 1]).tripId != groups[k][0].tripId
  }

  lemma ConcatSnoc<T>(g: seq<seq<T>>, y: seq<T>)
    ensures Concat(g + [y]) == Concat(g) + y
  {
    assert (g + [y])[..|g|] == g;
  }

  lemma LastOfConcat(g: seq<seq<TripRow>>)
    requires Grouped(g)
    ensures |g| > 0 <==> |Concat(g)| > 0
    ensures |g| > 0 ==> Last(Concat(g)) == Last(g[|g| - 1])
  {
  }

  lemma GroupExtend(g: seq<seq<TripRow>>, x: TripRow)
    requires Grouped(g) && |g| > 0 && Last(g[|g| - 1]).tripId == x.tripId
    ensures Grouped(g[..|g| - 1] + [g[|g| - 1] + [x]])
  {
    var n := |g| - 1;
    var r := g[..n] + [g[n] + [x]];
    assert r[..n] == g[..n];
    forall k | 0 <= k < |r|
      ensures |r[k]| > 0
      ensures forall i :: 0 <= i < |r[k]| ==> r[k][i].tripId == r[k][0].tripId
    {
      if k < n {
        assert r[k] == g[k];
      } else {
        assert r[k] == g[n] + [x];
        assert g[n][0].tripId == Last(g[n]).tripId;
      }
    }
    forall k | 0 < k < |r|
      ensures TripChangesAt(r, k)
    {
      assert TripChangesAt(g, k);
      assert r[k - 1] == g[k - 1];
      assert r[k][0] == g[k][0];
    }
  }

  lemma GroupStart(g: seq<seq<TripRow>>, x: TripRow)
    requires Grouped(g) && (|g| > 0 ==> Last(g[|g| - 1]).tripId != x.tripId)
    ensures Grouped(g + [[x]])
  {
    var r := g + [[x]];
    assert r[..|g|] == g;
    forall k | 0 <= k < |r|
      ensures |r[k]| > 0
      ensures forall i :: 0 <= i < |r[k]| ==> r[k][i].tripId == r[k][0].tripId
    {
      if k < |g| {
        assert r[k] == g[k];
      }
    }
    forall k | 0 < k < |r|
      ensures TripChangesAt(r, k)
    {
      assert r[k - 1] == g[k - 1];
      if k < |g| {
        assert TripChangesAt(g, k);
        assert r[k] == g[k];
      }
    }
  }

  // ---------------------------------------------------------------------------
  // Per-trip observations
  // ---------------------------------------------------------------------------

  /** One timed hop between consecutive stops of a trip. */
  datatype Observation = Observation(fromStopId: string, toStopId: string, travelSeconds: int)

  function ObservationOf(from: StopTimeRow, to: StopTimeRow): Observation {
    Observation(from.stopId, to.stopId, Max(DefaultEdgeTimeSeconds, to.arrivalSeconds - from.arrivalSeconds))
  }

  /** `o` is the hop from `rows[i - 1]` to `rows[i]`. */
  predicate StepAt(rows: seq<StopTimeRow>, i: int, o: Observation) {
    1 <= i < |rows| && o == ObservationOf(rows[i - 1], rows[i])
  }

  /** The hops between consecutive rows, skipping pairs at the same stop. */
  function StepObservations(rows: seq<StopTimeRow>): (r: seq<Observation>)
    ensures |r| < |rows| || |r| == 0
    ensures forall k :: 0 <= k < |r| ==> r[k].fromStopId != r[k].toStopId && r[k].travelSeconds >= DefaultEdgeTimeSeconds
  {
    if |rows| < 2 then []
    else
      var prev := StepObservations(rows[..|rows| - 1]);
      var a := rows[|rows| - 2];
      var b := rows[|rows| - 1];
      if a.stopId == b.stopId then prev else prev + [ObservationOf(a, b)]
  }

  /** Every observation is the hop between some pair of consecutive rows. */
  lemma {:induction false} StepObservationsSound(rows: seq<StopTimeRow>, k: int)
    requires 0 <= k < |StepObservations(rows)|
    ensures exists i :: StepAt(rows, i, StepObservations(rows)[k])
  {
    var n := |rows| - 1;
    var init := rows[..n];
    var prev := StepObservations(init);
    if k < |prev| {
      StepObservationsSound(init, k);
      var i :| StepAt(init, i, prev[k]);
      assert init[i - 1] == rows[i - 1] && init[i] == rows[i];
      assert StepAt(rows, i, StepObservations(rows)[k]);
    } else {
      assert StepAt(rows, n, StepObservations(rows)[k]);
    }
  }

  /** Every hop between consecutive rows at different stops is observed. */
  lemma {:induction false} StepObservationsComplete(rows: seq<StopTimeRow>, i: int)
    requires 1 <= i < |rows| && rows[i - 1].stopId != rows[i].stopId
    ensures ObservationOf(rows[i - 1], rows[i]) in StepObservations(rows)
  {
    var n := |rows| - 1;
    if i < n {
      var init := rows[..n];
      StepObservationsComplete(init, i);
      assert init[i - 1] == rows[i - 1] && init[i] == rows[i];
    }
  }

  function SequenceKey(row: StopTimeRow): SortKey {
    SortKey(row.sequence, 0)
  }

  function RowsOf(group: seq<TripRow>): (r: seq<StopTimeRow>)
    ensures |r| == |group|
    ensures forall i :: 0 <= i < |group| ==> r[i] == group[i].row
  {
    seq(|group|, i requires 0 <= i < |group| => group[i].row)
  }

  /** `processTripRows`: a group of fewer than two rows contributes nothing;
      otherwise the rows are stably sorted by stop sequence and paired. */
  function TripObservations(group: seq<TripRow>): (r: seq<Observation>)
    ensures |group| < 2 ==> r == []
    ensures forall k :: 0 <= k < |r| ==> r[k].fromStopId != r[k].toStopId && r[k].travelSeconds >= DefaultEdgeTimeSeconds
  {
    if |group| < 2 then [] else StepObservations(StableSort(RowsOf(group), SequenceKey))
  }

  /** Every hop of a trip joins two stops the trip visits. */
  lemma TripObservationsWithin(group: seq<TripRow>, stops: set<string>)
    requires RowsWithin(group, stops)
    ensures ObservationsWithin(TripObservations(group), stops)
  {
    if |group| >= 2 {
      var sorted := StableSort(RowsOf(group), SequenceKey);
      var r := StepObservations(sorted);
      forall k | 0 <= k < |r|
        ensures r[k].fromStopId in stops && r[k].toStopId in stops
      {
        StepObservationsSound(sorted, k);
        var i :| StepAt(sorted, i, r[k]);
        assert sorted[i - 1] in multiset(RowsOf(group));
        assert sorted[i] in multiset(RowsOf(group));
      }
    }
  }

  predicate ObservationsWithin(obs: seq<Observation>, stops: set<string>) {
    forall k :: 0 <= k < |obs| ==> obs[k].fromStopId in stops && obs[k].toStopId in stops
  }

  /** The observations of every trip group, group by group. */
  function AllObservations(groups: seq<seq<TripRow>>): (r: seq<Observation>)
    ensures forall k :: 0 <= k < |r| ==> r[k].fromStopId != r[k].toStopId && r[k].travelSeconds >= DefaultEdgeTimeSeconds
  {
    if |groups| == 0 then []
    else AllObservations(groups[..|groups| - 1]) + TripObservations(groups[|groups| - 1])
  }

  lemma {:induction false} AllObservationsWithin(groups: seq<seq<TripRow>>, stops: set<string>)
    requires forall k :: 0 <= k < |groups| ==> RowsWithin(groups[k], stops)
    ensures ObservationsWithin(AllObservations(groups), stops)
  {
    if |groups| > 0 {
      AllObservationsWithin(groups[..|groups| - 1], stops);
      TripObservationsWithin(groups[|groups| - 1], stops);
    }
  }

  // ---------------------------------------------------------------------------
  // Aggregation: `StopEdgeStats` per ordered pair
  // ---------------------------------------------------------------------------

  /** An ordered pair of stops; the source keys it by `from + "->" + to`. */
  datatype Link = Link(fromStopId: string, toStopId: string)

  function LinkOf(o: Observation): Link {
    Link(o.fromStopId, o.toStopId)
  }

  datatype StopEdgeStats = StopEdgeStats(totalTravelSeconds: int, sampleCount: nat)

  /** `addObservation`. */
  function AddObservation(s: StopEdgeStats, travelSeconds: int): StopEdgeStats {
    StopEdgeStats(s.totalTravelSeconds + travelSeconds, s.sampleCount + 1)
  }

  /** `averageTravelSeconds`: the default for no samples, otherwise the
      truncated mean floored at the default. */
  function AverageTravelSeconds(s: StopEdgeStats): (r: int)
    ensures r >= DefaultEdgeTimeSeconds
    ensures s.sampleCount == 0 ==> r == DefaultEdgeTimeSeconds
    ensures s.sampleCount > 0 && s.totalTravelSeconds >= DefaultEdgeTimeSeconds * s.sampleCount ==>
            r == s.totalTravelSeconds / s.sampleCount
  {
    if s.sampleCount == 0 then DefaultEdgeTimeSeconds
    else
      var q := JavaDiv(s.totalTravelSeconds, s.sampleCount);
      assert s.totalTravelSeconds >= DefaultEdgeTimeSeconds * s.sampleCount ==> q >= DefaultEdgeTimeSeconds by {
        if s.totalTravelSeconds >= DefaultEdgeTimeSeconds * s.sampleCount {
          DivAtLeast(s.totalTravelSeconds, s.sampleCount, DefaultEdgeTimeSeconds);
        }
      }
      Max(DefaultEdgeTimeSeconds, q)
  }

  lemma DivAtLeast(a: int, b: int, m: int)
    requires b > 0 && a >= m * b
    ensures a / b >= m
  {
    if a / b < m {
      assert a == b * (a / b) + a % b;
      MulMonotone(b, a / b, m - 1);
    }
  }

  lemma MulMonotone(b: int, x: int, y: int)
    requires b > 0 && x <= y
    ensures b * x <= b * y
  {
    assert b * y - b * x == b * (y - x);
  }

  /** The per-pair statistics, folding the observations in order. */
  function Tally(obs: seq<Observation>): (r: map<Link, StopEdgeStats>)
    ensures forall l :: l in r ==> r[l].sampleCount > 0
  {
    if |obs| == 0 then map[]
    else
      var t := Tally(obs[..|obs| - 1]);
      var o := obs[|obs| - 1];
      var stats := if LinkOf(o) in t then t[LinkOf(o)] else StopEdgeStats(0, 0);
      t[LinkOf(o) := AddObservation(stats, o.travelSeconds)]
  }

  /** Reference sums: the total and the number of observations of pair `l`. */
  function SumFor(obs: seq<Observation>, l: Link): int {
    if |obs| == 0 then 0
    else SumFor(obs[..|obs| - 1], l) + (if LinkOf(obs[|obs| - 1]) == l then obs[|obs| - 1].travelSeconds else 0)
  }

  function CountFor(obs: seq<Observation>, l: Link): nat {
    if |obs| == 0 then 0
    else CountFor(obs[..|obs| - 1], l) + (if LinkOf(obs[|obs| - 1]) == l then 1 else 0)
  }

  /** The fold keeps, per pair, exactly the sum and the count of its
      observations. */
  lemma {:induction false} TallyMatchesSums(obs: seq<Observation>, l: Link)
    ensures l in Tally(obs) <==> CountFor(obs, l) > 0
    ensures l in Tally(obs) ==> Tally(obs)[l] == StopEdgeStats(SumFor(obs, l), CountFor(obs, l))
    ensures l !in Tally(obs) ==> SumFor(obs, l) == 0
  {
    if |obs| > 0 {
      var init := obs[..|obs| - 1];
      var o := obs[|obs| - 1];
      TallyMatchesSums(init, l);
      assert CountFor(obs, l) == CountFor(init, l) + (if LinkOf(o) == l then 1 else 0);
      assert SumFor(obs, l) == SumFor(init, l) + (if LinkOf(o) == l then o.travelSeconds else 0);
      if LinkOf(o) != l {
        assert l in Tally(obs) <==> l in Tally(init);
        assert l in Tally(init) ==> Tally(obs)[l] == Tally(init)[l];
      }
    }
  }

  /** Observations floored at the default add up to at least the default per
      sample. */
  lemma {:induction false} SumForAtLeast(obs: seq<Observation>, l: Link)
    requires forall k :: 0 <= k < |obs| ==> obs[k].travelSeconds >= DefaultEdgeTimeSeconds
    ensures SumFor(obs, l) >= DefaultEdgeTimeSeconds * CountFor(obs, l)
  {
    if |obs| > 0 {
      SumForAtLeast(obs[..|obs| - 1], l);
    }
  }

  /** The averaged weight of every observed pair. */
  function EdgeTable(obs: seq<Observation>): (r: map<Link, int>)
    ensures r.Keys == Tally(obs).Keys
    ensures forall l :: l in r ==> r[l] >= DefaultEdgeTimeSeconds
  {
    map l | l in Tally(obs) :: AverageTravelSeconds(Tally(obs)[l])
  }

  /** Because every observation is floored first, the final floor never
      bites: an edge's weight is exactly the truncated mean of its
      observations, and a pair has an edge iff it was observed. */
  lemma EdgeWeightIsMean(obs: seq<Observation>, l: Link)
    requires forall k :: 0 <= k < |obs| ==> obs[k].travelSeconds >= DefaultEdgeTimeSeconds
    ensures l in EdgeTable(obs) <==> CountFor(obs, l) > 0
    ensures l in EdgeTable(obs) ==> EdgeTable(obs)[l] == SumFor(obs, l) / CountFor(obs, l)
  {
    TallyMatchesSums(obs, l);
    SumForAtLeast(obs, l);
  }

  // ---------------------------------------------------------------------------
  // Worked examples of the aggregation
  // ---------------------------------------------------------------------------

  /** A two-row trip yields one hop, taken in stop-sequence order whatever the
      file order (rows with equal sequence numbers keep their file order). */
  lemma TwoStopTrip(p: TripRow, q: TripRow)
    requires p.row.stopId != q.row.stopId
    ensures TripObservations([p, q])
            == if p.row.sequence <= q.row.sequence then [ObservationOf(p.row, q.row)] else [ObservationOf(q.row, p.row)]
  {
    TwoRowTrip(p, q);
    SortTwoRows(p.row, q.row);
    if p.row.sequence <= q.row.sequence {
      StepOfTwo(p.row, q.row);
    } else {
      StepOfTwo(q.row, p.row);
    }
  }

  /** A two-row group is observed through its two rows. */
  lemma TwoRowTrip(p: TripRow, q: TripRow)
    ensures TripObservations([p, q]) == StepObservations(StableSort([p.row, q.row], SequenceKey))
  {
    assert RowsOf([p, q]) == [p.row, q.row];
  }

  /** Sorting two rows by stop sequence swaps them only when the first has
      the larger sequence. */
  lemma SortTwoRows(x: StopTimeRow, y: StopTimeRow)
    ensures StableSort([x, y], SequenceKey) == if x.sequence <= y.sequence then [x, y] else [y, x]
  {
    assert [x, y][..1] == [x];
    assert [x][..0] == [];
    assert StableSort([x], SequenceKey) == [x];
    if y.sequence < x.sequence {
      assert Insert([], y, SequenceKey) == [y];
    }
  }

  /** Two rows at different stops give one hop. */
  lemma StepOfTwo(x: StopTimeRow, y: StopTimeRow)
    requires x.stopId != y.stopId
    ensures StepObservations([x, y]) == [ObservationOf(x, y)]
  {
    assert [x, y][..1] == [x];
    assert StepObservations([x]) == [];
  }

  /** Two rows of one trip form one group. */
  lemma OneTripGroup(p: TripRow, q: TripRow)
    requires p.tripId == q.tripId
    ensures TripGroups([p, q]) == [[p, q]]
  {
    assert [p, q][..1] == [p];
    assert [p][..0] == [];
    assert TripGroups([p]) == [[p]];
    assert [p] + [q] == [p, q];
  }

  /** A row of another trip opens a new group. */
  lemma NewTripGroup(rows: seq<TripRow>, x: TripRow)
    requires |rows| > 0 && Last(rows).tripId != x.tripId
    ensures TripGroups(rows + [x]) == TripGroups(rows) + [[x]]
  {
    assert (rows + [x])[..|rows|] == rows;
  }

  /** A row of the same trip extends the last group. */
  lemma SameTripGroup(rows: seq<TripRow>, x: TripRow)
    requires |rows| > 0 && Last(rows).tripId == x.tripId
    ensures var g := TripGroups(rows);
            TripGroups(rows + [x]) == g[..|g| - 1] + [g[|g| - 1] + [x]]
  {
    assert (rows + [x])[..|rows|] == rows;
  }

  /** Two contiguous two-row trips form two groups. */
  lemma GroupsOfTwoPairs(p: TripRow, q: TripRow, u: TripRow, v: TripRow)
    requires p.tripId == q.tripId && u.tripId == v.tripId && q.tripId != u.tripId
    ensures TripGroups([p, q, u, v]) == [[p, q], [u, v]]
  {
    OneTripGroup(p, q);
    NewTripGroup([p, q], u);
    assert [p, q] + [u] == [p, q, u];
    SameTripGroup([p, q, u], v);
    assert [p, q, u] + [v] == [p, q, u, v];
    var g := [[p, q], [u]];
    assert [u] + [v] == [u, v];
    assert g[..1] + [g[1] + [v]] == [[p, q], [u, v]];
  }

  /** Two observations of one pair average to their truncated mean. */
  lemma TwoObservationsOfOnePair(o1: Observation, o2: Observation)
    requires LinkOf(o1) == LinkOf(o2)
    requires o1.travelSeconds >= DefaultEdgeTimeSeconds && o2.travelSeconds >= DefaultEdgeTimeSeconds
    ensures EdgeTable([o1, o2]) == map[LinkOf(o1) := (o1.travelSeconds + o2.travelSeconds) / 2]
  {
    assert [o1, o2][..1] == [o1];
    assert [o1][..0] == [];
    assert Tally([o1]) == map[LinkOf(o1) := StopEdgeStats(o1.travelSeconds, 1)];
    var stats := StopEdgeStats(o1.travelSeconds + o2.travelSeconds, 2);
    assert Tally([o1, o2]) == map[LinkOf(o1) := stats];
    assert AverageTravelSeconds(stats) == stats.totalTravelSeconds / 2;
  }

  lemma ObservationsOfTwoGroups(g1: seq<TripRow>, g2: seq<TripRow>)
    ensures AllObservations([g1, g2]) == TripObservations(g1) + TripObservations(g2)
  {
    assert [g1, g2][..1] == [g1];
    assert [g1][..0] == [];
    assert AllObservations([g1]) == TripObservations(g1);
  }

  /** Two contiguous trips that both leave `a` at time 0 and reach `b`
      `t1` and `t2` seconds later. */
  function TwoTrips(trip1: string, trip2: string, a: string, b: string, t1: int, t2: int): seq<TripRow> {
    [ TripRow(trip1, StopTimeRow(a, 1, 0)), TripRow(trip1, StopTimeRow(b, 2, t1)),
      TripRow(trip2, StopTimeRow(a, 1, 0)), TripRow(trip2, StopTimeRow(b, 2, t2)) ]
  }

  /** Two contiguous two-row trips over the same pair observe it twice. */
  lemma ObservationsOfTwoTrips(trip1: string, trip2: string, a: string, b: string, t1: int, t2: int)
    requires a != b && trip1 != trip2
    ensures AllObservations(TripGroups(TwoTrips(trip1, trip2, a, b, t1, t2)))
            == [Observation(a, b, Max(DefaultEdgeTimeSeconds, t1)), Observation(a, b, Max(DefaultEdgeTimeSeconds, t2))]
  {
    var p := TripRow(trip1, StopTimeRow(a, 1, 0));
    var q := TripRow(trip1, StopTimeRow(b, 2, t1));
    var u := TripRow(trip2, StopTimeRow(a, 1, 0));
    var v := TripRow(trip2, StopTimeRow(b, 2, t2));
    var o1 := Observation(a, b, Max(DefaultEdgeTimeSeconds, t1));
    var o2 := Observation(a, b, Max(DefaultEdgeTimeSeconds, t2));
    assert TripObservations([p, q]) == [o1] by {
      TwoStopTrip(p, q);
    }
    assert TripObservations([u, v]) == [o2] by {
      TwoStopTrip(u, v);
    }
    ObservationsOfTwoPairs(p, q, u, v, o1, o2);
  }

  /** Two contiguous two-row trips observe what each observes alone. */
  lemma ObservationsOfTwoPairs(p: TripRow, q: TripRow, u: TripRow, v: TripRow, o1: Observation, o2: Observation)
    requires p.tripId == q.tripId && u.tripId == v.tripId && q.tripId != u.tripId
    requires TripObservations([p, q]) == [o1] && TripObservations([u, v]) == [o2]
    ensures AllObservations(TripGroups([p, q, u, v])) == [o1, o2]
  {
    GroupsOfTwoPairs(p, q, u, v);
    ObservationsOfTwoGroups([p, q], [u, v]);
  }

  /** Two trips of one pair, each observed once: the edge weight is the mean
      of the two floored observations. */
  lemma TwoTripsOfOnePair(trip1: string, trip2: string, a: string, b: string, t1: int, t2: int)
    requires a != b && trip1 != trip2
    ensures EdgesOfRows(TwoTrips(trip1, trip2, a, b, t1, t2))
            == map[Link(a, b) := (Max(DefaultEdgeTimeSeconds, t1) + Max(DefaultEdgeTimeSeconds, t2)) / 2]
  {
    var o1 := Observation(a, b, Max(DefaultEdgeTimeSeconds, t1));
    var o2 := Observation(a, b, Max(DefaultEdgeTimeSeconds, t2));
    ObservationsOfTwoTrips(trip1, trip2, a, b, t1, t2);
    assert EdgesOfRows(TwoTrips(trip1, trip2, a, b, t1, t2)) == EdgeTable([o1, o2]);
    TwoObservationsOfOnePair(o1, o2);
  }

  /** Deltas of 200 s and 400 s average to 300 s. */
  lemma AverageOfTwoExample(trip1: string, trip2: string, a: string, b: string)
    requires a != b && trip1 != trip2
    ensures EdgesOfRows(TwoTrips(trip1, trip2, a, b, 200, 400))
            == map[Link(a, b) := 300]
  {
    TwoTripsOfOnePair(trip1, trip2, a, b, 200, 400);
    assert (Max(DefaultEdgeTimeSeconds, 200) + Max(DefaultEdgeTimeSeconds, 400)) / 2 == 300;
  }

  /** Each observation is floored before averaging: deltas of 30 s and 300 s
      give (120 + 300) / 2 = 210 s, not max(120, 165). */
  lemma FloorBeforeAverageExample(trip1: string, trip2: string, a: string, b: string)
    requires a != b && trip1 != trip2
    ensures EdgesOfRows(TwoTrips(trip1, trip2, a, b, 30, 300))
            == map[Link(a, b) := 210]
  {
    TwoTripsOfOnePair(trip1, trip2, a, b, 30, 300);
    assert (Max(DefaultEdgeTimeSeconds, 30) + Max(DefaultEdgeTimeSeconds, 300)) / 2 == 210;
  }

  // ---------------------------------------------------------------------------
  // loadEdges
  // ---------------------------------------------------------------------------

  /** The edge table of a sequence of kept rows. */
  function EdgesOfRows(rows: seq<TripRow>): map<Link, int> {
    EdgeTable(AllObservations(TripGroups(rows)))
  }

  /** Every edge joins two distinct stops of `stops` and weighs at least the
      default. */
  predicate EdgeTableWithin(table: map<Link, int>, stops: set<string>) {
    forall l :: l in table ==>
      && l.fromStopId in stops && l.toStopId in stops
      && l.fromStopId != l.toStopId
      && table[l] >= DefaultEdgeTimeSeconds
  }

  /** `loadEdges` up to the adjacency: an unreadable or empty file, or a
      header missing a required column, gives no edges. */
  function LoadEdgeTable(file: FeedFile, stops: set<string>): (r: map<Link, int>)
    ensures EdgeTableWithin(r, stops)
    ensures file.Unreadable? || file == Lines([]) ==> r == map[]
    ensures file.Lines? && |file.lines| > 0 && StopTimeColumnsOf(BuildColumnIndex(file.lines[0])).None? ==> r == map[]
  {
    match file
    case Unreadable => map[]
    case Lines(lines) =>
      if |lines| == 0 then map[]
      else
        match StopTimeColumnsOf(BuildColumnIndex(lines[0]))
        case None => map[]
        case Some(cols) =>
          var rows := KeptRows(lines[1..], cols, stops);
          var groups := TripGroups(rows);
          forall k, i | 0 <= k < |groups| && 0 <= i < |groups[k]|
            ensures groups[k][i].row.stopId in stops
          {
            ConcatContains(groups, k, i);
          }
          AllObservationsWithin(groups, stops);
          var obs := AllObservations(groups);
          var r := EdgeTable(obs);
          assert EdgeTableWithin(r, stops) by {
            forall l | l in r
              ensures l.fromStopId in stops && l.toStopId in stops && l.fromStopId != l.toStopId
            {
              ObservedLink(obs, l);
            }
          }
          r
  }

  /** A tallied pair comes from some observation. */
  lemma {:induction false} ObservedLink(obs: seq<Observation>, l: Link)
    requires l in Tally(obs)
    ensures exists k :: 0 <= k < |obs| && LinkOf(obs[k]) == l
  {
    var n := |obs| - 1;
    if LinkOf(obs[n]) != l {
      ObservedLink(obs[..n], l);
      var k :| 0 <= k < n && LinkOf(obs[..n][k]) == l;
      assert obs[k] == obs[..n][k];
    }
  }

  // ---------------------------------------------------------------------------
  // Adjacency and the frozen graph
  // ---------------------------------------------------------------------------

  predicate HasEdge(adj: Adjacency, l: Link) {
    exists i :: 0 <= i < |Out(adj, l.fromStopId)| && Out(adj, l.fromStopId)[i].toStopId == l.toStopId
  }

  /** `adj` holds exactly the links of `done`, one edge each, stored under
      its from-stop with the table's weight, and has no empty list. */
  predicate HoldsLinks(adj: Adjacency, table: map<Link, int>, done: set<Link>) {
    && done <= table.Keys
    && (forall k, i :: k in adj && 0 <= i < |adj[k]| ==>
          && adj[k][i].fromStopId == k
          && Link(k, adj[k][i].toStopId) in done
          && adj[k][i].travelTimeSeconds == table[Link(k, adj[k][i].toStopId)])
    && (forall l :: l in done ==> HasEdge(adj, l))
    && OneEdgePerPair(adj)
    && (forall k :: k in adj ==> |adj[k]| > 0)
  }

  /** `adj` holds exactly the edges of `table`. */
  predicate AdjacencyOf(adj: Adjacency, table: map<Link, int>) {
    HoldsLinks(adj, table, table.Keys)
  }

  /** `computeIfAbsent(from, ..).add(edge)`. */
  function AddEdge(adj: Adjacency, e: StopEdge): Adjacency {
    adj[e.fromStopId := Out(adj, e.fromStopId) + [e]]
  }

  lemma AddEdgeStep(adj: Adjacency, table: map<Link, int>, done: set<Link>, l: Link)
    requires HoldsLinks(adj, table, done) && l in table && l !in done
    ensures HoldsLinks(AddEdge(adj, StopEdge(l.fromStopId, l.toStopId, table[l])), table, done + {l})
  {
    var e := StopEdge(l.fromStopId, l.toStopId, table[l]);
    var adj' := AddEdge(adj, e);
    var f := l.fromStopId;
    assert adj'[f] == Out(adj, f) + [e];
    forall k, i | k in adj' && 0 <= i < |adj'[k]|
      ensures && adj'[k][i].fromStopId == k
              && Link(k, adj'[k][i].toStopId) in done + {l}
              && adj'[k][i].travelTimeSeconds == table[Link(k, adj'[k][i].toStopId)]
    {
      if k != f || i < |Out(adj, f)| {
        assert adj'[k][i] == adj[k][i];
      }
    }
    forall l' | l' in done + {l}
      ensures HasEdge(adj', l')
    {
      if l' == l {
        assert Out(adj', f)[|Out(adj', f)| - 1] == e;
      } else {
        var i :| 0 <= i < |Out(adj, l'.fromStopId)| && Out(adj, l'.fromStopId)[i].toStopId == l'.toStopId;
        assert Out(adj', l'.fromStopId)[i] == Out(adj, l'.fromStopId)[i];
      }
    }
    forall k, i, j | k in adj' && 0 <= i < j < |adj'[k]|
      ensures adj'[k][i].toStopId != adj'[k][j].toStopId
    {
      if k == f && j == |adj'[k]| - 1 {
        assert adj'[k][i] == adj[k][i];
        assert Link(k, adj[k][i].toStopId) in done;
      } else {
        assert adj'[k][i] == adj[k][i] && adj'[k][j] == adj[k][j];
      }
    }
  }

  /** The adjacency build of `loadEdges`: one edge per table entry, appended
      to its from-stop's list. The source walks a `HashMap`, whose order is
      unspecified, so the entries are taken in an arbitrary order here. */
  method BuildAdjacency(table: map<Link, int>) returns (adj: Adjacency)
    ensures AdjacencyOf(adj, table)
    ensures table == map[] ==> adj == map[]
  {
    adj := map[];
    var remaining := table.Keys;
    while remaining != {}
      invariant remaining <= table.Keys
      invariant HoldsLinks(adj, table, table.Keys - remaining)
      decreases remaining
    {
      var l :| l in remaining;
      AddEdgeStep(adj, table, table.Keys - remaining, l);
      adj := AddEdge(adj, StopEdge(l.fromStopId, l.toStopId, table[l]));
      assert table.Keys - (remaining - {l}) == (table.Keys - remaining) + {l};
      remaining := remaining - {l};
    }
    assert forall k :: k in adj ==> Link(k, adj[k][0].toStopId) in table;
  }

  /** `loadEdges`: the edge table of the stop-time file, restricted to the
      loaded stops, as an adjacency map. */
  method LoadEdges(file: FeedFile, stops: map<string, Stop>) returns (adj: Adjacency)
    ensures AdjacencyOf(adj, LoadEdgeTable(file, stops.Keys))
    ensures EdgesBetweenStops(stops, adj)
    ensures TravelAtLeast(adj, DefaultEdgeTimeSeconds)
    ensures file.Unreadable? ==> adj == map[]
  {
    var table := LoadEdgeTable(file, stops.Keys);
    adj := BuildAdjacency(table);
    AdjacencyWithin(adj, table, stops);
  }

  lemma AdjacencyWithin(adj: Adjacency, table: map<Link, int>, stops: map<string, Stop>)
    requires AdjacencyOf(adj, table) && EdgeTableWithin(table, stops.Keys)
    ensures EdgesBetweenStops(stops, adj) && TravelAtLeast(adj, DefaultEdgeTimeSeconds)
  {
    assert EdgesBetweenStops(stops, adj) by {
      forall k, i | k in adj && 0 <= i < |adj[k]|
        ensures adj[k][i].fromStopId == k && k in stops && adj[k][i].toStopId in stops
      {
        EdgeWithin(adj, table, stops, k, i);
      }
    }
    assert TravelAtLeast(adj, DefaultEdgeTimeSeconds) by {
      forall k, i | k in adj && 0 <= i < |adj[k]|
        ensures adj[k][i].travelTimeSeconds >= DefaultEdgeTimeSeconds
      {
        EdgeWithin(adj, table, stops, k, i);
      }
    }
  }

  lemma EdgeWithin(adj: Adjacency, table: map<Link, int>, stops: map<string, Stop>, k: string, i: int)
    requires AdjacencyOf(adj, table) && EdgeTableWithin(table, stops.Keys)
    requires k in adj && 0 <= i < |adj[k]|
    ensures adj[k][i].fromStopId == k && k in stops && adj[k][i].toStopId in stops
    ensures adj[k][i].travelTimeSeconds >= DefaultEdgeTimeSeconds
  {
    var e := adj[k][i];
    var l := Link(k, e.toStopId);
    assert e.fromStopId == k && l in table.Keys && e.travelTimeSeconds == table[l];
  }

  /** `loadGraph`: the stop table, then the edges between loaded stops,
      frozen into a graph. Copying the lists into immutable ones changes no
      contents and is the identity here. */
  method LoadGraph(stopsFile: FeedFile, stopTimesFile: FeedFile, parseDouble: CoordinateParser)
    returns (r: Result<StopGraph, LoadError>)
    ensures r.Failure? <==> stopsFile.Unreadable?
    ensures r.Success? ==> WellFormed(r.value)
    ensures r.Success? ==> OneEdgePerPair(r.value.adjacency)
    ensures r.Success? ==> TravelAtLeast(r.value.adjacency, DefaultEdgeTimeSeconds)
    ensures r.Success? ==> r.value.stops == LoadStops(stopsFile, parseDouble).value
    ensures r.Success? ==> AdjacencyOf(r.value.adjacency, LoadEdgeTable(stopTimesFile, r.value.stops.Keys))
    ensures r.Success? && stopTimesFile.Unreadable? ==> r.value.adjacency == map[]
  {
    var loaded := LoadStops(stopsFile, parseDouble);
    if loaded.Failure? {
      return Failure(loaded.error);
    }
    var stops := loaded.value;
    var adj := LoadEdges(stopTimesFile, stops);
    r := Success(StopGraph(stops, adj));
  }
}
