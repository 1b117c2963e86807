/** `SearchJourneyUseCase.execute`: validate the two stop ids, run the three
    searches, and turn their paths into the option list. */
module JourneySearch {
  import opened Wrappers
  import opened Text
  import opened Graph
  import opened Paths
  import opened ShortestPath
  import opened TravelTime
  import opened Sorting
  import opened JourneyOptions

  /** `dijkstra` with its duration: the cheapest path under `c`, if there is
      one, and the duration `computeActualDuration` reports for it. */
  method FindPath(adj: Adjacency, c: Criterion, origin: string, dest: string) returns (r: Option<PathResult>)
    ensures r.Some? ==> Cheapest(adj, c, r.value.stopIds, origin, dest)
    ensures r.Some? ==> r.value.totalDurationSeconds == ActualDuration(adj, r.value.stopIds)
    ensures r.None? <==> forall p :: !Joins(adj, p, origin, dest)
    ensures origin == dest ==> r == Some(PathResult([origin], 0))
  {
    var path := Dijkstra(adj, c, origin, dest);
    if path.None? {
      return None;
    }
    var duration := ComputeActualDuration(adj, path.value);
    r := Some(PathResult(path.value, duration));
  }

  /** What one search may hand back, as `FindPath` promises it. */
  ghost predicate Found(adj: Adjacency, c: Criterion, origin: string, dest: string, r: Option<PathResult>) {
    && (r.Some? ==> Cheapest(adj, c, r.value.stopIds, origin, dest))
    && (r.Some? ==> r.value.totalDurationSeconds == ActualDuration(adj, r.value.stopIds))
    && (r.None? <==> forall p :: !Joins(adj, p, origin, dest))
    && (origin == dest ==> r == Some(PathResult([origin], 0)))
  }

  /** Both ids are present, not blank, and name stops of the table. */
  predicate Accepted(g: StopGraph, origin: Option<string>, dest: Option<string>) {
    && origin.Some? && !IsBlank(origin.value)
    && dest.Some? && !IsBlank(dest.value)
    && origin.value in g.stops && dest.value in g.stops
  }

  /** `o` is the option for the path its stops spell out: a path from
      `origin` to `dest`, with the reported duration of that path, its
      transfers and its score. */
  predicate OptionOfPath(g: StopGraph, origin: string, dest: string, o: JourneyOption) {
    && Joins(g.adjacency, Signature(o), origin, dest)
    && Describes(g.stops, PathResult(Signature(o), ActualDuration(g.adjacency, Signature(o))), o)
  }

  /** What `execute` promises for any graph. */
  predicate Shaped(r: seq<JourneyOption>) {
    && |r| <= 3
    && SortedBy(r, DurationThenTransfers)
    && (|r| > 0 ==> CountWhere(r, Recommended) == 1)
    && (forall i :: 0 <= i < |r| ==>
          r[i].transfers == TransfersFor(|r[i].stops|) && r[i].score == ScoreOf(r[i].totalDurationSeconds, r[i].transfers))
  }

  /** What `execute` promises for a well-formed graph and two known stops. */
  ghost predicate Journeys(g: StopGraph, origin: string, dest: string, r: seq<JourneyOption>)
    requires origin in g.stops
  {
    && (forall i :: 0 <= i < |r| ==> OptionOfPath(g, origin, dest, r[i]))
    && (r == [] <==> forall p :: !Joins(g.adjacency, p, origin, dest))
    && DistinctBy(r, Signature)
    && (forall i :: 0 <= i < |r| && r[i].recommended ==> Cheapest(g.adjacency, Balanced, Signature(r[i]), origin, dest))
    && (r != [] ==> exists i :: 0 <= i < |r| && Cheapest(g.adjacency, Fastest, Signature(r[i]), origin, dest))
    && (r != [] ==> exists i :: 0 <= i < |r| && Cheapest(g.adjacency, FewestTransfers, Signature(r[i]), origin, dest))
    && (origin == dest ==> r == [JourneyOption([g.stops[origin]], 0, 0, 0, true)])
  }

  /** Under travel times between one second and `Integer.MAX_VALUE`, no
      path between the two stops is faster than the first option. */
  ghost predicate FastestFirst(g: StopGraph, origin: string, dest: string, r: seq<JourneyOption>) {
    r != [] ==> forall p :: Joins(g.adjacency, p, origin, dest) ==> r[0].totalDurationSeconds <= PathCost(g.adjacency, Fastest, p)
  }

  /** `execute`: no options for a missing, blank or unknown stop id;
      otherwise the three searches and the option list built from them. */
  method Execute(g: StopGraph, origin: Option<string>, dest: Option<string>) returns (r: seq<JourneyOption>)
    ensures !Accepted(g, origin, dest) ==> r == []
    ensures Shaped(r)
    ensures Accepted(g, origin, dest) && WellFormed(g) ==> Journeys(g, origin.value, dest.value, r)
    ensures Accepted(g, origin, dest) && WellFormed(g) && TravelAtLeast(g.adjacency, 1) && TravelBelow(g.adjacency, IntMax) ==>
              FastestFirst(g, origin.value, dest.value, r)
  {
    if origin.None? || IsBlank(origin.value) || dest.None? || IsBlank(dest.value) {
      return [];
    }
    var o, d := origin.value, dest.value;
    if o !in g.stops || d !in g.stops {
      return [];
    }
    var fastest := FindPath(g.adjacency, Fastest, o, d);
    var fewest := FindPath(g.adjacency, FewestTransfers, o, d);
    var balanced := FindPath(g.adjacency, Balanced, o, d);
    Outcome(g, o, d, fastest, fewest, balanced);
    r := Assemble(g.stops, fastest, fewest, balanced);
  }

  /** What the option list built from three searches satisfies. */
  lemma Outcome(g: StopGraph, origin: string, dest: string,
                fastest: Option<PathResult>, fewest: Option<PathResult>, balanced: Option<PathResult>)
    requires origin in g.stops && dest in g.stops
    requires Found(g.adjacency, Fastest, origin, dest, fastest)
    requires Found(g.adjacency, FewestTransfers, origin, dest, fewest)
    requires Found(g.adjacency, Balanced, origin, dest, balanced)
    ensures var r := Assemble(g.stops, fastest, fewest, balanced);
            && Shaped(r)
            && (WellFormed(g) ==> Journeys(g, origin, dest, r))
            && (WellFormed(g) && TravelAtLeast(g.adjacency, 1) && TravelBelow(g.adjacency, IntMax) ==> FastestFirst(g, origin, dest, r))
  {
    var r := Assemble(g.stops, fastest, fewest, balanced);
    AssembleShape(g.stops, fastest, fewest, balanced);
    ShapedOptions(g.stops, [fastest, fewest, balanced], r);
    if WellFormed(g) {
      SearchResults(g, origin, dest, fastest, fewest, balanced);
      if TravelAtLeast(g.adjacency, 1) && TravelBelow(g.adjacency, IntMax) {
        FastestOutcome(g, origin, dest, fastest, fewest, balanced);
      }
    }
  }

  lemma FastestOutcome(g: StopGraph, origin: string, dest: string,
                       fastest: Option<PathResult>, fewest: Option<PathResult>, balanced: Option<PathResult>)
    requires WellFormed(g) && TravelAtLeast(g.adjacency, 1) && TravelBelow(g.adjacency, IntMax)
    requires origin in g.stops && dest in g.stops
    requires Found(g.adjacency, Fastest, origin, dest, fastest)
    requires Found(g.adjacency, FewestTransfers, origin, dest, fewest)
    requires Found(g.adjacency, Balanced, origin, dest, balanced)
    ensures FastestFirst(g, origin, dest, Assemble(g.stops, fastest, fewest, balanced))
  {
    var r := Assemble(g.stops, fastest, fewest, balanced);
    if fastest.Some? {
      FoundKnown(g, Fastest, origin, dest, fastest);
      FoundKnown(g, FewestTransfers, origin, dest, fewest);
      FoundKnown(g, Balanced, origin, dest, balanced);
      AssembleCovers(g.stops, fastest, fewest, balanced);
      AssembleShape(g.stops, fastest, fewest, balanced);
      OptionsArePaths(g, origin, dest, fastest, fewest, balanced);
      var i :| 0 <= i < |r| && Signature(r[i]) == fastest.value.stopIds;
      assert OptionOfPath(g, origin, dest, r[i]);
      FirstIsFastest(g.adjacency, origin, dest, fastest.value.stopIds, r, i);
    } else {
      AssembleNothing(g.stops);
    }
  }

  /** Options built from paths carry the transfer and score formulas. */
  lemma ShapedOptions(stopsById: map<string, Stop>, results: seq<Option<PathResult>>, r: seq<JourneyOption>)
    requires forall i :: 0 <= i < |r| ==> FromResults(stopsById, results, r[i])
    ensures forall i :: 0 <= i < |r| ==>
              r[i].transfers == TransfersFor(|r[i].stops|) && r[i].score == ScoreOf(r[i].totalDurationSeconds, r[i].transfers)
  {
    forall i | 0 <= i < |r|
      ensures r[i].transfers == TransfersFor(|r[i].stops|)
    {
      assert FromResults(stopsById, results, r[i]);
      var k :| 0 <= k < |results| && results[k].Some? && Describes(stopsById, results[k].value, r[i]);
    }
  }

  /** In a well-formed graph a path that starts at a known stop only visits
      known stops. */
  lemma PathKnown(g: StopGraph, p: seq<string>, origin: string, dest: string)
    requires WellFormed(g) && origin in g.stops && Joins(g.adjacency, p, origin, dest)
    ensures Known(g.stops, p)
  {
    forall i | 0 <= i < |p|
      ensures p[i] in g.stops
    {
      if i > 0 {
        assert HasStep(g.adjacency, p[i - 1], p[i]);
        var e :| 0 <= e < |Out(g.adjacency, p[i - 1])| && Out(g.adjacency, p[i - 1])[e].toStopId == p[i];
      }
    }
  }

  lemma FoundKnown(g: StopGraph, c: Criterion, origin: string, dest: string, r: Option<PathResult>)
    requires WellFormed(g) && origin in g.stops && Found(g.adjacency, c, origin, dest, r)
    ensures KnownResult(g.stops, r)
  {
    if r.Some? {
      PathKnown(g, r.value.stopIds, origin, dest);
    }
  }

  /** An option built from a path found between two stops is the option of
      that path. */
  lemma DescribedPath(g: StopGraph, origin: string, dest: string, res: PathResult, o: JourneyOption)
    requires WellFormed(g) && origin in g.stops
    requires Joins(g.adjacency, res.stopIds, origin, dest)
    requires res.totalDurationSeconds == ActualDuration(g.adjacency, res.stopIds)
    requires Describes(g.stops, res, o)
    ensures Signature(o) == res.stopIds && OptionOfPath(g, origin, dest, o)
  {
    PathKnown(g, res.stopIds, origin, dest);
    ResolveKeepsIds(g.stops, res.stopIds);
  }

  /** Everything `Journeys` states, from what the three searches promise. */
  lemma SearchResults(g: StopGraph, origin: string, dest: string,
                      fastest: Option<PathResult>, fewest: Option<PathResult>, balanced: Option<PathResult>)
    requires WellFormed(g) && origin in g.stops && dest in g.stops
    requires Found(g.adjacency, Fastest, origin, dest, fastest)
    requires Found(g.adjacency, FewestTransfers, origin, dest, fewest)
    requires Found(g.adjacency, Balanced, origin, dest, balanced)
    ensures Journeys(g, origin, dest, Assemble(g.stops, fastest, fewest, balanced))
  {
    var r := Assemble(g.stops, fastest, fewest, balanced);
    FoundKnown(g, Fastest, origin, dest, fastest);
    FoundKnown(g, FewestTransfers, origin, dest, fewest);
    FoundKnown(g, Balanced, origin, dest, balanced);
    OptionsArePaths(g, origin, dest, fastest, fewest, balanced);
    AssembleDistinct(g.stops, fastest, fewest, balanced);
    if fastest.None? {
      AssembleNothing(g.stops);
    } else {
      AssembleCovers(g.stops, fastest, fewest, balanced);
      CoveringOption(g, Fastest, origin, dest, fastest, r);
      CoveringOption(g, FewestTransfers, origin, dest, fewest, r);
      RecommendedIsBalanced(g, origin, dest, fastest, fewest, balanced);
    }
    if origin == dest {
      AssembleOneStop(g.stops, origin);
    }
  }

  /** Every option is the option of its own path. */
  lemma OptionsArePaths(g: StopGraph, origin: string, dest: string,
                        fastest: Option<PathResult>, fewest: Option<PathResult>, balanced: Option<PathResult>)
    requires WellFormed(g) && origin in g.stops
    requires Found(g.adjacency, Fastest, origin, dest, fastest)
    requires Found(g.adjacency, FewestTransfers, origin, dest, fewest)
    requires Found(g.adjacency, Balanced, origin, dest, balanced)
    ensures var r := Assemble(g.stops, fastest, fewest, balanced);
            forall i :: 0 <= i < |r| ==> OptionOfPath(g, origin, dest, r[i])
  {
    AssembleShape(g.stops, fastest, fewest, balanced);
    BuiltFromPaths(g, origin, dest, [fastest, fewest, balanced], Assemble(g.stops, fastest, fewest, balanced));
  }

  /** Options built from paths between two stops, with their reported
      durations, are the options of those paths. */
  lemma BuiltFromPaths(g: StopGraph, origin: string, dest: string, results: seq<Option<PathResult>>, r: seq<JourneyOption>)
    requires WellFormed(g) && origin in g.stops
    requires forall k :: 0 <= k < |results| && results[k].Some? ==>
               && Joins(g.adjacency, results[k].value.stopIds, origin, dest)
               && results[k].value.totalDurationSeconds == ActualDuration(g.adjacency, results[k].value.stopIds)
    requires forall i :: 0 <= i < |r| ==> FromResults(g.stops, results, r[i])
    ensures forall i :: 0 <= i < |r| ==> OptionOfPath(g, origin, dest, r[i])
  {
    forall i | 0 <= i < |r|
      ensures OptionOfPath(g, origin, dest, r[i])
    {
      assert FromResults(g.stops, results, r[i]);
      var k :| 0 <= k < |results| && results[k].Some? && Describes(g.stops, results[k].value, r[i]);
      DescribedPath(g, origin, dest, results[k].value, r[i]);
    }
  }

  /** The path a search found has its option, and that option is cheapest
      under the search's criterion. */
  lemma CoveringOption(g: StopGraph, c: Criterion, origin: string, dest: string, found: Option<PathResult>,
                       r: seq<JourneyOption>)
    requires Found(g.adjacency, c, origin, dest, found) && found.Some? && Covers(r, found)
    ensures exists i :: 0 <= i < |r| && Cheapest(g.adjacency, c, Signature(r[i]), origin, dest)
  {
    var i :| 0 <= i < |r| && Signature(r[i]) == found.value.stopIds;
  }

  lemma RecommendedIsBalanced(g: StopGraph, origin: string, dest: string,
                              fastest: Option<PathResult>, fewest: Option<PathResult>, balanced: Option<PathResult>)
    requires WellFormed(g) && origin in g.stops && fastest.Some?
    requires KnownResults(g.stops, fastest, fewest, balanced)
    requires Found(g.adjacency, Fastest, origin, dest, fastest)
    requires Found(g.adjacency, Balanced, origin, dest, balanced)
    ensures var r := Assemble(g.stops, fastest, fewest, balanced);
            forall i :: 0 <= i < |r| && r[i].recommended ==> Cheapest(g.adjacency, Balanced, Signature(r[i]), origin, dest)
  {
    assert Joins(g.adjacency, fastest.value.stopIds, origin, dest);
    AssembleRecommendsBalanced(g.stops, fastest, fewest, balanced);
  }

  /** The options are sorted by duration, and the option of the fastest path
      reports exactly what the fastest search charged for it: so no path is
      faster than the first option. */
  lemma FirstIsFastest(adj: Adjacency, origin: string, dest: string, best: seq<string>, r: seq<JourneyOption>, i: int)
    requires TravelAtLeast(adj, 1) && TravelBelow(adj, IntMax)
    requires Cheapest(adj, Fastest, best, origin, dest)
    requires SortedBy(r, DurationThenTransfers) && 0 <= i < |r|
    requires r[i].totalDurationSeconds == ActualDuration(adj, best)
    ensures forall p :: Joins(adj, p, origin, dest) ==> r[0].totalDurationSeconds <= PathCost(adj, Fastest, p)
  {
    PathBelowMax(adj, best);
    TravelSumIsFastestCost(adj, best);
    assert i == 0 || KeyLe(DurationThenTransfers(r[0]), DurationThenTransfers(r[i]));
  }
}
