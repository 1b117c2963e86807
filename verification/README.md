# RouteSense core in Dafny

RouteSense is a public-transport journey planner. This project models its
core:

- **The feed loader** (`GtfsGraphLoader`). It reads a GTFS `stops.txt` into a
  stop table. It reads `stop_times.txt` into an edge table:
  - rows are grouped by trip and sorted by stop sequence;
  - each consecutive pair of stops gives an observation, floored at 120
    seconds;
  - observations are averaged per ordered stop pair.

  The result is frozen into one stop graph.
- **The journey search** (`SearchJourneyUseCase`). It runs Dijkstra three
  times over that graph: by travel time, by hop count, and by travel time
  plus a 300-second penalty per hop.
  - Each path's real duration is recomputed from the cheapest edges.
  - One option is kept per distinct stop list. Options are sorted by
    duration, then transfers.
  - Exactly one option is marked recommended.
- **The stop autocomplete** (`SearchStopsUseCase`). It matches lower-cased
  stop names against the lower-cased query and returns the first ten
  matches.

Modules, one per file, in dependency order:

| module | file | what it holds |
|---|---|---|
| `Wrappers` | wrappers.dfy | `Option` and `Result` |
| `Text` | text.dfy | Java's `trim`, `isBlank`, ASCII `toLowerCase`, `contains`, `Integer.parseInt` over ASCII digits, truncating division |
| `Csv` | csv.dfy | `parseCsvLine`, `getValue`, `buildColumnIndex` |
| `GtfsTime` | gtfs_time.dfy | `String.split(":")` and `parseGtfsTimeToSeconds` |
| `Graph` | graph.dfy | `Stop`, `StopEdge`, the adjacency map, well-formedness |
| `GraphLoader` | graph_loader.dfy | `loadStops`, the stop-time row logic, `processTripRows`, `StopEdgeStats`, `loadEdges`, `loadGraph` |
| `Paths` | paths.dfy | the three edge weights, paths and their cost |
| `ShortestPath` | shortest_path.dfy | `dijkstra`: search loop, relaxation, path reconstruction |
| `Sorting` | sorting.dfy | the stable sort used by `List.sort`, counting, distinctness |
| `TravelTime` | travel_time.dfy | `computeActualDuration` |
| `JourneyOptions` | journey_options.dfy | `addOption`, `buildSignature`, `computeBalancedRecommendation`, `markRecommended`, sort and recommend |
| `JourneySearch` | journey_search.dfy | `execute` and what it promises |
| `StopSearch` | stop_search.dfy | `SearchStopsUseCase.execute` |

How the model treats the source's inputs and effects:

- **Files.** A feed file is either the sequence of its lines, header first,
  or `Unreadable`.
- **Coordinates.** `Double.parseDouble` is a parameter of the loader, of
  type `string -> Option<real>`.
- **Hash-map iteration order.** The source does not control it, so the
  model does not fix it:
  - the adjacency lists are built by a method that takes the remaining
    links in an arbitrary order;
  - the stop search takes the entry order as an input.
- **Priority-queue ties.** The heap pops any entry of least cost, so
  every property of the search holds for every tie-break.
- **Integers.** They are unbounded. `Integer.MAX_VALUE` appears where the
  source relies on it:
  - as the sentinel of `computeActualDuration`;
  - as the upper bound of what `Integer.parseInt` accepts;
  - as the bound on edge weights under which the journey search's
    duration guarantees are stated.

Two behaviours of the code that a reader might not expect:

- `computeActualDuration` (SearchJourneyUseCase.java:240-242) returns
  `Integer.MAX_VALUE` for a step with no edge, and nothing drops the path.
  The model keeps the sentinel. `TravelTime.PathBelowMax` shows it cannot
  arise for a path the search returns.
- `split(":")` (GtfsGraphLoader.java:299) drops trailing empty strings, so
  `"10:00:00:"` parses like `"10:00:00"` (`GtfsTime.TrailingColonAccepted`).

## Model

Paths are relative to the repository root; `GtfsGraphLoader.java` is
`backend/src/main/java/com/routesense/infrastructure/gtfs/GtfsGraphLoader.java`
and the two use cases are under
`backend/src/main/java/com/routesense/application/usecase/`.

| member | source | states |
|---|---|---|
| Text.ParseIntToString | backend/src/main/java/com/routesense/infrastructure/gtfs/GtfsGraphLoader.java:304-306 | `Integer.parseInt` reads back the decimal form of every 32-bit integer, negative ones included |
| Text.TrimmedIsTrim | backend/src/main/java/com/routesense/infrastructure/gtfs/GtfsGraphLoader.java:294 | `trim` has one possible result: the slice that starts and ends with a character above U+0020 and leaves only characters up to U+0020 outside |
| Text.TrimIdempotent | backend/src/main/java/com/routesense/infrastructure/gtfs/GtfsGraphLoader.java:294 | trimming a trimmed value changes nothing |
| Csv.ParseCsvLine | backend/src/main/java/com/routesense/infrastructure/gtfs/GtfsGraphLoader.java:262-287 | every line, the empty one included, yields at least one field; the empty line yields one empty field |
| Csv.QuoteFreeSplitsAtEveryComma | backend/src/main/java/com/routesense/infrastructure/gtfs/GtfsGraphLoader.java:277-281 | on a line without quotes, the fields hold no comma, there is one more field than there are commas, and the fields joined by commas give back the line |
| Csv.ParseEncodedRow | backend/src/main/java/com/routesense/infrastructure/gtfs/GtfsGraphLoader.java:262-287 | round trip: any non-empty list of fields, each quoted with inner quotes doubled and joined by commas, parses back to the same list |
| Csv.LoneQuotesAreDropped | backend/src/main/java/com/routesense/infrastructure/gtfs/GtfsGraphLoader.java:270-276 | on a line with no doubled quote, quotes only switch the quoted state and no field contains one |
| Csv.CsvQuotedCommaExample | backend/src/main/java/com/routesense/infrastructure/gtfs/GtfsGraphLoader.java:270-281 | a comma inside quotes stays in its field: `"x,y","z"` gives `x,y` and `z` |
| Csv.CsvEscapedQuoteExample | backend/src/main/java/com/routesense/infrastructure/gtfs/GtfsGraphLoader.java:271-273 | a doubled quote inside quotes gives one literal quote |
| Csv.CsvEmptyFieldsExample | backend/src/main/java/com/routesense/infrastructure/gtfs/GtfsGraphLoader.java:277-285 | a lone comma gives two empty fields |
| Csv.GetValue | backend/src/main/java/com/routesense/infrastructure/gtfs/GtfsGraphLoader.java:290-295 | an index outside the token list gives the empty string; otherwise the token with every leading and trailing character up to U+0020 removed, and nothing else |
| Csv.ColumnIndexIsLastOccurrence | backend/src/main/java/com/routesense/infrastructure/gtfs/GtfsGraphLoader.java:252-259 | a name is in the column index iff some header cell, trimmed and lower-cased, equals it; its index is the last such cell |
| GtfsTime.SplitAllJoin | backend/src/main/java/com/routesense/infrastructure/gtfs/GtfsGraphLoader.java:299 | splitting at the separator undoes joining colon-free pieces with it |
| GtfsTime.ParseParts | backend/src/main/java/com/routesense/infrastructure/gtfs/GtfsGraphLoader.java:300-307 | a time is read iff there are exactly three parts and each is an integer; the value is hours·3600 + minutes·60 + seconds |
| GtfsTime.ParseFormatTime | backend/src/main/java/com/routesense/infrastructure/gtfs/GtfsGraphLoader.java:298-308 | round trip: `h:m:s` written with any three 32-bit integers parses to h·3600 + m·60 + s |
| GtfsTime.ParseDigitFields | backend/src/main/java/com/routesense/infrastructure/gtfs/GtfsGraphLoader.java:298-308 | three digit-only fields, zero-padded or not, parse to the same total |
| GtfsTime.EmptyPartFails | backend/src/main/java/com/routesense/infrastructure/gtfs/GtfsGraphLoader.java:304-306 | an empty middle field makes the time unreadable |
| GtfsTime.TooFewPartsFail | backend/src/main/java/com/routesense/infrastructure/gtfs/GtfsGraphLoader.java:300-302 | fewer than two colons makes the time unreadable |
| GtfsTime.NinetyMinutesExample | backend/src/main/java/com/routesense/infrastructure/gtfs/GtfsGraphLoader.java:305-307 | minutes are not range-checked: `00:90:00` is 5400 seconds |
| GtfsTime.PastMidnightExample | backend/src/main/java/com/routesense/infrastructure/gtfs/GtfsGraphLoader.java:297-307 | hours may pass 24: `25:00:00` is 90000 seconds |
| GtfsTime.TrailingColonAccepted | backend/src/main/java/com/routesense/infrastructure/gtfs/GtfsGraphLoader.java:299-300 | a trailing colon is dropped by the split, so the time reads as without it |
| GtfsTime.SamePartsSameTime | backend/src/main/java/com/routesense/infrastructure/gtfs/GtfsGraphLoader.java:298-308 | the value depends only on the split parts |
| GraphLoader.StopColumnsOf | backend/src/main/java/com/routesense/infrastructure/gtfs/GtfsGraphLoader.java:78-86 | stop rows are read iff the header has all four of `stop_id`, `stop_name`, `stop_lat` and `stop_lon` |
| GraphLoader.StopOfRow | backend/src/main/java/com/routesense/infrastructure/gtfs/GtfsGraphLoader.java:91-108 | a row is kept iff its id and both coordinate cells are non-blank and both coordinates parse; the name may be blank; a kept row's id and name are the trimmed cells and its coordinates are what the parser read |
| GraphLoader.LoadStops | backend/src/main/java/com/routesense/infrastructure/gtfs/GtfsGraphLoader.java:66-116 | loading fails iff the file is unreadable; every stop is keyed by its own id; an empty file or a header missing a column gives an empty table |
| GraphLoader.LoadStopsRows | backend/src/main/java/com/routesense/infrastructure/gtfs/GtfsGraphLoader.java:89-109 | an id is in the table iff some data row defines it; the stored stop is the one from the last such row |
| GraphLoader.StopTimeColumnsOf | backend/src/main/java/com/routesense/infrastructure/gtfs/GtfsGraphLoader.java:131-139 | stop-time rows are read iff the header has all four of `trip_id`, `arrival_time`, `stop_id` and `stop_sequence` |
| GraphLoader.TripRowOf | backend/src/main/java/com/routesense/infrastructure/gtfs/GtfsGraphLoader.java:145-171 | a row is kept iff its trip id, stop id, arrival time and sequence are non-blank, the stop was loaded, and the sequence and the arrival time parse; a kept row carries those values |
| GraphLoader.SkippedRowIsInvisible | backend/src/main/java/com/routesense/infrastructure/gtfs/GtfsGraphLoader.java:153-171 | a skipped row leaves the kept rows exactly as if it were absent, so it never splits a trip |
| GraphLoader.TripGroups | backend/src/main/java/com/routesense/infrastructure/gtfs/GtfsGraphLoader.java:173-188 | the trip groups concatenate back to the kept rows; each group shares one trip id; consecutive groups differ in trip id |
| GraphLoader.NewTripGroup | backend/src/main/java/com/routesense/infrastructure/gtfs/GtfsGraphLoader.java:177-184 | a row with a different trip id than the previous one starts a new group |
| GraphLoader.SameTripGroup | backend/src/main/java/com/routesense/infrastructure/gtfs/GtfsGraphLoader.java:184 | a row with the previous row's trip id joins the last group |
| GraphLoader.StepObservationsSound | backend/src/main/java/com/routesense/infrastructure/gtfs/GtfsGraphLoader.java:213-226 | every observation comes from a consecutive pair of rows |
| GraphLoader.StepObservationsComplete | backend/src/main/java/com/routesense/infrastructure/gtfs/GtfsGraphLoader.java:213-226 | every consecutive pair of rows at different stops gives an observation |
| GraphLoader.TripObservations | backend/src/main/java/com/routesense/infrastructure/gtfs/GtfsGraphLoader.java:205-221 | a trip of fewer than two rows gives nothing; every observation joins two different stops and is at least 120 seconds |
| GraphLoader.TwoStopTrip | backend/src/main/java/com/routesense/infrastructure/gtfs/GtfsGraphLoader.java:205-226 | a two-row trip gives one observation, directed by stop sequence rather than file order |
| GraphLoader.TallyMatchesSums | backend/src/main/java/com/routesense/infrastructure/gtfs/GtfsGraphLoader.java:221-225 | a stop pair has statistics iff it was observed; they hold the sum and the count of its observations |
| GraphLoader.AverageTravelSeconds | backend/src/main/java/com/routesense/infrastructure/gtfs/GtfsGraphLoader.java:341-346 | the average is at least 120; with no samples it is 120; when every sample is at least 120 it is the truncated mean |
| GraphLoader.EdgeWeightIsMean | backend/src/main/java/com/routesense/infrastructure/gtfs/GtfsGraphLoader.java:196-197 | a stop pair has an edge iff it was observed; its weight is the truncated mean of its observations |
| GraphLoader.TwoTripsOfOnePair | backend/src/main/java/com/routesense/infrastructure/gtfs/GtfsGraphLoader.java:141-201 | two trips over the same stop pair give one edge weighing the mean of the two floored times |
| GraphLoader.AverageOfTwoExample | backend/src/main/java/com/routesense/infrastructure/gtfs/GtfsGraphLoader.java:328-346 | travel times of 200 and 400 seconds average to a 300-second edge |
| GraphLoader.FloorBeforeAverageExample | backend/src/main/java/com/routesense/infrastructure/gtfs/GtfsGraphLoader.java:221 | each time is floored before averaging: 30 and 300 seconds give 210, not 165 |
| GraphLoader.LoadEdgeTable | backend/src/main/java/com/routesense/infrastructure/gtfs/GtfsGraphLoader.java:119-201 | every edge joins two loaded stops; an unreadable or empty file, or a header missing a column, gives no edges |
| GraphLoader.BuildAdjacency | backend/src/main/java/com/routesense/infrastructure/gtfs/GtfsGraphLoader.java:195-201 | every stop pair of the table becomes exactly one edge with the table's weight, under its from-stop, whatever the order of the links |
| GraphLoader.LoadEdges | backend/src/main/java/com/routesense/infrastructure/gtfs/GtfsGraphLoader.java:119-201 | the adjacency holds exactly the averaged edges; every edge joins two loaded stops and weighs at least 120; an unreadable file gives no edges |
| GraphLoader.LoadGraph | backend/src/main/java/com/routesense/infrastructure/gtfs/GtfsGraphLoader.java:41-53 | loading fails iff the stop file is unreadable; the graph is well formed, has at most one edge per ordered stop pair, and every edge weighs at least 120 |
| Paths.Weight | backend/src/main/java/com/routesense/application/usecase/SearchJourneyUseCase.java:195 | a step weighs at least one; a weight that is already positive is kept |
| Paths.CheapestTo | backend/src/main/java/com/routesense/application/usecase/SearchJourneyUseCase.java:194-203 | among parallel edges, the step costs the weight of the cheapest one |
| Paths.HopCost | backend/src/main/java/com/routesense/application/usecase/SearchJourneyUseCase.java:47 | under the hop-count weight, a path costs its number of hops |
| Paths.FewestHops | backend/src/main/java/com/routesense/application/usecase/SearchJourneyUseCase.java:47 | a path that is no more costly by hop count has no more stops |
| ShortestPath.Dijkstra | backend/src/main/java/com/routesense/application/usecase/SearchJourneyUseCase.java:169-221 | a returned path leads from origin to destination and no path between them is cheaper; none is returned iff there is no path; origin equal to destination gives the single-stop path |
| ShortestPath.Search | backend/src/main/java/com/routesense/application/usecase/SearchJourneyUseCase.java:175-205 | when the search stops, the destination's distance is a lower bound on every path to it, and an absent distance means there is no path |
| ShortestPath.PoppedIsOptimal | backend/src/main/java/com/routesense/application/usecase/SearchJourneyUseCase.java:182-191 | a polled entry of least cost that is not yet settled costs no more than any path to its stop |
| ShortestPath.DropStale | backend/src/main/java/com/routesense/application/usecase/SearchJourneyUseCase.java:184-187 | skipping an entry dearer than its stop's distance keeps the search invariant |
| ShortestPath.Relax | backend/src/main/java/com/routesense/application/usecase/SearchJourneyUseCase.java:193-204 | relaxing a settled stop's edges keeps predecessors consistent and every queued cost backed by a distance |
| ShortestPath.Exhausted | backend/src/main/java/com/routesense/application/usecase/SearchJourneyUseCase.java:207-209 | with the queue empty, an unsettled destination is unreachable |
| ShortestPath.Reconstruct | backend/src/main/java/com/routesense/application/usecase/SearchJourneyUseCase.java:211-221 | following predecessors back gives a path from the origin, so the first-stop check never fires; it costs at most the recorded distance |
| TravelTime.MinTravelTo | backend/src/main/java/com/routesense/application/usecase/SearchJourneyUseCase.java:233-238 | the best time is the least travel time among edges to the stop, or `Integer.MAX_VALUE` when there is none |
| TravelTime.ComputeActualDuration | backend/src/main/java/com/routesense/application/usecase/SearchJourneyUseCase.java:227-247 | when every step has an edge, the result is the sum of the cheapest travel times; otherwise it is `Integer.MAX_VALUE` |
| TravelTime.PathBelowMax | backend/src/main/java/com/routesense/application/usecase/SearchJourneyUseCase.java:240-242 | on a path whose edges are all below `Integer.MAX_VALUE`, the sentinel is never returned |
| TravelTime.NotAPathIsMax | backend/src/main/java/com/routesense/application/usecase/SearchJourneyUseCase.java:240-242 | a stop list that is not a path gets the sentinel |
| TravelTime.TravelSumIsFastestCost | backend/src/main/java/com/routesense/application/usecase/SearchJourneyUseCase.java:223-247 | on a path with travel times of at least one, the recomputed duration equals the path's cost under the fastest search's weight |
| JourneySearch.FindPath | backend/src/main/java/com/routesense/application/usecase/SearchJourneyUseCase.java:169-225 | a result is a cheapest path for its weight, with its recomputed duration; none iff no path; origin equal to destination gives a single stop and no duration |
| JourneyOptions.IdsOf | backend/src/main/java/com/routesense/application/usecase/SearchJourneyUseCase.java:161-167 | the signature lists the stops' ids in order |
| JourneyOptions.Resolve | backend/src/main/java/com/routesense/application/usecase/SearchJourneyUseCase.java:137-147 | the resolved list is empty iff no id is known; when every id is known, it holds each id's stop in order |
| JourneyOptions.ResolveKeepsIds | backend/src/main/java/com/routesense/application/usecase/SearchJourneyUseCase.java:137-143 | round trip: resolving known ids to stops and taking their signature gives the ids back |
| JourneyOptions.TransfersFor | backend/src/main/java/com/routesense/application/usecase/SearchJourneyUseCase.java:149 | transfers are never negative and are the stop count less two from two stops on |
| JourneyOptions.FlagFirst | backend/src/main/java/com/routesense/application/usecase/SearchJourneyUseCase.java:119-133 | only the recommended flag changes; a newly flagged option has the signature; if any option has it, one with it ends up flagged; at most one more option is flagged |
| JourneyOptions.AddOption | backend/src/main/java/com/routesense/application/usecase/SearchJourneyUseCase.java:105-159 | a missing or empty path changes nothing; otherwise its signature is seen; at most one option is appended, only for an unseen signature, and it describes the path with the given flag |
| JourneyOptions.AddOptionTracked | backend/src/main/java/com/routesense/application/usecase/SearchJourneyUseCase.java:117-118 | the seen signatures stay exactly those of the options, and the options stay distinct by signature |
| JourneyOptions.AddOptionRecommends | backend/src/main/java/com/routesense/application/usecase/SearchJourneyUseCase.java:117-135 | a recommended path ends up flagged, whether new or already present, and no other option becomes flagged |
| JourneyOptions.AddOptionCount | backend/src/main/java/com/routesense/application/usecase/SearchJourneyUseCase.java:105-159 | adding a path adds at most one recommended option, and none when it is not recommended |
| JourneyOptions.CollectShape | backend/src/main/java/com/routesense/application/usecase/SearchJourneyUseCase.java:55-60 | the three additions give at most three options, each built from one of the paths, at most one recommended |
| JourneyOptions.CollectCovers | backend/src/main/java/com/routesense/application/usecase/SearchJourneyUseCase.java:55-60 | every path a search found has an option with its stop list |
| JourneyOptions.CollectRecommendsBalanced | backend/src/main/java/com/routesense/application/usecase/SearchJourneyUseCase.java:58-60 | when the balanced search found a path, an option is recommended and every recommended option is that path |
| JourneyOptions.BalancedChoice | backend/src/main/java/com/routesense/application/usecase/SearchJourneyUseCase.java:74-89 | the chosen option has the least duration-plus-penalty score, and it is the first with that score |
| JourneyOptions.MarkRecommended | backend/src/main/java/com/routesense/application/usecase/SearchJourneyUseCase.java:91-103 | the chosen option is flagged and every other option is unflagged; nothing else changes |
| JourneyOptions.MarkedOnce | backend/src/main/java/com/routesense/application/usecase/SearchJourneyUseCase.java:91-103 | after marking, exactly one option is recommended |
| JourneyOptions.ArrangeReorders | backend/src/main/java/com/routesense/application/usecase/SearchJourneyUseCase.java:62-69 | apart from the flag, the result is the stable sort of the options |
| JourneyOptions.ArrangeSorted | backend/src/main/java/com/routesense/application/usecase/SearchJourneyUseCase.java:62-63 | options are in order of duration, then transfers |
| JourneyOptions.ArrangeRecommendsOne | backend/src/main/java/com/routesense/application/usecase/SearchJourneyUseCase.java:65-69 | a non-empty list with at most one recommended option ends with exactly one |
| JourneyOptions.ArrangeKeepsRecommendation | backend/src/main/java/com/routesense/application/usecase/SearchJourneyUseCase.java:65-66 | an existing recommendation is kept as it was |
| JourneyOptions.RecommendedSignatureKept | backend/src/main/java/com/routesense/application/usecase/SearchJourneyUseCase.java:62-66 | sorting keeps the recommended option's stop list |
| JourneyOptions.ArrangeDistinct | backend/src/main/java/com/routesense/application/usecase/SearchJourneyUseCase.java:62-69 | options distinct by signature stay distinct |
| JourneyOptions.ArrangeFromResults | backend/src/main/java/com/routesense/application/usecase/SearchJourneyUseCase.java:62-69 | every arranged option is still built from one of the paths |
| JourneyOptions.AssembleShape | backend/src/main/java/com/routesense/application/usecase/SearchJourneyUseCase.java:55-71 | at most three options, sorted, exactly one recommended when there are any, each built from one of the three paths |
| JourneyOptions.AssembleNothing | backend/src/main/java/com/routesense/application/usecase/SearchJourneyUseCase.java:65-71 | with no paths, the result is empty and nothing is recommended |
| JourneyOptions.AssembleDistinct | backend/src/main/java/com/routesense/application/usecase/SearchJourneyUseCase.java:56-60 | no two options have the same stop list |
| JourneyOptions.AssembleCovers | backend/src/main/java/com/routesense/application/usecase/SearchJourneyUseCase.java:55-71 | every found path survives as an option |
| JourneyOptions.AssembleRecommendsBalanced | backend/src/main/java/com/routesense/application/usecase/SearchJourneyUseCase.java:60-69 | when the balanced search found a path, only that path is recommended |
| JourneyOptions.AssembleOneStop | backend/src/main/java/com/routesense/application/usecase/SearchJourneyUseCase.java:55-71 | three single-stop results give one option: that stop, no duration, no transfers, recommended |
| JourneySearch.Execute | backend/src/main/java/com/routesense/application/usecase/SearchJourneyUseCase.java:34-72 | missing, blank or unknown ids give nothing; otherwise, on a well-formed graph: every option is a path between the two stops with its real duration; the list is empty iff there is no path; options are distinct and sorted; exactly one is recommended and it is cheapest under the balanced weight; a fastest and a fewest-hop path are present; and the first option is fastest |
| JourneySearch.Outcome | backend/src/main/java/com/routesense/application/usecase/SearchJourneyUseCase.java:46-71 | the options built from any three admissible search results meet the promises of `execute` |
| JourneySearch.SearchResults | backend/src/main/java/com/routesense/application/usecase/SearchJourneyUseCase.java:46-60 | on a well-formed graph the options are paths, distinct, empty iff unreachable, and include a fastest and a fewest-hop path |
| JourneySearch.ShapedOptions | backend/src/main/java/com/routesense/application/usecase/SearchJourneyUseCase.java:149-150 | every option's transfers and score follow from its stop count and duration |
| JourneySearch.PathKnown | backend/src/main/java/com/routesense/application/usecase/SearchJourneyUseCase.java:137-147 | on a well-formed graph every stop of a path is in the table, so no stop is dropped |
| JourneySearch.CoveringOption | backend/src/main/java/com/routesense/application/usecase/SearchJourneyUseCase.java:113-135 | a path found by a search is represented by an option cheapest under that search's weight |
| JourneySearch.RecommendedIsBalanced | backend/src/main/java/com/routesense/application/usecase/SearchJourneyUseCase.java:60-69 | the recommended option is cheapest under the balanced weight |
| JourneySearch.FirstIsFastest | backend/src/main/java/com/routesense/application/usecase/SearchJourneyUseCase.java:62-63 | once sorted by duration, the first option is no slower than any path between the stops |
| Sorting.StableSort | backend/src/main/java/com/routesense/application/usecase/SearchJourneyUseCase.java:62-63 | the result is a permutation of the input, sorted by the key |
| Sorting.StableSortKeepsTies | backend/src/main/java/com/routesense/application/usecase/SearchJourneyUseCase.java:62-63 | options with equal keys keep their input order |
| StopSearch.SearchStops | backend/src/main/java/com/routesense/application/usecase/SearchStopsUseCase.java:21-42 | a missing or blank query gives nothing; at most ten results; each copies a stop whose lower-cased name contains the lower-cased query; no stop twice; with fewer than ten, every matching stop is present |
| StopSearch.FirstMatches | backend/src/main/java/com/routesense/application/usecase/SearchStopsUseCase.java:32-42 | the early-stopping pass returns the first ten matches in entry order |
| StopSearch.MatchingComplete | backend/src/main/java/com/routesense/application/usecase/SearchStopsUseCase.java:34 | every stop whose name matches passes the filter |
| StopSearch.MatchingPrefix | backend/src/main/java/com/routesense/application/usecase/SearchStopsUseCase.java:35 | the matches among the first entries are a prefix of all matches, so stopping early is safe |
| StopSearch.ExpectedComplete | backend/src/main/java/com/routesense/application/usecase/SearchStopsUseCase.java:34-35 | with fewer than ten results, no matching stop is missing |
| StopSearch.ExpectedDistinct | backend/src/main/java/com/routesense/application/usecase/SearchStopsUseCase.java:32-42 | no stop id appears twice in the results |
| StopSearch.CaseInsensitive | backend/src/main/java/com/routesense/application/usecase/SearchStopsUseCase.java:29 | a query and its lower-case form give the same results |
| StopSearch.ToLowerKeepsBlank | backend/src/main/java/com/routesense/application/usecase/SearchStopsUseCase.java:25-29 | lower-casing neither creates nor removes blankness |
| StopSearch.QueryNotTrimmed | backend/src/main/java/com/routesense/application/usecase/SearchStopsUseCase.java:25-34 | a query with a leading space is searched as typed, so " main" does not find "Main"; "MAIN" does |

## Left out

- File access: classpath lookup, charset and `BufferedReader`
  (`openGtfsReader`, GtfsGraphLoader.java 230-249). A file is its lines,
  or `Unreadable`.
- The `IOException` paths: an unreadable stop file is a `Failure`; an
  unreadable stop-time file is an empty edge table. Logging is not modelled.
- `Double.parseDouble`: a parameter, because the coordinates are only
  copied, never computed with.
- Spring wiring and the `StopGraphRepository` port. The journey and stop
  searches receive the graph directly.
- 32-bit overflow: integers are unbounded. Sums of times, the
  `Integer.MAX_VALUE` default of missing distances, and `total += best` do
  not wrap.
- GraphLoader.AverageTravelSeconds: the truncated mean is stated only when
  every sample is at least 120. Every sample the loader feeds in is, and
  `GraphLoader.EdgeWeightIsMean` covers that case. Negative totals cannot
  occur.
- JourneyOptions.ScoreOf: the score is an `int`, not a `double`. Every score
  is a whole number of seconds, so nothing is lost.
- Signatures: a signature is the list of stop ids, not the string joined
  with "->". The two agree as long as no stop id contains "->".
- The same applies to `processTripRows`' "from->to" map key: a stop pair is
  a `Link` pair.
- Text.ParseInt: accepts ASCII digits only. `Integer.parseInt` also accepts
  other Unicode decimal digits, such as full-width ones, so a stop sequence
  or an arrival time written with them is kept by the source but skipped by
  the model.
- Unicode case folding: `toLowerCase(Locale.ROOT)` is modelled for ASCII
  letters only; other letters are left as they are. `isBlank` follows
  `Character.isWhitespace` in full.
- Map and heap order: the model does not fix either one. The adjacency
  builder and the heap choose arbitrarily; the stop search takes the entry
  order as an input.
- The `path.getFirst().equals(originStopId)` check (SearchJourneyUseCase.java
  219) is not a branch of the model. `ShortestPath.Reconstruct` proves that
  it never fires.
- `Stop.java` is not part of this model. Its fields (id, name, latitude,
  longitude) are inferred from their uses.
- Controllers, DTO mapping other than `StopSearchResultDto`, persistence,
  the GTFS-realtime client, the map data source and the frontend are outside
  the core.
