/** Turning the paths of the three searches into the option list the journey
    search returns: one option per distinct path, sorted by duration and then
    transfers, with exactly one of them recommended. */
module JourneyOptions {
  import opened Wrappers
  import opened Text
  import opened Graph
  import opened Paths
  import opened Sorting

  /** One way to travel. The source keeps the score as a `double`; it is
      computed from an `int` duration and an `int` transfer count, and every
      such sum is an integer, so it is one here. */
  datatype JourneyOption = JourneyOption(stops: seq<Stop>, totalDurationSeconds: int, transfers: int,
                                         score: int, recommended: bool)

  /** What one search hands back: the stop ids of its path and the duration
      reported for it. */
  datatype PathResult = PathResult(stopIds: seq<string>, totalDurationSeconds: int)

  /** The option list under construction and the signatures already taken.
      A signature is the list of stop ids of a path; the source joins the
      list into one string with "->", which tells two lists apart as long as
      no stop id contains "->". */
  datatype Candidates = Candidates(options: seq<JourneyOption>, seen: set<seq<string>>)

  // ---------------------------------------------------------------------------
  // Building one option.
  // ---------------------------------------------------------------------------

  /** `buildSignature`: the ids of a stop list. */
  function IdsOf(stops: seq<Stop>): (ids: seq<string>)
    ensures |ids| == |stops| && forall i :: 0 <= i < |stops| ==> ids[i] == stops[i].id
  {
    seq(|stops|, i requires 0 <= i < |stops| => stops[i].id)
  }

  function Signature(o: JourneyOption): seq<string> {
    IdsOf(o.stops)
  }

  /** The stops of `ids` that the stop table knows, in path order; an id the
      table does not know is skipped. */
  function Resolve(stopsById: map<string, Stop>, ids: seq<string>): (r: seq<Stop>)
    ensures |r| <= |ids|
    ensures |r| == 0 <==> forall i :: 0 <= i < |ids| ==> ids[i] !in stopsById
    ensures Known(stopsById, ids) ==> |r| == |ids| && forall i :: 0 <= i < |ids| ==> r[i] == stopsById[ids[i]]
    decreases |ids|
  {
    if |ids| == 0 then []
    else
      var rest := Resolve(stopsById, ids[1..]);
      assert forall i :: 1 <= i < |ids| ==> ids[i] == ids[1..][i - 1];
      if ids[0] in stopsById then [stopsById[ids[0]]] + rest else rest
  }

  /** Every id of `ids` is in the stop table. */
  predicate Known(stopsById: map<string, Stop>, ids: seq<string>) {
    forall i :: 0 <= i < |ids| ==> ids[i] in stopsById
  }

  /** In a table keyed by stop id, resolving known ids and reading the ids
      back gives the same list. */
  lemma ResolveKeepsIds(stopsById: map<string, Stop>, ids: seq<string>)
    requires StopsKeyedById(stopsById) && Known(stopsById, ids)
    ensures IdsOf(Resolve(stopsById, ids)) == ids
  {
  }

  /** `Math.max(0, stops - 2)`: every stop strictly between the two ends. */
  function TransfersFor(stopCount: int): (t: int)
    ensures t >= 0 && (stopCount >= 2 ==> t == stopCount - 2)
  {
    Max(0, stopCount - 2)
  }

  /** Duration plus the balanced penalty per transfer. */
  function ScoreOf(durationSeconds: int, transfers: int): int {
    durationSeconds + transfers * TransferPenaltySeconds
  }

  /** `o` is the option built from the path `res`. */
  predicate Describes(stopsById: map<string, Stop>, res: PathResult, o: JourneyOption) {
    && o.stops == Resolve(stopsById, res.stopIds)
    && |o.stops| > 0
    && o.totalDurationSeconds == res.totalDurationSeconds
    && o.transfers == TransfersFor(|o.stops|)
    && o.score == ScoreOf(o.totalDurationSeconds, o.transfers)
  }

  /** `o` was built from one of the paths in `results`. */
  predicate FromResults(stopsById: map<string, Stop>, results: seq<Option<PathResult>>, o: JourneyOption) {
    exists k :: 0 <= k < |results| && results[k].Some? && Describes(stopsById, results[k].value, o)
  }

  predicate Recommended(o: JourneyOption) {
    o.recommended
  }

  // ---------------------------------------------------------------------------
  // addOption.
  // ---------------------------------------------------------------------------

  /** The loop of `addOption` for a path already taken: the first option with
      that signature, if any, becomes recommended; nothing else changes. */
  function FlagFirst(options: seq<JourneyOption>, sig: seq<string>): (r: seq<JourneyOption>)
    ensures |r| == |options|
    ensures forall i :: 0 <= i < |r| ==> r[i] == options[i].(recommended := r[i].recommended)
    ensures forall i :: 0 <= i < |r| && r[i].recommended ==> options[i].recommended || Signature(options[i]) == sig
    ensures (exists i :: 0 <= i < |options| && Signature(options[i]) == sig) ==>
              exists i :: 0 <= i < |r| && r[i].recommended && Signature(r[i]) == sig
    ensures CountWhere(r, Recommended) <= CountWhere(options, Recommended) + 1
    decreases |options|
  {
    if |options| == 0 then []
    else if Signature(options[0]) == sig then
      assert ([options[0].(recommended := true)] + options[1..])[1..] == options[1..];
      [options[0].(recommended := true)] + options[1..]
    else
      var rest := FlagFirst(options[1..], sig);
      assert forall i :: 1 <= i < |options| ==> options[i] == options[1..][i - 1];
      assert ([options[0]] + rest)[1..] == rest;
      [options[0]] + rest
  }

  /** The option `addOption` builds for a new path: its known stops, the
      reported duration, the transfers between the two ends and the score. */
  function OptionFor(stopsById: map<string, Stop>, res: PathResult, recommended: bool): (o: JourneyOption)
    ensures |Resolve(stopsById, res.stopIds)| > 0 ==> Describes(stopsById, res, o)
    ensures o.recommended == recommended
  {
    var stops := Resolve(stopsById, res.stopIds);
    var transfers := TransfersFor(|stops|);
    JourneyOption(stops, res.totalDurationSeconds, transfers, ScoreOf(res.totalDurationSeconds, transfers), recommended)
  }

  /** `addOption`: a missing or empty path adds nothing; a path already taken
      adds nothing but, for the balanced search, recommends the option that
      took it; a new path is recorded as taken and, unless none of its stops
      is known, appended as an option. */
  function AddOption(acc: Candidates, path: Option<PathResult>, stopsById: map<string, Stop>,
                     recommended: bool): (r: Candidates)
    ensures path.None? || |path.value.stopIds| == 0 ==> r == acc
    ensures path.Some? && |path.value.stopIds| > 0 ==> r.seen == acc.seen + {path.value.stopIds}
    ensures |acc.options| <= |r.options| <= |acc.options| + 1
    ensures |r.options| == |acc.options| + 1 ==>
              && r.options[..|acc.options|] == acc.options
              && path.Some? && path.value.stopIds !in acc.seen
              && Describes(stopsById, path.value, r.options[|acc.options|])
              && r.options[|acc.options|].recommended == recommended
  {
    if path.None? || |path.value.stopIds| == 0 then acc
    else
      var sig := path.value.stopIds;
      if sig in acc.seen then
        if recommended then Candidates(FlagFirst(acc.options, sig), acc.seen) else acc
      else
        if |Resolve(stopsById, sig)| == 0 then Candidates(acc.options, acc.seen + {sig})
        else
          var option := OptionFor(stopsById, path.value, recommended);
          assert (acc.options + [option])[..|acc.options|] == acc.options;
          Candidates(acc.options + [option], acc.seen + {sig})
  }

  /** Every option's signature is taken, every taken signature belongs to an
      option, and no two options share a signature. */
  predicate Tracked(acc: Candidates) {
    && (forall i :: 0 <= i < |acc.options| ==> Signature(acc.options[i]) in acc.seen)
    && (forall s :: s in acc.seen ==> exists i :: 0 <= i < |acc.options| && Signature(acc.options[i]) == s)
    && DistinctBy(acc.options, Signature)
  }

  /** A path, if there is one, is non-empty and made of known stops. */
  predicate KnownResult(stopsById: map<string, Stop>, path: Option<PathResult>) {
    path.Some? ==> |path.value.stopIds| > 0 && Known(stopsById, path.value.stopIds)
  }

  /** The options only ever come from the paths offered. */
  lemma AddOptionFromResults(acc: Candidates, path: Option<PathResult>, stopsById: map<string, Stop>,
                             recommended: bool, results: seq<Option<PathResult>>)
    requires forall i :: 0 <= i < |acc.options| ==> FromResults(stopsById, results, acc.options[i])
    requires path.Some? ==> path in results
    ensures var r := AddOption(acc, path, stopsById, recommended);
            forall i :: 0 <= i < |r.options| ==> FromResults(stopsById, results, r.options[i])
  {
    var r := AddOption(acc, path, stopsById, recommended);
    forall i | 0 <= i < |r.options|
      ensures FromResults(stopsById, results, r.options[i])
    {
      if i < |acc.options| {
        assert FromResults(stopsById, results, acc.options[i]);
        var k :| 0 <= k < |results| && results[k].Some? && Describes(stopsById, results[k].value, acc.options[i]);
        assert Describes(stopsById, results[k].value, r.options[i]);
      } else {
        var k :| 0 <= k < |results| && results[k] == path;
        assert Describes(stopsById, results[k].value, r.options[i]);
      }
    }
  }

  /** With known stops, signatures stay tracked. */
  lemma AddOptionTracked(acc: Candidates, path: Option<PathResult>, stopsById: map<string, Stop>, recommended: bool)
    requires Tracked(acc) && StopsKeyedById(stopsById) && KnownResult(stopsById, path)
    ensures Tracked(AddOption(acc, path, stopsById, recommended))
  {
    if path.Some? {
      var sig := path.value.stopIds;
      if sig !in acc.seen {
        ResolveKeepsIds(stopsById, sig);
        TrackedAppend(acc, OptionFor(stopsById, path.value, recommended));
      } else if recommended {
        TrackedFlag(acc, sig);
      }
    }
  }

  /** Appending an option under a new signature keeps signatures tracked. */
  lemma TrackedAppend(acc: Candidates, o: JourneyOption)
    requires Tracked(acc) && Signature(o) !in acc.seen
    ensures Tracked(Candidates(acc.options + [o], acc.seen + {Signature(o)}))
  {
    AppendCovers(acc, o);
    AppendDistinct(acc, o);
  }

  /** After the append, the signatures seen are exactly those of the options. */
  lemma AppendCovers(acc: Candidates, o: JourneyOption)
    requires Tracked(acc)
    ensures var options := acc.options + [o];
            && (forall i :: 0 <= i < |options| ==> Signature(options[i]) in acc.seen + {Signature(o)})
            && (forall s :: s in acc.seen + {Signature(o)} ==> exists i :: 0 <= i < |options| && Signature(options[i]) == s)
  {
    var options := acc.options + [o];
    var n := |acc.options|;
    assert forall i :: 0 <= i < n ==> options[i] == acc.options[i];
    forall s | s in acc.seen + {Signature(o)}
      ensures exists i :: 0 <= i < |options| && Signature(options[i]) == s
    {
      if s == Signature(o) {
        assert Signature(options[n]) == s;
      } else {
        var i :| 0 <= i < n && Signature(acc.options[i]) == s;
        assert Signature(options[i]) == s;
      }
    }
  }

  /** An option under a new signature keeps the signatures distinct. */
  lemma AppendDistinct(acc: Candidates, o: JourneyOption)
    requires Tracked(acc) && Signature(o) !in acc.seen
    ensures DistinctBy(acc.options + [o], Signature)
  {
    var options := acc.options + [o];
    var n := |acc.options|;
    forall i, j | 0 <= i < j < |options|
      ensures Signature(options[i]) != Signature(options[j])
    {
      assert options[i] == acc.options[i];
      assert Signature(options[i]) in acc.seen;
      if j < n {
        assert options[j] == acc.options[j];
      }
    }
  }

  /** Flagging an option changes no signature. */
  lemma TrackedFlag(acc: Candidates, sig: seq<string>)
    requires Tracked(acc)
    ensures Tracked(Candidates(FlagFirst(acc.options, sig), acc.seen))
  {
    var r := FlagFirst(acc.options, sig);
    assert forall i :: 0 <= i < |r| ==> Signature(r[i]) == Signature(acc.options[i]);
  }

  /** Only a recommended offer can raise the number of recommended options,
      and by one at most. */
  lemma AddOptionCount(acc: Candidates, path: Option<PathResult>, stopsById: map<string, Stop>, recommended: bool)
    ensures var r := AddOption(acc, path, stopsById, recommended);
            CountWhere(r.options, Recommended) <= CountWhere(acc.options, Recommended) + (if recommended then 1 else 0)
  {
    var r := AddOption(acc, path, stopsById, recommended);
    if |r.options| == |acc.options| + 1 {
      assert r.options == acc.options + [r.options[|acc.options|]];
      CountWhereAppend(acc.options, [r.options[|acc.options|]], Recommended);
    }
  }

  /** With known stops, the recommended offer recommends the option carrying
      its path, and no other option gains the flag. */
  lemma AddOptionRecommends(acc: Candidates, path: Option<PathResult>, stopsById: map<string, Stop>)
    requires Tracked(acc) && StopsKeyedById(stopsById) && KnownResult(stopsById, path) && path.Some?
    ensures var r := AddOption(acc, path, stopsById, true);
            && (exists i :: 0 <= i < |r.options| && r.options[i].recommended && Signature(r.options[i]) == path.value.stopIds)
            && (forall i :: 0 <= i < |r.options| && r.options[i].recommended ==>
                  (i < |acc.options| && acc.options[i].recommended) || Signature(r.options[i]) == path.value.stopIds)
  {
    var r := AddOption(acc, path, stopsById, true);
    var sig := path.value.stopIds;
    if sig !in acc.seen {
      ResolveKeepsIds(stopsById, sig);
      var n := |acc.options|;
      assert Signature(r.options[n]) == sig;
      forall i | 0 <= i < n
        ensures r.options[i] == acc.options[i]
      {
        assert r.options[..n][i] == acc.options[i];
      }
    }
  }

  /** When nothing is recommended yet, the recommended offer's option is the
      only recommended one. */
  lemma RecommendsOnly(acc: Candidates, path: Option<PathResult>, stopsById: map<string, Stop>)
    requires Tracked(acc) && StopsKeyedById(stopsById) && KnownResult(stopsById, path) && path.Some?
    requires CountWhere(acc.options, Recommended) == 0
    ensures var found := AddOption(acc, path, stopsById, true).options;
            && AnyRecommended(found)
            && (forall i :: 0 <= i < |found| && found[i].recommended ==> Signature(found[i]) == path.value.stopIds)
  {
    CountWhereZero(acc.options, Recommended);
    AddOptionRecommends(acc, path, stopsById);
  }

  // ---------------------------------------------------------------------------
  // What the three addOption calls build.
  // ---------------------------------------------------------------------------

  /** The first two `addOption` calls of `execute`: the fastest and the
      fewest-transfer paths, neither offered as recommended. */
  function Unrecommended(stopsById: map<string, Stop>, fastest: Option<PathResult>, fewest: Option<PathResult>): Candidates {
    AddOption(AddOption(Candidates([], {}), fastest, stopsById, false), fewest, stopsById, false)
  }

  /** All three `addOption` calls, in the order of `execute`; only the
      balanced path is offered as recommended. */
  function Collect(stopsById: map<string, Stop>, fastest: Option<PathResult>, fewest: Option<PathResult>,
                   balanced: Option<PathResult>): Candidates {
    AddOption(Unrecommended(stopsById, fastest, fewest), balanced, stopsById, true)
  }

  /** After the first two calls: at most two options, each from one of the
      paths, none recommended. */
  lemma UnrecommendedShape(stopsById: map<string, Stop>, fastest: Option<PathResult>, fewest: Option<PathResult>,
                           results: seq<Option<PathResult>>)
    requires fastest.Some? ==> fastest in results
    requires fewest.Some? ==> fewest in results
    ensures var found := Unrecommended(stopsById, fastest, fewest).options;
            && |found| <= 2
            && (forall i :: 0 <= i < |found| ==> FromResults(stopsById, results, found[i]))
            && CountWhere(found, Recommended) == 0
  {
    var c0 := Candidates([], {});
    var c1 := AddOption(c0, fastest, stopsById, false);
    AddOptionFromResults(c0, fastest, stopsById, false, results);
    AddOptionFromResults(c1, fewest, stopsById, false, results);
    AddOptionCount(c0, fastest, stopsById, false);
    AddOptionCount(c1, fewest, stopsById, false);
  }

  lemma UnrecommendedTracked(stopsById: map<string, Stop>, fastest: Option<PathResult>, fewest: Option<PathResult>)
    requires StopsKeyedById(stopsById) && KnownResult(stopsById, fastest) && KnownResult(stopsById, fewest)
    ensures Tracked(Unrecommended(stopsById, fastest, fewest))
  {
    var c0 := Candidates([], {});
    AddOptionTracked(c0, fastest, stopsById, false);
    AddOptionTracked(AddOption(c0, fastest, stopsById, false), fewest, stopsById, false);
  }

  /** What the three calls build, for any three paths: at most three
      options, each built from one of the paths, at most one recommended. */
  lemma CollectShape(stopsById: map<string, Stop>, fastest: Option<PathResult>, fewest: Option<PathResult>,
                     balanced: Option<PathResult>)
    ensures var found := Collect(stopsById, fastest, fewest, balanced).options;
            && |found| <= 3
            && (forall i :: 0 <= i < |found| ==> FromResults(stopsById, [fastest, fewest, balanced], found[i]))
            && CountWhere(found, Recommended) <= 1
  {
    var results := [fastest, fewest, balanced];
    var c2 := Unrecommended(stopsById, fastest, fewest);
    UnrecommendedShape(stopsById, fastest, fewest, results);
    AddOptionFromResults(c2, balanced, stopsById, true, results);
    AddOptionCount(c2, balanced, stopsById, true);
  }

  /** With known stops, the signatures stay tracked through the three calls. */
  lemma CollectTracked(stopsById: map<string, Stop>, fastest: Option<PathResult>, fewest: Option<PathResult>,
                       balanced: Option<PathResult>)
    requires KnownResults(stopsById, fastest, fewest, balanced)
    ensures Tracked(Collect(stopsById, fastest, fewest, balanced))
  {
    UnrecommendedTracked(stopsById, fastest, fewest);
    AddOptionTracked(Unrecommended(stopsById, fastest, fewest), balanced, stopsById, true);
  }

  /** The three paths, if found, are non-empty and made of known stops of a
      table keyed by stop id. */
  predicate KnownResults(stopsById: map<string, Stop>, fastest: Option<PathResult>, fewest: Option<PathResult>,
                         balanced: Option<PathResult>) {
    && StopsKeyedById(stopsById)
    && KnownResult(stopsById, fastest) && KnownResult(stopsById, fewest) && KnownResult(stopsById, balanced)
  }

  /** The path found, if any, has an option carrying it. */
  predicate Covers(found: seq<JourneyOption>, path: Option<PathResult>) {
    path.Some? ==> exists i :: 0 <= i < |found| && Signature(found[i]) == path.value.stopIds
  }

  /** Every non-empty path offered ends up taken. */
  lemma CollectSeen(stopsById: map<string, Stop>, fastest: Option<PathResult>, fewest: Option<PathResult>,
                    balanced: Option<PathResult>)
    ensures var seen := Collect(stopsById, fastest, fewest, balanced).seen;
            && (fastest.Some? && |fastest.value.stopIds| > 0 ==> fastest.value.stopIds in seen)
            && (fewest.Some? && |fewest.value.stopIds| > 0 ==> fewest.value.stopIds in seen)
            && (balanced.Some? && |balanced.value.stopIds| > 0 ==> balanced.value.stopIds in seen)
  {
  }

  /** With known stops, every path found has its option. */
  lemma CollectCovers(stopsById: map<string, Stop>, fastest: Option<PathResult>, fewest: Option<PathResult>,
                      balanced: Option<PathResult>)
    requires KnownResults(stopsById, fastest, fewest, balanced)
    ensures var found := Collect(stopsById, fastest, fewest, balanced).options;
            Covers(found, fastest) && Covers(found, fewest) && Covers(found, balanced)
  {
    CollectTracked(stopsById, fastest, fewest, balanced);
    CollectSeen(stopsById, fastest, fewest, balanced);
  }

  /** With known stops, the balanced path, when there is one, carries the
      only recommendation. */
  lemma CollectRecommendsBalanced(stopsById: map<string, Stop>, fastest: Option<PathResult>, fewest: Option<PathResult>,
                                  balanced: Option<PathResult>)
    requires KnownResults(stopsById, fastest, fewest, balanced) && balanced.Some?
    ensures var found := Collect(stopsById, fastest, fewest, balanced).options;
            && AnyRecommended(found)
            && (forall i :: 0 <= i < |found| && found[i].recommended ==> Signature(found[i]) == balanced.value.stopIds)
  {
    var c2 := Unrecommended(stopsById, fastest, fewest);
    UnrecommendedTracked(stopsById, fastest, fewest);
    UnrecommendedShape(stopsById, fastest, fewest, [fastest, fewest]);
    RecommendsOnly(c2, balanced, stopsById);
  }

  // ---------------------------------------------------------------------------
  // Sorting and the recommendation.
  // ---------------------------------------------------------------------------

  /** `comparingInt(getTotalDurationSeconds).thenComparingInt(getTransfers)`. */
  function DurationThenTransfers(o: JourneyOption): SortKey {
    SortKey(o.totalDurationSeconds, o.transfers)
  }

  /** The score `computeBalancedRecommendation` recomputes from the duration
      and the transfers. */
  function BalancedScore(o: JourneyOption): int {
    ScoreOf(o.totalDurationSeconds, o.transfers)
  }

  /** `computeBalancedRecommendation`: the position of the first option with
      the lowest balanced score, since only a strictly lower score replaces
      the current choice. */
  function BalancedChoice(options: seq<JourneyOption>): (k: int)
    requires |options| > 0
    ensures 0 <= k < |options|
    ensures forall i :: 0 <= i < |options| ==> BalancedScore(options[k]) <= BalancedScore(options[i])
    ensures forall i :: 0 <= i < k ==> BalancedScore(options[k]) < BalancedScore(options[i])
    decreases |options|
  {
    if |options| == 1 then 0
    else
      var n := |options| - 1;
      var k := BalancedChoice(options[..n]);
      assert forall i :: 0 <= i < n ==> options[..n][i] == options[i];
      if BalancedScore(options[n]) < BalancedScore(options[k]) then n else k
  }

  /** `markRecommended`: the same options, with the one at position `k`, and
      only that one, recommended. The source compares by reference, and
      every option is a distinct object, so that is a comparison of
      positions. */
  function MarkRecommended(options: seq<JourneyOption>, k: int): (r: seq<JourneyOption>)
    ensures |r| == |options|
    ensures forall i :: 0 <= i < |r| ==> r[i] == options[i].(recommended := i == k)
  {
    seq(|options|, i requires 0 <= i < |options| => options[i].(recommended := i == k))
  }

  /** `result.stream().anyMatch(JourneyOption::isRecommended)`. */
  predicate AnyRecommended(options: seq<JourneyOption>) {
    exists i :: 0 <= i < |options| && options[i].recommended
  }

  /** An option with its recommendation flag cleared. */
  function Unflagged(o: JourneyOption): JourneyOption {
    o.(recommended := false)
  }

  /** The tail of `execute`: sort the options, then recommend the best
      balanced score unless some option is already recommended. */
  function Arrange(found: seq<JourneyOption>): (r: seq<JourneyOption>)
    ensures |r| == |found|
  {
    var sorted := StableSort(found, DurationThenTransfers);
    if !AnyRecommended(sorted) && |sorted| > 0 then MarkRecommended(sorted, BalancedChoice(sorted)) else sorted
  }

  /** Arranging reorders the options and touches at most their flags. */
  lemma ArrangeReorders(found: seq<JourneyOption>)
    ensures var sorted := StableSort(found, DurationThenTransfers);
            var r := Arrange(found);
            forall i :: 0 <= i < |r| ==> Unflagged(r[i]) == Unflagged(sorted[i])
  {
  }

  /** The options come out ordered by duration and then transfers. */
  lemma ArrangeSorted(found: seq<JourneyOption>)
    ensures SortedBy(Arrange(found), DurationThenTransfers)
  {
    var sorted := StableSort(found, DurationThenTransfers);
    var r := Arrange(found);
    ArrangeReorders(found);
    assert forall i :: 0 <= i < |r| ==> DurationThenTransfers(r[i]) == DurationThenTransfers(sorted[i]);
  }

  /** At most one recommended option going in, exactly one coming out. */
  lemma ArrangeRecommendsOne(found: seq<JourneyOption>)
    requires CountWhere(found, Recommended) <= 1 && |found| > 0
    ensures CountWhere(Arrange(found), Recommended) == 1
  {
    var sorted := StableSort(found, DurationThenTransfers);
    PermutationKeepsCount(found, sorted, Recommended);
    if AnyRecommended(sorted) {
      CountWhereZero(sorted, Recommended);
      assert Arrange(found) == sorted;
    } else {
      MarkedOnce(sorted, BalancedChoice(sorted));
    }
  }

  /** Marking one position recommends exactly one option. */
  lemma MarkedOnce(options: seq<JourneyOption>, k: int)
    requires 0 <= k < |options|
    ensures CountWhere(MarkRecommended(options, k), Recommended) == 1
  {
    CountWhereOne(MarkRecommended(options, k), Recommended, k);
  }


  /** An existing recommendation is left alone: every recommended option
      going out came in recommended. */
  lemma ArrangeKeepsRecommendation(found: seq<JourneyOption>)
    requires AnyRecommended(found)
    ensures var r := Arrange(found);
            forall i :: 0 <= i < |r| && r[i].recommended ==> r[i] in found
  {
    var sorted := StableSort(found, DurationThenTransfers);
    var j :| 0 <= j < |found| && found[j].recommended;
    assert found[j] in multiset(sorted);
    assert AnyRecommended(sorted);
    assert forall i :: 0 <= i < |sorted| ==> sorted[i] in multiset(found);
  }

  /** When every recommended option going in carries `sig`, so does every
      recommended option going out. */
  lemma RecommendedSignatureKept(found: seq<JourneyOption>, sig: seq<string>)
    requires AnyRecommended(found)
    requires forall i :: 0 <= i < |found| && found[i].recommended ==> Signature(found[i]) == sig
    ensures var r := Arrange(found);
            forall i :: 0 <= i < |r| && r[i].recommended ==> Signature(r[i]) == sig
  {
    ArrangeKeepsRecommendation(found);
    var r := Arrange(found);
    forall i | 0 <= i < |r| && r[i].recommended
      ensures Signature(r[i]) == sig
    {
      var j :| 0 <= j < |found| && found[j] == r[i];
    }
  }

  /** Distinct signatures stay distinct. */
  lemma ArrangeDistinct(found: seq<JourneyOption>)
    requires DistinctBy(found, Signature)
    ensures DistinctBy(Arrange(found), Signature)
  {
    var sorted := StableSort(found, DurationThenTransfers);
    PermutationKeepsDistinct(found, sorted, Signature);
    ArrangeReorders(found);
    var r := Arrange(found);
    assert forall i :: 0 <= i < |r| ==> Signature(r[i]) == Signature(sorted[i]);
  }

  /** Every option going out is an option coming in, up to its flag. */
  lemma ArrangeFrom(found: seq<JourneyOption>, i: int) returns (j: int)
    requires 0 <= i < |Arrange(found)|
    ensures 0 <= j < |found| && Unflagged(Arrange(found)[i]) == Unflagged(found[j])
  {
    var sorted := StableSort(found, DurationThenTransfers);
    ArrangeReorders(found);
    assert sorted[i] in multiset(found);
    j :| 0 <= j < |found| && found[j] == sorted[i];
  }

  /** Options built from given paths stay so: building ignores the flag. */
  lemma ArrangeFromResults(found: seq<JourneyOption>, stopsById: map<string, Stop>, results: seq<Option<PathResult>>)
    requires forall j :: 0 <= j < |found| ==> FromResults(stopsById, results, found[j])
    ensures var r := Arrange(found);
            forall i :: 0 <= i < |r| ==> FromResults(stopsById, results, r[i])
  {
    var r := Arrange(found);
    forall i | 0 <= i < |r|
      ensures FromResults(stopsById, results, r[i])
    {
      var j := ArrangeFrom(found, i);
      assert FromResults(stopsById, results, found[j]);
      var k :| 0 <= k < |results| && results[k].Some? && Describes(stopsById, results[k].value, found[j]);
      assert Describes(stopsById, results[k].value, r[i]);
    }
  }

  /** Every option coming in goes out, up to its flag. */
  lemma ArrangeKeeps(found: seq<JourneyOption>, j: int) returns (i: int)
    requires 0 <= j < |found|
    ensures 0 <= i < |Arrange(found)| && Unflagged(Arrange(found)[i]) == Unflagged(found[j])
  {
    var sorted := StableSort(found, DurationThenTransfers);
    ArrangeReorders(found);
    assert found[j] in multiset(sorted);
    i :| 0 <= i < |sorted| && sorted[i] == found[j];
  }

  // ---------------------------------------------------------------------------
  // The whole tail of execute.
  // ---------------------------------------------------------------------------

  /** Everything `execute` does after the three searches. */
  function Assemble(stopsById: map<string, Stop>, fastest: Option<PathResult>, fewest: Option<PathResult>,
                    balanced: Option<PathResult>): (r: seq<JourneyOption>)
    ensures |r| == |Collect(stopsById, fastest, fewest, balanced).options|
  {
    Arrange(Collect(stopsById, fastest, fewest, balanced).options)
  }

  /** For any three paths: at most three options, sorted, exactly one
      recommended when there is any, each built from one of the paths. */
  lemma AssembleShape(stopsById: map<string, Stop>, fastest: Option<PathResult>, fewest: Option<PathResult>,
                      balanced: Option<PathResult>)
    ensures var r := Assemble(stopsById, fastest, fewest, balanced);
            && |r| <= 3
            && SortedBy(r, DurationThenTransfers)
            && (|r| > 0 ==> CountWhere(r, Recommended) == 1)
            && (forall i :: 0 <= i < |r| ==> FromResults(stopsById, [fastest, fewest, balanced], r[i]))
  {
    var found := Collect(stopsById, fastest, fewest, balanced).options;
    CollectShape(stopsById, fastest, fewest, balanced);
    ArrangeSorted(found);
    if |found| > 0 {
      ArrangeRecommendsOne(found);
    }
    ArrangeFromResults(found, stopsById, [fastest, fewest, balanced]);
  }

  /** No path, no option. */
  lemma AssembleNothing(stopsById: map<string, Stop>)
    ensures Assemble(stopsById, None, None, None) == []
  {
  }

  /** With known stops, no two options share a signature. */
  lemma AssembleDistinct(stopsById: map<string, Stop>, fastest: Option<PathResult>, fewest: Option<PathResult>,
                         balanced: Option<PathResult>)
    requires KnownResults(stopsById, fastest, fewest, balanced)
    ensures DistinctBy(Assemble(stopsById, fastest, fewest, balanced), Signature)
  {
    CollectTracked(stopsById, fastest, fewest, balanced);
    ArrangeDistinct(Collect(stopsById, fastest, fewest, balanced).options);
  }

  /** With known stops, every path found has its option in the result. */
  lemma AssembleCovers(stopsById: map<string, Stop>, fastest: Option<PathResult>, fewest: Option<PathResult>,
                       balanced: Option<PathResult>)
    requires KnownResults(stopsById, fastest, fewest, balanced)
    ensures var r := Assemble(stopsById, fastest, fewest, balanced);
            Covers(r, fastest) && Covers(r, fewest) && Covers(r, balanced)
  {
    var found := Collect(stopsById, fastest, fewest, balanced).options;
    CollectCovers(stopsById, fastest, fewest, balanced);
    CoversAfterArrange(found, fastest);
    CoversAfterArrange(found, fewest);
    CoversAfterArrange(found, balanced);
  }

  lemma CoversAfterArrange(found: seq<JourneyOption>, path: Option<PathResult>)
    requires Covers(found, path)
    ensures Covers(Arrange(found), path)
  {
    if path.Some? {
      var j :| 0 <= j < |found| && Signature(found[j]) == path.value.stopIds;
      var i := ArrangeKeeps(found, j);
      assert Signature(Arrange(found)[i]) == path.value.stopIds;
    }
  }

  /** With known stops and a balanced path, the recommended option is the
      one carrying the balanced path. */
  lemma AssembleRecommendsBalanced(stopsById: map<string, Stop>, fastest: Option<PathResult>, fewest: Option<PathResult>,
                                   balanced: Option<PathResult>)
    requires KnownResults(stopsById, fastest, fewest, balanced) && balanced.Some?
    ensures var r := Assemble(stopsById, fastest, fewest, balanced);
            forall i :: 0 <= i < |r| && r[i].recommended ==> Signature(r[i]) == balanced.value.stopIds
  {
    var found := Collect(stopsById, fastest, fewest, balanced).options;
    CollectRecommendsBalanced(stopsById, fastest, fewest, balanced);
    RecommendedSignatureKept(found, balanced.value.stopIds);
  }

  /** When all three searches return the one-stop path of a known stop, the
      result is that single stop, with no duration, no transfer, no penalty,
      and recommended. */
  lemma AssembleOneStop(stopsById: map<string, Stop>, id: string)
    requires StopsKeyedById(stopsById) && id in stopsById
    ensures var only := Some(PathResult([id], 0));
            Assemble(stopsById, only, only, only) == [JourneyOption([stopsById[id]], 0, 0, 0, true)]
  {
    var only := Some(PathResult([id], 0));
    var option := JourneyOption([stopsById[id]], 0, 0, 0, false);
    assert Resolve(stopsById, [id]) == [stopsById[id]];
    var c1 := AddOption(Candidates([], {}), only, stopsById, false);
    assert c1 == Candidates([option], {[id]});
    assert Unrecommended(stopsById, only, only) == c1;
    assert Signature(option) == [id];
    var found := Collect(stopsById, only, only, only).options;
    assert found == [option.(recommended := true)];
    assert StableSort(found, DurationThenTransfers) == found;
  }
}
