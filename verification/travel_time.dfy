/** `computeActualDuration`: the travel time reported for a path found by any
    of the three searches. Each step costs its fastest connecting edge by raw
    travel time, whatever the search weighed; a step with no edge at all makes
    the whole path cost `Integer.MAX_VALUE`, the value the loop starts from. */
module TravelTime {
  import opened Text
  import opened Graph
  import opened Paths

  /** The smallest travel time among the edges of `edges` that lead to `to`,
      with `Integer.MAX_VALUE` as the starting value: no such edge leaves it
      there. */
  function MinTravelTo(edges: seq<StopEdge>, to: string): (best: int)
    ensures best <= IntMax
    ensures forall i :: 0 <= i < |edges| && edges[i].toStopId == to ==> best <= edges[i].travelTimeSeconds
    ensures best == IntMax || exists i :: 0 <= i < |edges| && edges[i].toStopId == to && edges[i].travelTimeSeconds == best
  {
    if |edges| == 0 then IntMax
    else
      var n := |edges| - 1;
      var rest := MinTravelTo(edges[..n], to);
      assert forall i :: 0 <= i < n ==> edges[..n][i] == edges[i];
      if edges[n].toStopId == to then Min(rest, edges[n].travelTimeSeconds) else rest
  }

  /** What one step from `u` to `v` adds to the reported duration. */
  function StepTravel(adj: Adjacency, u: string, v: string): int {
    MinTravelTo(Out(adj, u), v)
  }

  /** No step of `p` is left at the starting value. */
  predicate StepsBelowMax(adj: Adjacency, p: seq<string>) {
    forall i :: 0 <= i < |p| - 1 ==> StepTravel(adj, p[i], p[i + 1]) < IntMax
  }

  /** The reported duration of a path whose every step has an edge: the sum of
      its steps. */
  function TravelSum(adj: Adjacency, p: seq<string>): int
    decreases |p|
  {
    if |p| <= 1 then 0 else StepTravel(adj, p[0], p[1]) + TravelSum(adj, p[1..])
  }

  /** The duration `computeActualDuration` reports for `p`. */
  function ActualDuration(adj: Adjacency, p: seq<string>): int {
    if StepsBelowMax(adj, p) then TravelSum(adj, p) else IntMax
  }

  /** `computeActualDuration`, loop for loop: the outer loop walks the
      consecutive pairs of the path, the inner one scans the edges of the
      first stop of the pair for the cheapest one to the second. Java `int`
      wrap-around of the running total is not modelled. */
  method ComputeActualDuration(adj: Adjacency, path: seq<string>) returns (total: int)
    ensures StepsBelowMax(adj, path) ==> total == TravelSum(adj, path)
    ensures !StepsBelowMax(adj, path) ==> total == IntMax
  {
    total := 0;
    var i := 1;
    while i < |path|
      invariant 1 <= i && (i <= |path| || (|path| == 0 && i == 1 && total == 0))
      invariant forall k :: 0 <= k < i - 1 ==> StepTravel(adj, path[k], path[k + 1]) < IntMax
      invariant i <= |path| ==> total + TravelSum(adj, path[i - 1..]) == TravelSum(adj, path)
    {
      var best := CheapestTravelTo(Out(adj, path[i - 1]), path[i]);
      if best == IntMax {
        assert !StepsBelowMax(adj, path) by {
          var k := i - 1;
          assert k + 1 == i;
          assert StepTravel(adj, path[k], path[k + 1]) == IntMax;
        }
        return IntMax;
      }
      TravelSumStep(adj, path, i);
      total := total + best;
      i := i + 1;
    }
    if |path| > 0 {
      assert |path[i - 1..]| == 1;
    }
  }

  /** The inner loop: the edges of one stop scanned for the cheapest one to
      `to`, starting from `Integer.MAX_VALUE`. */
  method CheapestTravelTo(edges: seq<StopEdge>, to: string) returns (best: int)
    ensures best == MinTravelTo(edges, to)
  {
    best := IntMax;
    for j := 0 to |edges|
      invariant best == MinTravelTo(edges[..j], to)
    {
      assert edges[..j + 1][..j] == edges[..j];
      if to == edges[j].toStopId {
        best := Min(best, edges[j].travelTimeSeconds);
      }
    }
    assert edges[..|edges|] == edges;
  }

  /** The sum from stop `i - 1` is one step plus the sum from stop `i`. */
  lemma TravelSumStep(adj: Adjacency, path: seq<string>, i: int)
    requires 1 <= i < |path|
    ensures TravelSum(adj, path[i - 1..]) == StepTravel(adj, path[i - 1], path[i]) + TravelSum(adj, path[i..])
  {
    assert path[i - 1..][1..] == path[i..];
  }

  // ---------------------------------------------------------------------------
  // The reported duration against the search cost.
  // ---------------------------------------------------------------------------

  /** With every travel time between one second and `Integer.MAX_VALUE`, the
      cheapest edge by clamped weight is the cheapest by travel time. */
  lemma StepIsFastestWeight(edges: seq<StopEdge>, v: string)
    requires Leads(edges, v)
    requires forall i :: 0 <= i < |edges| ==> 1 <= edges[i].travelTimeSeconds < IntMax
    ensures MinTravelTo(edges, v) == CheapestTo(Fastest, edges, v) < IntMax
  {
    var i :| 0 <= i < |edges| && edges[i].toStopId == v;
    assert MinTravelTo(edges, v) <= edges[i].travelTimeSeconds;
  }

  /** A step along an edge of the graph never reports the sentinel. */
  lemma StepBelowMax(adj: Adjacency, u: string, v: string)
    requires HasStep(adj, u, v) && TravelBelow(adj, IntMax)
    ensures StepTravel(adj, u, v) < IntMax
  {
    var i :| 0 <= i < |Out(adj, u)| && Out(adj, u)[i].toStopId == v;
  }

  /** A pair with no edge between them reports the sentinel. */
  lemma NoStepIsMax(adj: Adjacency, u: string, v: string)
    requires !HasStep(adj, u, v)
    ensures StepTravel(adj, u, v) == IntMax
  {
  }

  /** The duration reported for a path of the graph is never the sentinel
      when no travel time reaches it. */
  lemma PathBelowMax(adj: Adjacency, p: seq<string>)
    requires IsPath(adj, p) && TravelBelow(adj, IntMax)
    ensures StepsBelowMax(adj, p)
  {
    forall i | 0 <= i < |p| - 1
      ensures StepTravel(adj, p[i], p[i + 1]) < IntMax
    {
      StepBelowMax(adj, p[i], p[i + 1]);
    }
  }

  /** A sequence of stops that is not a path reports the sentinel. */
  lemma NotAPathIsMax(adj: Adjacency, p: seq<string>)
    requires !IsPath(adj, p)
    ensures !StepsBelowMax(adj, p)
  {
    var i :| 0 <= i < |p| - 1 && !HasStep(adj, p[i], p[i + 1]);
    NoStepIsMax(adj, p[i], p[i + 1]);
  }

  /** With travel times between one second and `Integer.MAX_VALUE`, the
      reported duration of a path is exactly what the fastest search charged
      for it. */
  lemma {:induction false} TravelSumIsFastestCost(adj: Adjacency, p: seq<string>)
    requires IsPath(adj, p) && TravelAtLeast(adj, 1) && TravelBelow(adj, IntMax)
    ensures TravelSum(adj, p) == PathCost(adj, Fastest, p)
    decreases |p|
  {
    if |p| > 1 {
      PathTail(adj, p);
      TravelSumIsFastestCost(adj, p[1..]);
      assert HasStep(adj, p[0], p[1]);
      StepIsFastestWeight(Out(adj, p[0]), p[1]);
    }
  }
}
