/** Stop sequences through the adjacency list, and what they cost under the
    three edge weights the journey search uses. A path is a sequence of stop
    ids in which every stop has at least one outgoing edge to the next; a step
    costs the cheapest of those edges. */
module Paths {
  import opened Text
  import opened Graph

  /** The extra cost per hop of the balanced search. */
  const TransferPenaltySeconds: int := 300

  /** The three searches run over one graph: by travel time, by hop count, and
      by travel time plus a fixed penalty per hop. */
  datatype Criterion = Fastest | FewestTransfers | Balanced

  /** The weight function handed to the search, before clamping. */
  function RawWeight(c: Criterion, e: StopEdge): int {
    match c
    case Fastest => e.travelTimeSeconds
    case FewestTransfers => 1
    case Balanced => e.travelTimeSeconds + TransferPenaltySeconds
  }

  /** `Math.max(1, weight(edge))`: the search never sees a step cheaper than
      one, and a weight that is already positive is left alone. */
  function Weight(c: Criterion, e: StopEdge): (w: int)
    ensures w >= 1 && w >= RawWeight(c, e)
    ensures RawWeight(c, e) >= 1 ==> w == RawWeight(c, e)
    ensures w == 1 <== RawWeight(c, e) <= 1
  {
    Max(1, RawWeight(c, e))
  }

  // ---------------------------------------------------------------------------
  // Steps and paths.
  // ---------------------------------------------------------------------------

  /** Some edge of `edges` leads to `v`. */
  predicate Leads(edges: seq<StopEdge>, v: string) {
    exists i :: 0 <= i < |edges| && edges[i].toStopId == v
  }

  /** The adjacency list has an edge from `u` to `v`. */
  predicate HasStep(adj: Adjacency, u: string, v: string) {
    Leads(Out(adj, u), v)
  }

  /** The cheapest weight among the edges of `edges` that lead to `v`. */
  function CheapestTo(c: Criterion, edges: seq<StopEdge>, v: string): (w: int)
    requires Leads(edges, v)
    ensures exists i :: 0 <= i < |edges| && edges[i].toStopId == v && Weight(c, edges[i]) == w
    ensures forall i :: 0 <= i < |edges| && edges[i].toStopId == v ==> w <= Weight(c, edges[i])
    decreases |edges|
  {
    var head := edges[0];
    var tail := edges[1..];
    if !Leads(tail, v) then
      assert head.toStopId == v by {
        assert forall i :: 1 <= i < |edges| ==> edges[i] == tail[i - 1];
      }
      Weight(c, head)
    else if head.toStopId == v then
      Min(Weight(c, head), CheapestTo(c, tail, v))
    else
      CheapestTo(c, tail, v)
  }

  /** Every consecutive pair of stops is joined by an edge. */
  predicate IsPath(adj: Adjacency, p: seq<string>) {
    forall i :: 0 <= i < |p| - 1 ==> HasStep(adj, p[i], p[i + 1])
  }

  /** A path from `origin` to `dest`; the one-stop path joins a stop to itself. */
  predicate Joins(adj: Adjacency, p: seq<string>, origin: string, dest: string) {
    |p| > 0 && p[0] == origin && p[|p| - 1] == dest && IsPath(adj, p)
  }

  lemma PathTail(adj: Adjacency, p: seq<string>)
    requires |p| > 0 && IsPath(adj, p)
    ensures IsPath(adj, p[1..])
  {
    forall i | 0 <= i < |p[1..]| - 1
      ensures HasStep(adj, p[1..][i], p[1..][i + 1])
    {
      assert p[1..][i] == p[i + 1] && p[1..][i + 1] == p[i + 2];
    }
  }

  lemma PathCons(adj: Adjacency, u: string, p: seq<string>)
    requires |p| > 0 && IsPath(adj, p) && HasStep(adj, u, p[0])
    ensures IsPath(adj, [u] + p) && ([u] + p)[1..] == p
  {
    var q := [u] + p;
    forall i | 0 <= i < |q| - 1
      ensures HasStep(adj, q[i], q[i + 1])
    {
      if i > 0 {
        assert q[i] == p[i - 1] && q[i + 1] == p[i];
      }
    }
    assert q[1..] == p;
  }

  /** The search cost of a path: the cheapest edge of each step, summed. Every
      step costs at least one, so a path costs at least its number of hops. */
  function PathCost(adj: Adjacency, c: Criterion, p: seq<string>): (r: int)
    requires IsPath(adj, p)
    ensures r >= 0 && r >= |p| - 1
    decreases |p|
  {
    if |p| <= 1 then 0
    else
      PathTail(adj, p);
      assert HasStep(adj, p[0], p[1]);
      CheapestTo(c, Out(adj, p[0]), p[1]) + PathCost(adj, c, p[1..])
  }

  /** `p` joins `origin` to `dest` and no path between them costs less. */
  ghost predicate Cheapest(adj: Adjacency, c: Criterion, p: seq<string>, origin: string, dest: string) {
    Joins(adj, p, origin, dest) && forall q :: Joins(adj, q, origin, dest) ==> PathCost(adj, c, p) <= PathCost(adj, c, q)
  }

  /** Under unit weights a path costs exactly its number of hops. */
  lemma {:induction false} HopCost(adj: Adjacency, p: seq<string>)
    requires IsPath(adj, p)
    ensures PathCost(adj, FewestTransfers, p) == |p| - 1 || |p| == 0
    decreases |p|
  {
    if |p| > 1 {
      PathTail(adj, p);
      HopCost(adj, p[1..]);
      var w := CheapestTo(FewestTransfers, Out(adj, p[0]), p[1]);
      assert w == 1;
    }
  }

  /** A path that is cheapest under unit weights has the fewest hops. */
  lemma FewestHops(adj: Adjacency, p: seq<string>, q: seq<string>)
    requires |p| > 0 && |q| > 0 && IsPath(adj, p) && IsPath(adj, q)
    requires PathCost(adj, FewestTransfers, p) <= PathCost(adj, FewestTransfers, q)
    ensures |p| <= |q|
  {
    HopCost(adj, p);
    HopCost(adj, q);
  }
}
