/** The lazy-deletion Dijkstra search of the journey use case. Tentative
    distances and predecessors live in maps; the heap holds (stop, cost)
    entries and is never cleaned, so an entry whose cost is above the stop's
    current distance is stale and skipped when popped. The heap is modelled as
    a set of entries: a push always carries a distance strictly below every
    entry already queued for that stop, so the heap never holds two equal
    entries. Among entries of equal cost the heap may pop any one; every
    property below holds whichever it pops. */
module ShortestPath {
  import opened Wrappers
  import opened Graph
  import opened Paths

  datatype NodeCost = NodeCost(stopId: string, cost: int)

  /** Every stop the search can ever put a distance on, besides the origin. */
  function Targets(adj: Adjacency): set<string> {
    set k, i | k in adj && 0 <= i < |adj[k]| :: adj[k][i].toStopId
  }

  // ---------------------------------------------------------------------------
  // The search state and its invariants.
  // ---------------------------------------------------------------------------

  /** The origin sits at distance zero, distances are never negative, and
      following a predecessor link goes back along an edge to a strictly
      nearer stop, until the origin, which has none. */
  ghost predicate PredecessorsSound(adj: Adjacency, c: Criterion, origin: string,
                              dist: map<string, int>, prev: map<string, string>) {
    && origin in dist && dist[origin] == 0
    && (forall v :: v in dist ==> dist[v] >= 0)
    && Covered(origin, dist, prev)
    && (forall v :: v in prev ==> LinkedBack(adj, c, origin, dist, prev, v))
  }

  /** Every stop with a distance but the origin has a predecessor. */
  ghost predicate Covered(origin: string, dist: map<string, int>, prev: map<string, string>) {
    forall v {:trigger HasDistance(dist, v)} :: HasDistance(dist, v) && v != origin ==> v in prev
  }

  /** `v` has a tentative distance. Naming the test keeps the solver from
      chasing predecessor links on its own: the fact that every reached stop
      but the origin has a predecessor applies only where a proof asks. */
  predicate HasDistance(dist: map<string, int>, v: string) {
    v in dist
  }

  /** The predecessor of `v` has a distance, an edge leads from it to `v`,
      and reaching `v` that way costs no more than `v`'s distance. */
  predicate LinkedBack(adj: Adjacency, c: Criterion, origin: string,
                       dist: map<string, int>, prev: map<string, string>, v: string)
    requires v in prev
  {
    && v != origin && v in dist && prev[v] in dist
    && HasStep(adj, prev[v], v)
    && dist[prev[v]] + CheapestTo(c, Out(adj, prev[v]), v) <= dist[v]
  }

  /** Every settled stop has had all its outgoing edges relaxed. */
  predicate Relaxed(adj: Adjacency, c: Criterion, dist: map<string, int>, done: set<string>) {
    forall x :: x in done ==> x in dist && RelaxedFrom(adj, c, dist, x)
  }

  predicate RelaxedFrom(adj: Adjacency, c: Criterion, dist: map<string, int>, x: string)
    requires x in dist
  {
    forall i :: 0 <= i < |Out(adj, x)| ==>
      Out(adj, x)[i].toStopId in dist && dist[Out(adj, x)[i].toStopId] <= dist[x] + Weight(c, Out(adj, x)[i])
  }

  /** The heap against the distances: no entry is below its stop's distance,
      every unsettled stop with a distance has the entry for it, settled
      distances are at most every queued cost, and every entry left for a
      settled stop is stale. */
  predicate QueueSound(dist: map<string, int>, done: set<string>, queue: set<NodeCost>) {
    && (forall q :: q in queue ==> q.stopId in dist && q.cost >= dist[q.stopId])
    && (forall v :: v in dist && v !in done ==> NodeCost(v, dist[v]) in queue)
    && (forall x :: x in done ==> x in dist && SettledBelow(dist[x], queue))
    && (forall q :: q in queue && q.stopId in done ==> q.cost > dist[q.stopId])
  }

  predicate SettledBelow(d: int, queue: set<NodeCost>) {
    forall q :: q in queue ==> d <= q.cost
  }

  // ---------------------------------------------------------------------------
  // Why the search is right.
  // ---------------------------------------------------------------------------

  /** The frontier argument: a path that starts at a stop with a distance and
      ends at an unsettled stop passes through an unsettled stop with a
      distance, and the heap holds an entry no dearer than that prefix. */
  lemma {:induction false} Frontier(adj: Adjacency, c: Criterion, dist: map<string, int>, done: set<string>,
                                    queue: set<NodeCost>, p: seq<string>)
    requires Relaxed(adj, c, dist, done) && QueueSound(dist, done, queue)
    requires forall v :: v in dist ==> dist[v] >= 0
    ensures |p| > 0 && IsPath(adj, p) && p[0] in dist && p[|p| - 1] !in done ==>
              exists q :: q in queue && q.cost <= dist[p[0]] + PathCost(adj, c, p)
    decreases |p|
  {
    if |p| > 0 && IsPath(adj, p) && p[0] in dist && p[|p| - 1] !in done {
      var u := p[0];
      if u !in done {
        assert NodeCost(u, dist[u]) in queue;
      } else {
        assert |p| > 1;
        assert HasStep(adj, u, p[1]);
        var edges := Out(adj, u);
        var w := CheapestTo(c, edges, p[1]);
        var i :| 0 <= i < |edges| && edges[i].toStopId == p[1] && Weight(c, edges[i]) == w;
        assert RelaxedFrom(adj, c, dist, u);
        assert p[1] in dist && dist[p[1]] <= dist[u] + w;
        PathTail(adj, p);
        Frontier(adj, c, dist, done, queue, p[1..]);
        assert p[1..][0] == p[1] && p[1..][|p[1..]| - 1] == p[|p| - 1];
      }
    }
  }

  /** A stop popped at the lowest queued cost is reached no cheaper by any
      path from the origin. */
  lemma PoppedIsOptimal(adj: Adjacency, c: Criterion, origin: string, dist: map<string, int>,
                        done: set<string>, queue: set<NodeCost>, cur: NodeCost)
    requires origin in dist && dist[origin] == 0 && forall v :: v in dist ==> dist[v] >= 0
    requires Relaxed(adj, c, dist, done) && QueueSound(dist, done, queue)
    requires cur in queue && SettledBelow(cur.cost, queue) && cur.stopId !in done
    ensures forall p :: Joins(adj, p, origin, cur.stopId) ==> cur.cost <= PathCost(adj, c, p)
  {
    forall p | Joins(adj, p, origin, cur.stopId)
      ensures cur.cost <= PathCost(adj, c, p)
    {
      Frontier(adj, c, dist, done, queue, p);
    }
  }

  /** Once the heap is empty, no path leads from the origin to an unsettled
      stop. */
  lemma Exhausted(adj: Adjacency, c: Criterion, origin: string, dist: map<string, int>,
                  done: set<string>, dest: string)
    requires origin in dist && dist[origin] == 0 && forall v :: v in dist ==> dist[v] >= 0
    requires Relaxed(adj, c, dist, done) && QueueSound(dist, done, {})
    requires dest !in done
    ensures forall p :: !Joins(adj, p, origin, dest)
  {
    forall p
      ensures !Joins(adj, p, origin, dest)
    {
      Frontier(adj, c, dist, done, {}, p);
    }
  }

  // ---------------------------------------------------------------------------
  // The search.
  // ---------------------------------------------------------------------------

  /** Relaxes every outgoing edge of the stop `u` just settled at cost `du`:
      an edge improves its target only when it is strictly cheaper, and then
      records `u` as the target's predecessor and pushes the new cost. */
  method Relax(adj: Adjacency, c: Criterion, u: string, du: int,
               dist: map<string, int>, prev: map<string, string>, queue: set<NodeCost>,
               ghost origin: string, ghost settled: set<string>)
    returns (dist': map<string, int>, prev': map<string, string>, queue': set<NodeCost>)
    requires PredecessorsSound(adj, c, origin, dist, prev)
    requires Relaxed(adj, c, dist, settled)
    requires QueueSound(dist, settled + {u}, queue)
    requires u in dist && dist[u] == du && u !in settled
    requires forall x :: x in settled ==> x in dist && dist[x] <= du
    ensures PredecessorsSound(adj, c, origin, dist', prev')
    ensures Relaxed(adj, c, dist', settled + {u})
    ensures QueueSound(dist', settled + {u}, queue')
    ensures dist'.Keys <= dist.Keys + Targets(adj)
  {
    dist', prev', queue' := dist, prev, queue;
    var edges := Out(adj, u);
    for j := 0 to |edges|
      invariant RelaxingFrom(adj, c, origin, settled, u, du, j, dist', prev', queue')
      invariant dist'.Keys <= dist.Keys + Targets(adj)
    {
      var e := edges[j];
      var candidate := du + Weight(c, e);
      if e.toStopId !in dist' || candidate < dist'[e.toStopId] {
        assert adj[u][j].toStopId in Targets(adj);
        ImproveEdge(adj, c, origin, settled, u, du, j, dist', prev', queue', e.toStopId, candidate);
        dist' := dist'[e.toStopId := candidate];
        prev' := prev'[e.toStopId := u];
        queue' := queue' + {NodeCost(e.toStopId, candidate)};
      } else {
        KeepEdge(adj, c, origin, settled, u, du, j, dist', prev', queue');
      }
    }
    assert RelaxedFrom(adj, c, dist', u);
  }

  /** Part way through relaxing the edges of `u`: the search invariants hold
      for the stops settled before `u`, and the first `j` edges of `u` are
      relaxed. */
  ghost predicate RelaxingFrom(adj: Adjacency, c: Criterion, origin: string, settled: set<string>,
                         u: string, du: int, j: int,
                         dist: map<string, int>, prev: map<string, string>, queue: set<NodeCost>) {
    && PredecessorsSound(adj, c, origin, dist, prev)
    && Relaxed(adj, c, dist, settled)
    && QueueSound(dist, settled + {u}, queue)
    && u in dist && dist[u] == du && u !in settled
    && (forall x :: x in settled ==> x in dist && dist[x] <= du)
    && 0 <= j <= |Out(adj, u)|
    && (forall k :: 0 <= k < j ==> RelaxedEdge(c, dist, du, Out(adj, u)[k]))
  }

  predicate RelaxedEdge(c: Criterion, dist: map<string, int>, du: int, e: StopEdge) {
    e.toStopId in dist && dist[e.toStopId] <= du + Weight(c, e)
  }

  /** An edge that does not improve its target is already relaxed. */
  lemma KeepEdge(adj: Adjacency, c: Criterion, origin: string, settled: set<string>,
                 u: string, du: int, j: int,
                 dist: map<string, int>, prev: map<string, string>, queue: set<NodeCost>)
    requires RelaxingFrom(adj, c, origin, settled, u, du, j, dist, prev, queue) && j < |Out(adj, u)|
    requires var e := Out(adj, u)[j];
             e.toStopId in dist && du + Weight(c, e) >= dist[e.toStopId]
    ensures RelaxingFrom(adj, c, origin, settled, u, du, j + 1, dist, prev, queue)
  {
    assert RelaxedEdge(c, dist, du, Out(adj, u)[j]);
  }

  /** Relaxing an edge that improves its target keeps the invariants. */
  lemma ImproveEdge(adj: Adjacency, c: Criterion, origin: string, settled: set<string>,
                    u: string, du: int, j: int,
                    dist: map<string, int>, prev: map<string, string>, queue: set<NodeCost>,
                    v: string, d: int)
    requires RelaxingFrom(adj, c, origin, settled, u, du, j, dist, prev, queue) && j < |Out(adj, u)|
    requires v == Out(adj, u)[j].toStopId && d == du + Weight(c, Out(adj, u)[j])
    requires v !in dist || d < dist[v]
    ensures RelaxingFrom(adj, c, origin, settled, u, du, j + 1, dist[v := d], prev[v := u], queue + {NodeCost(v, d)})
  {
    var dist' := dist[v := d];
    assert v != u && v !in settled;
    assert PredecessorsSound(adj, c, origin, dist', prev[v := u]) by {
      assert HasStep(adj, u, v);
      UpdateKeepsPredecessors(adj, c, origin, dist, prev, u, v, d);
    }
    assert Relaxed(adj, c, dist', settled) by {
      UpdateKeepsRelaxed(adj, c, dist, settled, v, d);
    }
    assert QueueSound(dist', settled + {u}, queue + {NodeCost(v, d)}) by {
      UpdateKeepsQueue(dist, settled + {u}, queue, v, d);
    }
    assert forall k :: 0 <= k < j + 1 ==> RelaxedEdge(c, dist', du, Out(adj, u)[k]) by {
      forall k | 0 <= k < j + 1
        ensures RelaxedEdge(c, dist', du, Out(adj, u)[k])
      {
        if k < j {
          assert RelaxedEdge(c, dist, du, Out(adj, u)[k]);
        }
      }
    }
  }

  /** Lowering the distance of a stop other than the origin, and linking it
      back along an edge, keeps the predecessor links sound. */
  lemma UpdateKeepsPredecessors(adj: Adjacency, c: Criterion, origin: string,
                                dist: map<string, int>, prev: map<string, string>,
                                u: string, v: string, d: int)
    requires PredecessorsSound(adj, c, origin, dist, prev)
    requires u in dist && u != v && d >= 1
    requires v !in dist || d < dist[v]
    requires HasStep(adj, u, v) && dist[u] + CheapestTo(c, Out(adj, u), v) <= d
    ensures PredecessorsSound(adj, c, origin, dist[v := d], prev[v := u])
  {
    assert v != origin;
    PredecessorsCovered(origin, dist, prev, u, v, d);
    LinksKept(adj, c, origin, dist, prev, u, v, d, dist[v := d], prev[v := u]);
  }

  /** Every stop with a distance but the origin keeps having a predecessor. */
  lemma PredecessorsCovered(origin: string, dist: map<string, int>, prev: map<string, string>,
                            u: string, v: string, d: int)
    requires Covered(origin, dist, prev)
    ensures Covered(origin, dist[v := d], prev[v := u])
  {
    var dist' := dist[v := d];
    forall w | HasDistance(dist', w) && w != origin
      ensures w in prev[v := u]
    {
      if w != v {
        assert HasDistance(dist, w);
      }
    }
  }

  /** Every predecessor link, old or new, still leads back along an edge. */
  lemma LinksKept(adj: Adjacency, c: Criterion, origin: string,
                  dist: map<string, int>, prev: map<string, string>,
                  u: string, v: string, d: int, dist': map<string, int>, prev': map<string, string>)
    requires forall w :: w in prev ==> LinkedBack(adj, c, origin, dist, prev, w)
    requires u in dist && u != v && v != origin
    requires v !in dist || d < dist[v]
    requires HasStep(adj, u, v) && dist[u] + CheapestTo(c, Out(adj, u), v) <= d
    requires dist' == dist[v := d] && prev' == prev[v := u]
    ensures forall w :: w in prev' ==> LinkedBack(adj, c, origin, dist', prev', w)
  {
    forall w | w in prev'
      ensures LinkedBack(adj, c, origin, dist', prev', w)
    {
      if w == v {
        NewLink(adj, c, origin, dist, prev, u, v, d);
      } else {
        LinkKept(adj, c, origin, dist, prev, u, v, d, w);
      }
    }
  }

  /** The link just recorded leads back along the edge that was relaxed. */
  lemma NewLink(adj: Adjacency, c: Criterion, origin: string,
                dist: map<string, int>, prev: map<string, string>,
                u: string, v: string, d: int)
    requires u in dist && u != v && v != origin
    requires HasStep(adj, u, v) && dist[u] + CheapestTo(c, Out(adj, u), v) <= d
    ensures LinkedBack(adj, c, origin, dist[v := d], prev[v := u], v)
  {
  }

  /** An older link survives another stop getting nearer. */
  lemma LinkKept(adj: Adjacency, c: Criterion, origin: string,
                 dist: map<string, int>, prev: map<string, string>,
                 u: string, v: string, d: int, w: string)
    requires w in prev && LinkedBack(adj, c, origin, dist, prev, w) && w != v
    requires v !in dist || d < dist[v]
    ensures LinkedBack(adj, c, origin, dist[v := d], prev[v := u], w)
  {
    assert prev[v := u][w] == prev[w];
  }

  /** Lowering the distance of an unsettled stop keeps every settled stop
      relaxed. */
  lemma UpdateKeepsRelaxed(adj: Adjacency, c: Criterion, dist: map<string, int>, settled: set<string>,
                           v: string, d: int)
    requires Relaxed(adj, c, dist, settled) && v !in settled
    requires v !in dist || d < dist[v]
    ensures Relaxed(adj, c, dist[v := d], settled)
  {
    var dist' := dist[v := d];
    forall x | x in settled
      ensures x in dist' && RelaxedFrom(adj, c, dist', x)
    {
      assert RelaxedFrom(adj, c, dist, x);
    }
  }

  /** Lowering the distance of an unsettled stop and pushing the new entry
      keeps the heap sound, as long as the new cost is not below a settled
      distance. */
  lemma UpdateKeepsQueue(dist: map<string, int>, done: set<string>, queue: set<NodeCost>, v: string, d: int)
    requires QueueSound(dist, done, queue) && v !in done
    requires v !in dist || d < dist[v]
    requires forall x :: x in done ==> x in dist && dist[x] <= d
    ensures QueueSound(dist[v := d], done, queue + {NodeCost(v, d)})
  {
    var dist' := dist[v := d];
    var queue' := queue + {NodeCost(v, d)};
    forall x | x in done
      ensures x in dist' && SettledBelow(dist'[x], queue')
    {
      assert SettledBelow(dist[x], queue);
    }
  }

  /** Walks the predecessor links back from `dest` to the origin. The walk
      ends because every link leads to a strictly nearer stop, and it always
      ends at the origin, so the source's check that the path starts at the
      origin never fails. */
  method Reconstruct(adj: Adjacency, c: Criterion, origin: string,
                     dist: map<string, int>, prev: map<string, string>, dest: string)
    returns (path: seq<string>)
    requires PredecessorsSound(adj, c, origin, dist, prev) && dest in dist
    ensures Joins(adj, path, origin, dest)
    ensures PathCost(adj, c, path) <= dist[dest]
  {
    var cursor := dest;
    path := [dest];
    while cursor in prev
      invariant cursor in dist
      invariant |path| > 0 && path[0] == cursor && path[|path| - 1] == dest && IsPath(adj, path)
      invariant dist[cursor] + PathCost(adj, c, path) <= dist[dest]
      decreases dist[cursor]
    {
      var u := prev[cursor];
      assert LinkedBack(adj, c, origin, dist, prev, cursor);
      PathCons(adj, u, path);
      path := [u] + path;
      cursor := u;
    }
    assert HasDistance(dist, cursor);
  }

  /** `dijkstra`: a path from `origin` to `dest` that no other path beats
      under the clamped weights of `c`, or `None` exactly when there is no
      path at all. A stop is joined to itself by the one-stop path. */
  method Dijkstra(adj: Adjacency, c: Criterion, origin: string, dest: string)
    returns (r: Option<seq<string>>)
    ensures r.Some? ==> Joins(adj, r.value, origin, dest)
    ensures r.Some? ==> forall p :: Joins(adj, p, origin, dest) ==> PathCost(adj, c, r.value) <= PathCost(adj, c, p)
    ensures r.None? ==> forall p :: !Joins(adj, p, origin, dest)
    ensures origin == dest ==> r == Some([origin])
  {
    var dist, prev := Search(adj, c, origin, dest);
    if dest !in dist {
      return None;
    }
    var path := Reconstruct(adj, c, origin, dist, prev, dest);
    if origin == dest {
      OnlyStopPath(adj, c, origin, path, dist[dest]);
    }
    r := Some(path);
  }

  /** The cheapest way from a stop to itself is to stay put. */
  lemma OnlyStopPath(adj: Adjacency, c: Criterion, origin: string, path: seq<string>, bound: int)
    requires Joins(adj, path, origin, origin) && PathCost(adj, c, path) <= bound
    requires forall p :: Joins(adj, p, origin, origin) ==> bound <= PathCost(adj, c, p)
    ensures path == [origin]
  {
    assert Joins(adj, [origin], origin, origin);
  }

  /** The search loop: settles stops in order of distance until it pops the
      destination or the heap runs dry. Either way the distance found for
      `dest`, if any, is optimal, and no distance means no path. */
  method Search(adj: Adjacency, c: Criterion, origin: string, dest: string)
    returns (dist: map<string, int>, prev: map<string, string>)
    ensures PredecessorsSound(adj, c, origin, dist, prev)
    ensures dest in dist ==> forall p :: Joins(adj, p, origin, dest) ==> dist[dest] <= PathCost(adj, c, p)
    ensures dest !in dist ==> forall p :: !Joins(adj, p, origin, dest)
  {
    dist := map[origin := 0];
    prev := map[];
    var queue := {NodeCost(origin, 0)};
    ghost var done: set<string> := {};
    ghost var nodes := {origin} + Targets(adj);
    SearchStarts(adj, c, origin, dest, nodes);
    while queue != {}
      invariant Searching(adj, c, origin, dest, nodes, dist, prev, done, queue)
      decreases |nodes - done|, |queue|
    {
      MinimumExists(queue);
      var cur :| cur in queue && SettledBelow(cur.cost, queue);
      var u := cur.stopId;
      if cur.cost > dist[u] {
        DropStale(adj, c, origin, dest, nodes, dist, prev, done, queue, cur);
        queue := queue - {cur};
        continue;
      }
      if u == dest {
        PoppedIsOptimal(adj, c, origin, dist, done, queue, cur);
        break;
      }
      dist, prev, queue := Settle(adj, c, cur, dist, prev, queue, origin, dest, nodes, done);
      done := done + {u};
    }
    if dest !in dist {
      Exhausted(adj, c, origin, dist, done, dest);
    }
  }

  /** Settles the stop of the cheapest live entry `cur` and relaxes its
      edges; the loop invariant then holds with that stop settled. */
  method Settle(adj: Adjacency, c: Criterion, cur: NodeCost,
                dist: map<string, int>, prev: map<string, string>, queue: set<NodeCost>,
                ghost origin: string, ghost dest: string, ghost nodes: set<string>, ghost done: set<string>)
    returns (dist': map<string, int>, prev': map<string, string>, queue': set<NodeCost>)
    requires Searching(adj, c, origin, dest, nodes, dist, prev, done, queue)
    requires cur in queue && SettledBelow(cur.cost, queue) && cur.cost <= dist[cur.stopId]
    requires cur.stopId != dest && Targets(adj) <= nodes
    ensures Searching(adj, c, origin, dest, nodes, dist', prev', done + {cur.stopId}, queue')
    ensures |nodes - (done + {cur.stopId})| < |nodes - done|
  {
    SettleStep(dist, done, queue, cur);
    dist', prev', queue' := Relax(adj, c, cur.stopId, cur.cost, dist, prev, queue - {cur}, origin, done);
    Settled(adj, c, origin, dest, nodes, dist, dist', prev', done, queue', cur.stopId);
  }

  /** The invariant of the search loop. */
  ghost predicate Searching(adj: Adjacency, c: Criterion, origin: string, dest: string, nodes: set<string>,
                            dist: map<string, int>, prev: map<string, string>, done: set<string>,
                            queue: set<NodeCost>) {
    && PredecessorsSound(adj, c, origin, dist, prev)
    && Relaxed(adj, c, dist, done)
    && QueueSound(dist, done, queue)
    && dest !in done
    && done <= dist.Keys <= nodes
  }

  /** After relaxing the edges of a freshly settled stop `u` other than the
      destination, the loop invariant holds again with `u` settled, and fewer
      stops remain unsettled. */
  lemma Settled(adj: Adjacency, c: Criterion, origin: string, dest: string, nodes: set<string>,
                before: map<string, int>, dist: map<string, int>, prev: map<string, string>,
                done: set<string>, queue: set<NodeCost>, u: string)
    requires done <= before.Keys <= nodes && u in before && u != dest && dest !in done
    requires Targets(adj) <= nodes && u !in done
    requires PredecessorsSound(adj, c, origin, dist, prev)
    requires Relaxed(adj, c, dist, done + {u})
    requires QueueSound(dist, done + {u}, queue)
    requires dist.Keys <= before.Keys + Targets(adj)
    ensures Searching(adj, c, origin, dest, nodes, dist, prev, done + {u}, queue)
    ensures |nodes - (done + {u})| < |nodes - done|
  {
    assert nodes - (done + {u}) < nodes - done;
  }

  /** Popping the cheapest live entry settles its stop: the heap without that
      entry is sound for the settled set grown by that stop. */
  lemma SettleStep(dist: map<string, int>, done: set<string>, queue: set<NodeCost>, cur: NodeCost)
    requires QueueSound(dist, done, queue)
    requires cur in queue && SettledBelow(cur.cost, queue) && cur.cost <= dist[cur.stopId]
    ensures cur.stopId !in done && dist[cur.stopId] == cur.cost
    ensures QueueSound(dist, done + {cur.stopId}, queue - {cur})
    ensures forall x :: x in done ==> dist[x] <= cur.cost
  {
    var rest := queue - {cur};
    forall x | x in done + {cur.stopId}
      ensures x in dist && SettledBelow(dist[x], rest)
    {
    }
  }

  /** Before the first pop only the origin has a distance, at zero, and the
      heap holds just its entry. */
  lemma SearchStarts(adj: Adjacency, c: Criterion, origin: string, dest: string, nodes: set<string>)
    requires nodes == {origin} + Targets(adj)
    ensures Searching(adj, c, origin, dest, nodes, map[origin := 0], map[], {}, {NodeCost(origin, 0)})
  {
    assert Covered(origin, map[origin := 0], map[]);
  }

  /** Popping a stale entry changes nothing else. */
  lemma DropStale(adj: Adjacency, c: Criterion, origin: string, dest: string, nodes: set<string>,
                  dist: map<string, int>, prev: map<string, string>, done: set<string>,
                  queue: set<NodeCost>, cur: NodeCost)
    requires Searching(adj, c, origin, dest, nodes, dist, prev, done, queue)
    requires cur in queue && cur.cost > dist[cur.stopId]
    ensures Searching(adj, c, origin, dest, nodes, dist, prev, done, queue - {cur})
    ensures |queue - {cur}| < |queue|
  {
    var rest := queue - {cur};
    forall x | x in done
      ensures x in dist && SettledBelow(dist[x], rest)
    {
    }
  }

  /** A finite non-empty heap has a cheapest entry. */
  lemma MinimumExists(queue: set<NodeCost>)
    requires queue != {}
    ensures exists m :: m in queue && SettledBelow(m.cost, queue)
    decreases |queue|
  {
    var x :| x in queue;
    var rest := queue - {x};
    if rest == {} {
      assert queue == {x};
      assert SettledBelow(x.cost, queue);
    } else {
      MinimumExists(rest);
      var m :| m in rest && SettledBelow(m.cost, rest);
      if x.cost < m.cost {
        assert SettledBelow(x.cost, queue);
      } else {
        assert SettledBelow(m.cost, queue);
      }
    }
  }
}
