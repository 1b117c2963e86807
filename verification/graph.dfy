/** The immutable stop graph shared by the loader and the searches: a stop
    table keyed by stop id and, per stop id, the list of outgoing edges. */
module Graph {

  /** A stop as loaded from the stop file. Coordinates are whatever the
      coordinate parser produced; nothing in the core computes with them. */
  datatype Stop = Stop(id: string, name: string, latitude: real, longitude: real)

  /** A directed connection with its averaged travel time in seconds. */
  datatype StopEdge = StopEdge(fromStopId: string, toStopId: string, travelTimeSeconds: int)

  type Adjacency = map<string, seq<StopEdge>>

  /** The frozen graph: what the loader builds and the searches read. */
  datatype StopGraph = StopGraph(stops: map<string, Stop>, adjacency: Adjacency)

  /** `adjacencyList.getOrDefault(id, emptyList())`. */
  function Out(adj: Adjacency, id: string): seq<StopEdge> {
    if id in adj then adj[id] else []
  }

  /** Every stop is stored under its own id. */
  predicate StopsKeyedById(stops: map<string, Stop>) {
    forall k :: k in stops ==> stops[k].id == k
  }

  /** Every edge is stored under its from-stop and joins two known stops. */
  predicate EdgesBetweenStops(stops: map<string, Stop>, adj: Adjacency) {
    forall k, i :: k in adj && 0 <= i < |adj[k]| ==>
      adj[k][i].fromStopId == k && k in stops && adj[k][i].toStopId in stops
  }

  /** The shape the loader guarantees and the journey search relies on. */
  predicate WellFormed(g: StopGraph) {
    StopsKeyedById(g.stops) && EdgesBetweenStops(g.stops, g.adjacency)
  }

  /** At most one edge per ordered pair of stops. */
  predicate OneEdgePerPair(adj: Adjacency) {
    forall k, i, j :: k in adj && 0 <= i < j < |adj[k]| ==> adj[k][i].toStopId != adj[k][j].toStopId
  }

  /** Every travel time is below `bound`. */
  predicate TravelBelow(adj: Adjacency, bound: int) {
    forall k, i :: k in adj && 0 <= i < |adj[k]| ==> adj[k][i].travelTimeSeconds < bound
  }

  /** Every travel time is at least `floor`. */
  predicate TravelAtLeast(adj: Adjacency, floor: int) {
    forall k, i :: k in adj && 0 <= i < |adj[k]| ==> adj[k][i].travelTimeSeconds >= floor
  }
}
