// The state of `min_distances_inner` in src/graph.rs between turns of its
// loop: the settled distances, the heap of tentative entries, and the
// invariant that ties them to the walks of the graph.

module GraphShortestState {
  import opened Base
  import opened GraphWalks

  /** Every heap entry is the cost of some walk to its vertex. */
  ghost predicate HeapSound<V(!new)>(edges: V -> seq<(V, nat)>, start: V, heap: seq<(nat, V)>) {
    forall x :: x in heap ==> HasWalkOfCost(edges, start, x.1, x.0)
  }

  /** Every settled distance is the least one. */
  ghost predicate Settled<V(!new)>(edges: V -> seq<(V, nat)>, start: V, dist: map<V, nat>) {
    forall v :: v in dist ==> IsMinDistance(edges, start, v, dist[v])
  }

  /** No heap entry is nearer than a settled vertex. */
  ghost predicate SettledFirst<V>(dist: map<V, nat>, heap: seq<(nat, V)>) {
    forall v, x :: v in dist && x in heap ==> dist[v] <= x.0
  }

  /** Every edge out of a settled vertex leads to a settled vertex or is
      waiting in the heap with the distance it gives. */
  ghost predicate Frontier<V(!new)>(edges: V -> seq<(V, nat)>, dist: map<V, nat>, heap: seq<(nat, V)>) {
    forall u, e :: u in dist && e in edges(u) ==> e.0 in dist || (dist[u] + e.1, e.0) in heap
  }

  /** The part of the loop's state that speaks of walks: every heap entry
      and settled distance is sound, settled vertices are least and their
      edges are accounted for, and `start` is settled once the first entry
      is gone. */
  ghost predicate Sound<V(!new)>(edges: V -> seq<(V, nat)>, start: V, dist: map<V, nat>, heap: seq<(nat, V)>) {
    && HeapSound(edges, start, heap)
    && Settled(edges, start, dist)
    && Frontier(edges, dist, heap)
    && (start in dist || (dist == map[] && heap == [(0, start)]))
  }

  /** The state the main loop of `min_distances_inner` keeps. */
  ghost predicate Invariant<V(!new)>(edges: V -> seq<(V, nat)>, start: V, universe: set<V>, shouldStop: (V, nat) -> bool,
                                     dist: map<V, nat>, heap: seq<(nat, V)>)
  {
    && dist.Keys <= universe
    && (forall x :: x in heap ==> x.1 in universe)
    && Sound(edges, start, dist, heap)
    && SettledFirst(dist, heap)
    && (forall v :: v in dist ==> !shouldStop(v, dist[v]))
  }
}
