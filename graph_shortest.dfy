// `min_distances`, `min_distance_to` and the shared `min_distances_inner` in
// src/graph.rs: Dijkstra's algorithm over a caller-supplied weighted edge
// function, with an optional stop condition checked on each newly settled
// vertex.

module GraphShortest {
  import opened Base
  import opened GraphWalks
  import opened GraphShortestState

  /** The priority queue of `(distance, vertex)` entries. `PopMin` picks the
      first entry of least distance. */
  method PopMin<V>(heap: seq<(nat, V)>) returns (i: nat)
    requires heap != []
    ensures i < |heap|
    ensures forall j :: 0 <= j < |heap| ==> heap[i].0 <= heap[j].0
    ensures forall x :: x in heap ==> heap[i].0 <= x.0
  {
    i := 0;
    for j := 1 to |heap|
      invariant i < j
      invariant forall k :: 0 <= k < j ==> heap[i].0 <= heap[k].0
    {
      if heap[j].0 < heap[i].0 {
        i := j;
      }
    }
  }

  /** `heap` without its entry at `i`. */
  function RemoveAt<T>(heap: seq<T>, i: nat): (r: seq<T>)
    requires i < |heap|
    ensures |r| == |heap| - 1
    ensures forall e :: e in r ==> e in heap
    ensures forall e :: e in heap && e != heap[i] ==> e in r
  {
    heap[..i] + heap[i + 1..]
  }

  /** The entries `(d + cost, next)` pushed for the edges out of a vertex
      settled at distance `d`. */
  function Relax<V>(d: nat, next: seq<(V, nat)>): (r: seq<(nat, V)>)
    ensures forall e :: e in next ==> (d + e.1, e.0) in r
    ensures forall x :: x in r ==> exists e :: e in next && x == (d + e.1, e.0)
  {
    if next == [] then [] else [(d + next[0].1, next[0].0)] + Relax(d, next[1..])
  }

  /** Every entry of `heap` is the cost of some walk from `start`. */
  lemma FrontierAt<V(!new)>(edges: V -> seq<(V, nat)>, dist: map<V, nat>, heap: seq<(nat, V)>, u: V, e: (V, nat))
    requires Frontier(edges, dist, heap)
    requires u in dist && e in edges(u) && e.0 !in dist
    ensures (dist[u] + e.1, e.0) in heap
  {
  }

  /** A walk from a settled `start` to an unsettled vertex costs at least as
      much as some heap entry. */
  lemma {:induction false} BelowFrontier<V(!new)>(edges: V -> seq<(V, nat)>, start: V, dist: map<V, nat>, heap: seq<(nat, V)>,
                                                   steps: seq<(V, nat)>)
    returns (x: (nat, V))
    requires start in dist && Settled(edges, start, dist) && Frontier(edges, dist, heap)
    requires IsWeightedWalk(edges, start, steps) && WalkEnd(start, steps) !in dist
    ensures x in heap && x.0 <= WalkCost(steps)
  {
    var k := FirstExit(edges, start, steps, dist.Keys);
    var u, e := WalkEnd(start, steps[..k]), steps[k];
    StepAt(edges, start, steps, k);
    assert u in dist && e in edges(u) && e.0 !in dist;
    x := (dist[u] + e.1, e.0);
    FrontierAt(edges, dist, heap, u, e);
    WalkPrefix(edges, start, steps, k);
    assert dist[u] <= WalkCost(steps[..k]) by {
      assert IsMinDistance(edges, start, u, dist[u]);
    }
    WalkCostPrefix(steps, k);
  }

  /** An entry for a vertex already settled no nearer is dropped. */
  lemma SkipStale<V(!new)>(edges: V -> seq<(V, nat)>, start: V, universe: set<V>, shouldStop: (V, nat) -> bool,
                           dist: map<V, nat>, heap: seq<(nat, V)>, i: nat)
    requires Invariant(edges, start, universe, shouldStop, dist, heap)
    requires i < |heap| && heap[i].1 in dist
    ensures Invariant(edges, start, universe, shouldStop, dist, RemoveAt(heap, i))
  {
    var rest := RemoveAt(heap, i);
    forall u, e | u in dist && e in edges(u) && e.0 !in dist ensures (dist[u] + e.1, e.0) in rest {
      assert (dist[u] + e.1, e.0) in heap;
    }
  }

  /** An entry that is not stale names a vertex not yet settled. */
  lemma Unsettled<V(!new)>(edges: V -> seq<(V, nat)>, start: V, universe: set<V>, shouldStop: (V, nat) -> bool,
                           dist: map<V, nat>, heap: seq<(nat, V)>, i: nat)
    requires Invariant(edges, start, universe, shouldStop, dist, heap)
    requires i < |heap| && !(heap[i].1 in dist && heap[i].0 >= dist[heap[i].1])
    ensures heap[i].1 !in dist
  {
    assert heap[i] in heap;
  }

  lemma SettleShrinks<V>(universe: set<V>, dist: map<V, nat>, node: V, d: nat)
    requires node in universe && node !in dist
    ensures |universe - dist[node := d].Keys| < |universe - dist.Keys|
  {
    assert universe - dist[node := d].Keys == (universe - dist.Keys) - {node};
  }

  /** The least heap entry, for a vertex not yet settled, is that vertex's
      least distance. */
  lemma SettleMin<V(!new)>(edges: V -> seq<(V, nat)>, start: V, dist: map<V, nat>, heap: seq<(nat, V)>, i: nat)
    requires Sound(edges, start, dist, heap)
    requires i < |heap| && heap[i].1 !in dist
    requires forall j :: 0 <= j < |heap| ==> heap[i].0 <= heap[j].0
    ensures IsMinDistance(edges, start, heap[i].1, heap[i].0)
  {
    var (d, node) := heap[i];
    assert heap[i] in heap;
    forall steps | IsWeightedWalk(edges, start, steps) && WalkEnd(start, steps) == node
      ensures d <= WalkCost(steps)
    {
      if start in dist {
        var x := BelowFrontier(edges, start, dist, heap, steps);
        var j :| 0 <= j < |heap| && heap[j] == x;
      }
    }
  }

  /** The entries pushed for a vertex reached at cost `d` are costs of walks
      to vertices of `universe`. */
  lemma PushedSound<V(!new)>(edges: V -> seq<(V, nat)>, start: V, universe: set<V>, node: V, d: nat)
    requires ClosedUnder(Unweighted(edges), universe) && node in universe
    requires HasWalkOfCost(edges, start, node, d)
    ensures forall x :: x in Relax(d, edges(node)) ==> HasWalkOfCost(edges, start, x.1, x.0) && x.1 in universe
  {
    var p :| IsWeightedWalk(edges, start, p) && WalkEnd(start, p) == node && WalkCost(p) == d;
    forall e | e in edges(node) ensures HasWalkOfCost(edges, start, e.0, d + e.1) && e.0 in universe {
      WalkExtend(edges, start, p, e);
      assert e.0 in Unweighted(edges)(node);
    }
  }

  /** Settling the least entry keeps every settled distance at most every
      remaining or pushed entry. */
  lemma SettledFirstKeeps<V>(dist: map<V, nat>, heap: seq<(nat, V)>, i: nat, next: seq<(V, nat)>)
    requires SettledFirst(dist, heap) && i < |heap|
    requires forall j :: 0 <= j < |heap| ==> heap[i].0 <= heap[j].0
    ensures SettledFirst(dist[heap[i].1 := heap[i].0], RemoveAt(heap, i) + Relax(heap[i].0, next))
  {
    var d := heap[i].0;
    var dist', heap' := dist[heap[i].1 := d], RemoveAt(heap, i) + Relax(d, next);
    assert heap[i] in heap;
    forall v, x | v in dist' && x in heap' ensures dist'[v] <= x.0 {
      if x in RemoveAt(heap, i) {
        var j :| 0 <= j < |heap| && heap[j] == x;
      } else {
        var e :| e in next && x == (d + e.1, e.0);
      }
    }
  }

  /** Settling a vertex and pushing its edges keeps the frontier. */
  lemma FrontierKeeps<V(!new)>(edges: V -> seq<(V, nat)>, dist: map<V, nat>, heap: seq<(nat, V)>, i: nat)
    requires Frontier(edges, dist, heap) && i < |heap|
    ensures Frontier(edges, dist[heap[i].1 := heap[i].0], RemoveAt(heap, i) + Relax(heap[i].0, edges(heap[i].1)))
  {
    var (d, node) := heap[i];
    var dist', heap' := dist[node := d], RemoveAt(heap, i) + Relax(d, edges(node));
    forall u, e | u in dist' && e in edges(u) ensures e.0 in dist' || (dist'[u] + e.1, e.0) in heap' {
      if u != node && e.0 !in dist' {
        assert (dist[u] + e.1, e.0) in heap;
        assert (dist[u] + e.1, e.0) in RemoveAt(heap, i);
      } else if u == node {
        assert (d + e.1, e.0) in Relax(d, edges(node));
      }
    }
  }

  /** Settling the least entry's vertex and pushing its edges keeps the
      loop's state. */
  lemma SettleKeeps<V(!new)>(edges: V -> seq<(V, nat)>, start: V, universe: set<V>, shouldStop: (V, nat) -> bool,
                             dist: map<V, nat>, heap: seq<(nat, V)>, i: nat, d: nat, node: V)
    requires ClosedUnder(Unweighted(edges), universe)
    requires Invariant(edges, start, universe, shouldStop, dist, heap)
    requires i < |heap| && heap[i] == (d, node) && node !in dist && !shouldStop(node, d)
    requires forall j :: 0 <= j < |heap| ==> d <= heap[j].0
    ensures Invariant(edges, start, universe, shouldStop, dist[node := d], RemoveAt(heap, i) + Relax(d, edges(node)))
  {
    assert heap[i] in heap;
    SettleMin(edges, start, dist, heap, i);
    PushedSound(edges, start, universe, node, d);
    SettledFirstKeeps(dist, heap, i, edges(node));
    FrontierKeeps(edges, dist, heap, i);
  }

  /** `min_distances_inner(start, edges, should_stop)`: Dijkstra's algorithm
      from `start`. A vertex is settled the first time it leaves the heap;
      when `should_stop` holds of a newly settled vertex and its distance the
      search ends, and `stoppedAt` reports that distance (the closure
      `min_distance_to` passes records exactly this). The ghost `universe`
      is a finite set of vertices closed under the edges that holds `start`. */
  method MinDistancesInner<V(==,!new)>(start: V, edges: V -> seq<(V, nat)>, shouldStop: (V, nat) -> bool,
                                       ghost universe: set<V>)
    returns (dist: map<V, nat>, stoppedAt: Option<nat>)
    requires start in universe && ClosedUnder(Unweighted(edges), universe)
    ensures Settled(edges, start, dist)
    ensures stoppedAt.None? ==> forall v :: v in dist <==> WeightedReachable(edges, start, v)
    ensures stoppedAt.None? ==> forall v :: v in dist ==> !shouldStop(v, dist[v])
    ensures stoppedAt.Some? ==> exists v :: v in dist && dist[v] == stoppedAt.value && shouldStop(v, dist[v])
    ensures stoppedAt.Some? ==> forall v, m: nat :: IsMinDistance(edges, start, v, m) && m < stoppedAt.value ==>
      v in dist && !shouldStop(v, m)
  {
    dist := map[];
    var heap := [(0, start)];
    stoppedAt := None;
    assert IsWeightedWalk(edges, start, []) && WalkCost<V>([]) == 0;
    while heap != []
      invariant Invariant(edges, start, universe, shouldStop, dist, heap)
      invariant stoppedAt == None
      decreases |universe - dist.Keys|, |heap|
    {
      var i := PopMin(heap);
      var (d, node) := heap[i];
      if node in dist && d >= dist[node] {
        SkipStale(edges, start, universe, shouldStop, dist, heap, i);
        heap := RemoveAt(heap, i);
        continue;
      }
      Unsettled(edges, start, universe, shouldStop, dist, heap, i);
      if shouldStop(node, d) {
        StopAt(edges, start, universe, shouldStop, dist, heap, i);
        dist := dist[node := d];
        stoppedAt := Some(d);
        assert node in dist && dist[node] == d;
        return;
      }
      SettleKeeps(edges, start, universe, shouldStop, dist, heap, i, d, node);
      assert heap[i] in heap;
      SettleShrinks(universe, dist, node, d);
      dist := dist[node := d];
      heap := RemoveAt(heap, i) + Relax(d, edges(node));
    }
    Exhausted(edges, start, universe, shouldStop, dist);
  }

  /** Once the heap is empty, exactly the reachable vertices are settled. */
  lemma Exhausted<V(!new)>(edges: V -> seq<(V, nat)>, start: V, universe: set<V>, shouldStop: (V, nat) -> bool,
                           dist: map<V, nat>)
    requires Invariant(edges, start, universe, shouldStop, dist, [])
    ensures forall v :: v in dist <==> WeightedReachable(edges, start, v)
  {
    forall v | WeightedReachable(edges, start, v) ensures v in dist {
      var steps :| IsWeightedWalk(edges, start, steps) && WalkEnd(start, steps) == v;
      if v !in dist {
        var x := BelowFrontier(edges, start, dist, [], steps);
      }
    }
    forall v | v in dist ensures WeightedReachable(edges, start, v) {
      assert IsMinDistance(edges, start, v, dist[v]);
    }
  }

  /** Settling the least entry's vertex when the stop condition holds of
      it: every vertex nearer than it was settled before. */
  lemma StopAt<V(!new)>(edges: V -> seq<(V, nat)>, start: V, universe: set<V>, shouldStop: (V, nat) -> bool,
                        dist: map<V, nat>, heap: seq<(nat, V)>, i: nat)
    requires Invariant(edges, start, universe, shouldStop, dist, heap)
    requires i < |heap| && heap[i].1 !in dist
    requires forall x :: x in heap ==> heap[i].0 <= x.0
    ensures Settled(edges, start, dist[heap[i].1 := heap[i].0])
    ensures forall v, m: nat :: IsMinDistance(edges, start, v, m) && m < heap[i].0 ==>
      v in dist && !shouldStop(v, m)
  {
    assert forall j :: 0 <= j < |heap| ==> heap[i].0 <= heap[j].0 by {
      forall j | 0 <= j < |heap| ensures heap[i].0 <= heap[j].0 {
        assert heap[j] in heap;
      }
    }
    SettleMin(edges, start, dist, heap, i);
    BeyondStop(edges, start, dist, heap, heap[i].0, shouldStop);
  }

  /** When the search stops at distance `d`, every vertex nearer than `d`
      is already settled (and so did not satisfy the stop condition). */
  lemma BeyondStop<V(!new)>(edges: V -> seq<(V, nat)>, start: V, dist: map<V, nat>, heap: seq<(nat, V)>, d: nat,
                            shouldStop: (V, nat) -> bool)
    requires Settled(edges, start, dist) && Frontier(edges, dist, heap)
    requires start in dist || d == 0
    requires forall x :: x in heap ==> d <= x.0
    requires forall v :: v in dist ==> !shouldStop(v, dist[v])
    ensures forall v, m: nat :: IsMinDistance(edges, start, v, m) && m < d ==> v in dist && !shouldStop(v, m)
  {
    forall v, m: nat | IsMinDistance(edges, start, v, m) && m < d ensures v in dist && !shouldStop(v, m) {
      var steps :| IsWeightedWalk(edges, start, steps) && WalkEnd(start, steps) == v && WalkCost(steps) == m;
      if v !in dist {
        var x := BelowFrontier(edges, start, dist, heap, steps);
      }
      MinDistanceUnique(edges, start, v, m, dist[v]);
    }
  }

  /** `min_distances(start, edges)`: the least distance to every reachable
      vertex, and no other vertex. */
  method MinDistances<V(==,!new)>(start: V, edges: V -> seq<(V, nat)>, ghost universe: set<V>)
    returns (dist: map<V, nat>)
    requires start in universe && ClosedUnder(Unweighted(edges), universe)
    ensures forall v :: v in dist <==> WeightedReachable(edges, start, v)
    ensures forall v :: v in dist ==> IsMinDistance(edges, start, v, dist[v])
  {
    var stoppedAt;
    dist, stoppedAt := MinDistancesInner(start, edges, (v, d) => false, universe);
  }

  /** `min_distance_to(start, goal, edges)`: the least distance `m` at which
      some vertex `v` lies with `goal(v, m)`, or `None` when no reachable
      vertex satisfies the goal at its least distance. */
  method MinDistanceTo<V(==,!new)>(start: V, goal: (V, nat) -> bool, edges: V -> seq<(V, nat)>, ghost universe: set<V>)
    returns (r: Option<nat>)
    requires start in universe && ClosedUnder(Unweighted(edges), universe)
    ensures r.Some? ==> exists v :: IsMinDistance(edges, start, v, r.value) && goal(v, r.value)
    ensures r.Some? ==> forall v, m: nat :: IsMinDistance(edges, start, v, m) && goal(v, m) ==> r.value <= m
    ensures r.None? ==> forall v, m: nat :: IsMinDistance(edges, start, v, m) ==> !goal(v, m)
  {
    var dist;
    dist, r := MinDistancesInner(start, edges, goal, universe);
    if r.None? {
      forall v, m: nat | IsMinDistance(edges, start, v, m) ensures !goal(v, m) {
        var steps :| IsWeightedWalk(edges, start, steps) && WalkEnd(start, steps) == v && WalkCost(steps) == m;
        assert WeightedReachable(edges, start, v);
        MinDistanceUnique(edges, start, v, m, dist[v]);
      }
    }
  }

  /** A potential that no edge decreases by more than its cost bounds the
      cost of every walk from below. */
  lemma {:induction false} PotentialBound<V(!new)>(edges: V -> seq<(V, nat)>, pot: V -> int, from: V, steps: seq<(V, nat)>)
    requires forall u, e :: e in edges(u) ==> pot(e.0) <= pot(u) + e.1
    requires IsWeightedWalk(edges, from, steps)
    ensures pot(WalkEnd(from, steps)) <= pot(from) + WalkCost(steps)
    decreases |steps|
  {
    if steps != [] {
      var front := steps[..|steps| - 1];
      WalkPrefix(edges, from, steps, |steps| - 1);
      PotentialBound(edges, pot, from, front);
      StepAt(edges, from, steps, |steps| - 1);
    }
  }

  // A four-vertex weighted graph: A->B costs 1, B->C 2, A->C 5, C->D 1.
  function ExampleEdges(v: char): seq<(char, nat)> {
    if v == 'A' then [('B', 1), ('C', 5)]
    else if v == 'B' then [('C', 2)]
    else if v == 'C' then [('D', 1)]
    else []
  }

  function ExamplePotential(v: char): int {
    if v == 'A' then 0 else if v == 'B' then 1 else if v == 'C' then 3 else if v == 'D' then 4 else 0
  }

  /** The shortest way from A to D goes through B and C and costs 4. */
  method ExampleDistance() returns (r: Option<nat>)
    ensures r == Some(4)
  {
    var universe := {'A', 'B', 'C', 'D'};
    forall u, w | u in universe && w in Unweighted(ExampleEdges)(u) ensures w in universe {
      var es := ExampleEdges(u);
      var k :| 0 <= k < |Targets(es)| && Targets(es)[k] == w;
      assert es[k].0 in universe;
    }
    var walk := [('B', 1), ('C', 2), ('D', 1)];
    assert IsWeightedWalk(ExampleEdges, 'A', walk) by {
      assert walk[..1] == [('B', 1)] && walk[..2] == [('B', 1), ('C', 2)];
    }
    assert WalkCost(walk) == 4 by {
      assert walk[..2][..1] == walk[..1];
    }
    forall steps | IsWeightedWalk(ExampleEdges, 'A', steps) && WalkEnd('A', steps) == 'D'
      ensures 4 <= WalkCost(steps)
    {
      PotentialBound(ExampleEdges, ExamplePotential, 'A', steps);
    }
    assert IsMinDistance(ExampleEdges, 'A', 'D', 4);
    r := MinDistanceTo('A', (v, d) => v == 'D', ExampleEdges, universe);
    if r.None? {
      assert false;
    }
    ghost var v :| IsMinDistance(ExampleEdges, 'A', v, r.value) && v == 'D';
    MinDistanceUnique(ExampleEdges, 'A', 'D', r.value, 4);
  }
}
