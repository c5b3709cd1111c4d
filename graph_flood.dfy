// `flood_fill_from` in src/graph.rs: split everything reachable from a list
// of seeds into regions, one depth-first expansion per seed not yet visited.

module GraphFlood {
  import opened Base
  import opened GraphWalks
  import opened GraphRegions

  /** `flood_fill_from(starts, edges)`. The ghost `universe` is a finite set
      closed under `edges` holding every seed; the expansions stay inside it,
      which is what makes them terminate. `seeds` gives, for each region, the
      position in `starts` of the seed that opened it. */
  method FloodFillFrom<V(==,!new)>(starts: seq<V>, edges: V -> seq<V>, ghost universe: set<V>)
    returns (regions: seq<seq<V>>, ghost seeds: seq<nat>)
    requires forall k :: 0 <= k < |starts| ==> starts[k] in universe
    requires ClosedUnder(edges, universe)
    ensures |seeds| == |regions|
    ensures forall i :: 0 <= i < |regions| ==> regions[i] != [] && NoDuplicates(regions[i])
    ensures forall i :: 0 <= i < |regions| ==> seeds[i] < |starts| && regions[i][0] == starts[seeds[i]]
    ensures forall i, j :: 0 <= i < j < |regions| ==> seeds[i] < seeds[j]
    ensures forall i, j, v :: 0 <= j < i < |regions| && v in regions[i] ==> v !in regions[j]
    ensures forall i :: 0 <= i < |regions| ==> RegionIsFresh(edges, regions, i)
    ensures forall k :: 0 <= k < |starts| ==>
      (k in seeds <==> forall i :: 0 <= i < |regions| && seeds[i] < k ==> starts[k] !in regions[i])
    ensures forall v :: InSomeRegion(regions, v) <==> exists k :: 0 <= k < |starts| && Reachable(edges, starts[k], v)
  {
    regions := [];
    seeds := [];
    var visited: set<V> := {};
    for k := 0 to |starts|
      invariant visited <= universe
      invariant Filled(starts, edges, k, regions, seeds, visited)
    {
      regions, seeds, visited := NextSeed(starts, edges, universe, k, regions, seeds, visited);
    }
    FilledAll(starts, edges, regions, seeds, visited);
  }

  /** One turn of the seed loop: a seed already visited opens nothing; any
      other opens the region of what it newly reaches. */
  method NextSeed<V(==,!new)>(starts: seq<V>, edges: V -> seq<V>, ghost universe: set<V>, k: nat,
    regions: seq<seq<V>>, ghost seeds: seq<nat>, visited: set<V>)
    returns (regions': seq<seq<V>>, ghost seeds': seq<nat>, visited': set<V>)
    requires k < |starts| && starts[k] in universe && ClosedUnder(edges, universe) && visited <= universe
    requires Filled(starts, edges, k, regions, seeds, visited)
    ensures visited' <= universe
    ensures Filled(starts, edges, k + 1, regions', seeds', visited')
  {
    var start := starts[k];
    if start in visited {
      SkipSeed(starts, edges, k, regions, seeds, visited);
      return regions, seeds, visited;
    }
    var region;
    region, visited' := Expand(start, edges, universe, visited);
    if region != [] {
      regions', seeds' := regions + [region], seeds + [k];
      OpenRegion(starts, edges, k, regions, seeds, region, visited, visited');
    } else {
      assert false;
      regions', seeds' := regions, seeds;
    }
  }

  /** What the expansion loop keeps: the region so far is new, duplicate
      free and reachable from `start`, as is the queue, and every successor
      of a region vertex is visited or queued. */
  ghost predicate ExpandInv<V(!new)>(start: V, edges: V -> seq<V>, universe: set<V>, visited0: set<V>,
    visited: set<V>, region: seq<V>, queue: seq<V>)
  {
    && visited <= universe
    && (forall i :: 0 <= i < |queue| ==> queue[i] in universe)
    && (forall v :: v in visited <==> v in visited0 || v in region)
    && (forall v :: v in region ==> v !in visited0)
    && NoDuplicates(region)
    && (forall v :: v in region ==> Reachable(edges, start, v))
    && (forall i :: 0 <= i < |queue| ==> Reachable(edges, start, queue[i]))
    && (forall u, w :: u in region && w in edges(u) ==> w in visited || w in queue)
    && ((region != [] && region[0] == start) || (region == [] && queue == [start]))
  }

  /** Popping a visited vertex keeps the invariant. */
  lemma ExpandPop<V(!new)>(start: V, edges: V -> seq<V>, universe: set<V>, visited0: set<V>,
    visited: set<V>, region: seq<V>, queue: seq<V>)
    requires start !in visited0 && ExpandInv(start, edges, universe, visited0, visited, region, queue)
    requires queue != [] && queue[|queue| - 1] in visited
    ensures ExpandInv(start, edges, universe, visited0, visited, region, queue[..|queue| - 1])
  {
    var rest := queue[..|queue| - 1];
    assert forall i :: 0 <= i < |rest| ==> rest[i] == queue[i];
    forall u, w | u in region && w in edges(u) ensures w in visited || w in rest {
      if w !in visited {
        var i :| 0 <= i < |queue| && queue[i] == w;
        assert i < |rest|;
      }
    }
  }

  /** Popping a new vertex, adding it to the region and queueing its
      successors keeps the invariant. */
  lemma ExpandPush<V(!new)>(start: V, edges: V -> seq<V>, universe: set<V>, visited0: set<V>,
    visited: set<V>, region: seq<V>, queue: seq<V>)
    requires ClosedUnder(edges, universe)
    requires ExpandInv(start, edges, universe, visited0, visited, region, queue)
    requires queue != [] && queue[|queue| - 1] !in visited
    ensures var node := queue[|queue| - 1];
      ExpandInv(start, edges, universe, visited0, visited + {node}, region + [node], queue[..|queue| - 1] + edges(node))
  {
    var node := queue[|queue| - 1];
    var rest := queue[..|queue| - 1];
    var next := edges(node);
    var queue' := rest + next;
    var region' := region + [node];
    forall i | 0 <= i < |next| ensures next[i] in universe && Reachable(edges, start, next[i]) {
      ReachableStep(edges, start, node, next[i]);
    }
    assert forall i :: 0 <= i < |queue'| ==> queue'[i] == if i < |rest| then rest[i] else next[i - |rest|];
    forall u, w | u in region' && w in edges(u) ensures w in visited + {node} || w in queue' {
      if u == node {
        var i :| 0 <= i < |next| && next[i] == w;
        assert queue'[|rest| + i] == w;
      } else if w !in visited + {node} {
        var i :| 0 <= i < |queue| && queue[i] == w;
        assert i < |rest| && queue'[i] == w;
      }
    }
  }

  /** The inner `while let Some(node) = queue.pop()` loop of one seed:
      every vertex reachable from `start` and not yet visited joins the new
      region, in depth-first order. */
  method Expand<V(==,!new)>(start: V, edges: V -> seq<V>, ghost universe: set<V>, visited0: set<V>)
    returns (region: seq<V>, visited: set<V>)
    requires start in universe && visited0 <= universe && start !in visited0
    requires ClosedUnder(edges, universe) && ClosedUnder(edges, visited0)
    ensures visited <= universe && ClosedUnder(edges, visited)
    ensures region != [] && region[0] == start && NoDuplicates(region)
    ensures forall v :: v in region <==> Reachable(edges, start, v) && v !in visited0
    ensures forall v :: v in visited <==> v in visited0 || v in region
  {
    var queue := [start];
    region := [];
    visited := visited0;
    ReachableRefl(edges, start);
    while queue != []
      invariant ExpandInv(start, edges, universe, visited0, visited, region, queue)
      decreases |universe - visited|, |queue|
    {
      var node := queue[|queue| - 1];
      if node in visited {
        ExpandPop(start, edges, universe, visited0, visited, region, queue);
        queue := queue[..|queue| - 1];
      } else {
        VisitShrinks(universe, visited, node);
        ExpandPush(start, edges, universe, visited0, visited, region, queue);
        visited, region, queue := visited + {node}, region + [node], queue[..|queue| - 1] + edges(node);
      }
    }
    forall v | Reachable(edges, start, v) && v !in visited0 ensures v in region {
      ClosedHoldsReachable(edges, visited, start, v);
    }
  }
}
