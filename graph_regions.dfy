// The loop invariant of `flood_fill_from` in src/graph.rs and the steps
// that keep it: the regions found so far partition what the seeds handled
// so far reach.

module GraphRegions {
  import opened Base
  import opened GraphWalks

  /** The vertices of the regions found so far. */
  ghost predicate InSomeRegion<V>(regions: seq<seq<V>>, v: V) {
    exists i :: 0 <= i < |regions| && v in regions[i]
  }

  /** Region `i` holds exactly what its head reaches and no earlier region
      holds. */
  ghost predicate RegionIsFresh<V(!new)>(edges: V -> seq<V>, regions: seq<seq<V>>, i: nat)
    requires i < |regions| && regions[i] != []
  {
    forall v :: v in regions[i] <==> Reachable(edges, regions[i][0], v) && forall j :: 0 <= j < i ==> v !in regions[j]
  }

  /** The regions partition `visited`: each one is duplicate-free, disjoint
      from the earlier ones and fresh; `visited` is closed under the edges. */
  ghost predicate Partitioned<V(!new)>(edges: V -> seq<V>, regions: seq<seq<V>>, visited: set<V>) {
    && ClosedUnder(edges, visited)
    && (forall v :: v in visited <==> InSomeRegion(regions, v))
    && (forall i :: 0 <= i < |regions| ==> regions[i] != [] && NoDuplicates(regions[i]))
    && (forall i, j, v :: 0 <= j < i < |regions| && v in regions[i] ==> v !in regions[j])
    && (forall i :: 0 <= i < |regions| ==> RegionIsFresh(edges, regions, i))
  }

  /** Region `i` was opened by seed `seeds[i]`, in increasing order, and of
      the first `k` seeds exactly those not inside an earlier region opened
      one. */
  ghost predicate SeedsOpen<V>(starts: seq<V>, k: nat, regions: seq<seq<V>>, seeds: seq<nat>)
    requires k <= |starts|
  {
    && |seeds| == |regions|
    && (forall i :: 0 <= i < |regions| ==> seeds[i] < k && regions[i] != [] && regions[i][0] == starts[seeds[i]])
    && (forall i, j :: 0 <= i < j < |regions| ==> seeds[i] < seeds[j])
    && (forall k' :: 0 <= k' < k ==>
         (k' in seeds <==> forall i :: 0 <= i < |regions| && seeds[i] < k' ==> starts[k'] !in regions[i]))
  }

  /** `visited` is what the first `k` seeds reach. */
  ghost predicate Covers<V(!new)>(starts: seq<V>, edges: V -> seq<V>, k: nat, visited: set<V>)
    requires k <= |starts|
  {
    forall v :: v in visited <==> exists k' :: 0 <= k' < k && Reachable(edges, starts[k'], v)
  }

  /** What the seed loop keeps after handling the first `k` seeds. */
  ghost predicate Filled<V(!new)>(starts: seq<V>, edges: V -> seq<V>, k: nat, regions: seq<seq<V>>, seeds: seq<nat>, visited: set<V>)
    requires k <= |starts|
  {
    Partitioned(edges, regions, visited) && SeedsOpen(starts, k, regions, seeds) && Covers(starts, edges, k, visited)
  }

  /** A seed already visited opens no region. */
  lemma SkipSeed<V(!new)>(starts: seq<V>, edges: V -> seq<V>, k: nat, regions: seq<seq<V>>, seeds: seq<nat>, visited: set<V>)
    requires k < |starts| && starts[k] in visited
    requires Filled(starts, edges, k, regions, seeds, visited)
    ensures Filled(starts, edges, k + 1, regions, seeds, visited)
  {
    SkipSeedOpens(starts, k, regions, seeds, visited);
    SkipSeedCovers(starts, edges, k, visited);
  }

  lemma SkipSeedOpens<V>(starts: seq<V>, k: nat, regions: seq<seq<V>>, seeds: seq<nat>, visited: set<V>)
    requires k < |starts| && starts[k] in visited
    requires forall v :: v in visited <==> InSomeRegion(regions, v)
    requires SeedsOpen(starts, k, regions, seeds)
    ensures SeedsOpen(starts, k + 1, regions, seeds)
  {
    var i :| 0 <= i < |regions| && starts[k] in regions[i];
    assert seeds[i] < k && k !in seeds;
  }

  lemma SkipSeedCovers<V(!new)>(starts: seq<V>, edges: V -> seq<V>, k: nat, visited: set<V>)
    requires k < |starts| && starts[k] in visited
    requires ClosedUnder(edges, visited)
    requires Covers(starts, edges, k, visited)
    ensures Covers(starts, edges, k + 1, visited)
  {
    forall v | Reachable(edges, starts[k], v) ensures v in visited {
      ClosedHoldsReachable(edges, visited, starts[k], v);
    }
  }

  /** A seed not yet visited opens the region of what it newly reaches. */
  lemma OpenRegion<V(!new)>(starts: seq<V>, edges: V -> seq<V>, k: nat, regions0: seq<seq<V>>, seeds0: seq<nat>,
                            region: seq<V>, visited0: set<V>, visited: set<V>)
    requires k < |starts| && starts[k] !in visited0
    requires Filled(starts, edges, k, regions0, seeds0, visited0)
    requires ClosedUnder(edges, visited)
    requires region != [] && region[0] == starts[k] && NoDuplicates(region)
    requires forall v :: v in region <==> Reachable(edges, starts[k], v) && v !in visited0
    requires forall v :: v in visited <==> v in visited0 || v in region
    ensures Filled(starts, edges, k + 1, regions0 + [region], seeds0 + [k], visited)
  {
    AppendRegion(edges, regions0, region, visited0, visited);
    OpenRegionOpens(starts, k, regions0, seeds0, region, visited0);
    OpenRegionCovers(starts, edges, k, region, visited0, visited);
  }

  lemma OpenRegionOpens<V>(starts: seq<V>, k: nat, regions0: seq<seq<V>>, seeds0: seq<nat>, region: seq<V>, visited0: set<V>)
    requires k < |starts| && starts[k] !in visited0
    requires forall v :: v in visited0 <==> InSomeRegion(regions0, v)
    requires SeedsOpen(starts, k, regions0, seeds0)
    requires region != [] && region[0] == starts[k]
    ensures SeedsOpen(starts, k + 1, regions0 + [region], seeds0 + [k])
  {
    var regions, seeds := regions0 + [region], seeds0 + [k];
    assert forall i :: 0 <= i < |regions0| ==> regions[i] == regions0[i] && seeds[i] < k;
    forall k' | 0 <= k' < k + 1
      ensures k' in seeds <==> forall i :: 0 <= i < |regions| && seeds[i] < k' ==> starts[k'] !in regions[i]
    {
      if k' == k {
        assert !InSomeRegion(regions0, starts[k]);
      }
    }
  }

  lemma OpenRegionCovers<V(!new)>(starts: seq<V>, edges: V -> seq<V>, k: nat, region: seq<V>, visited0: set<V>, visited: set<V>)
    requires k < |starts|
    requires Covers(starts, edges, k, visited0)
    requires forall v :: v in region <==> Reachable(edges, starts[k], v) && v !in visited0
    requires forall v :: v in visited <==> v in visited0 || v in region
    ensures Covers(starts, edges, k + 1, visited)
  {
    forall v ensures v in visited <==> exists k' :: 0 <= k' < k + 1 && Reachable(edges, starts[k'], v) {
      if v in visited && v !in visited0 {
        assert Reachable(edges, starts[k], v);
      }
    }
  }

  /** Appending a region that holds exactly what its head reaches outside
      the earlier regions keeps every region fresh. */
  lemma AppendRegion<V(!new)>(edges: V -> seq<V>, regions: seq<seq<V>>, region: seq<V>, visited: set<V>, visited': set<V>)
    requires Partitioned(edges, regions, visited)
    requires region != [] && NoDuplicates(region)
    requires forall v :: v in region <==> Reachable(edges, region[0], v) && v !in visited
    requires ClosedUnder(edges, visited')
    requires forall v :: v in visited' <==> v in visited || v in region
    ensures Partitioned(edges, regions + [region], visited')
  {
    var all := regions + [region];
    forall i | 0 <= i < |all| ensures RegionIsFresh(edges, all, i) {
      if i < |regions| {
        assert forall j :: 0 <= j <= i ==> all[j] == regions[j];
        assert RegionIsFresh(edges, regions, i);
      } else {
        assert all[i] == region;
        forall v ensures v in region <==> Reachable(edges, region[0], v) && forall j :: 0 <= j < i ==> v !in all[j] {
          if v in visited {
            var j :| 0 <= j < |regions| && v in regions[j];
            assert all[j] == regions[j];
          }
          if exists j :: 0 <= j < i && v in all[j] {
            var j :| 0 <= j < i && v in all[j];
            assert all[j] == regions[j];
            assert InSomeRegion(regions, v);
          }
        }
      }
    }
    forall v ensures InSomeRegion(all, v) <==> v in visited || v in region {
      if InSomeRegion(all, v) {
        var i :| 0 <= i < |all| && v in all[i];
        if i < |regions| {
          assert all[i] == regions[i];
          assert InSomeRegion(regions, v);
        }
      }
      if v in visited {
        var i :| 0 <= i < |regions| && v in regions[i];
        assert all[i] == regions[i];
      }
      if v in region {
        assert all[|regions|] == region;
      }
    }
    forall i, j, v | 0 <= j < i < |all| && v in all[i] ensures v !in all[j] {
      assert all[j] == regions[j];
      if i < |regions| {
        assert all[i] == regions[i];
      } else {
        assert all[i] == region && v !in visited;
      }
    }
    assert forall i :: 0 <= i < |all| ==> all[i] != [] && NoDuplicates(all[i]) by {
      assert forall i :: 0 <= i < |regions| ==> all[i] == regions[i];
    }
  }

  /** Once every seed is handled, the loop's invariant gives the regions'
      description. */
  lemma FilledAll<V(!new)>(starts: seq<V>, edges: V -> seq<V>, regions: seq<seq<V>>, seeds: seq<nat>, visited: set<V>)
    requires Filled(starts, edges, |starts|, regions, seeds, visited)
    ensures |seeds| == |regions|
    ensures forall i :: 0 <= i < |regions| ==> regions[i] != [] && NoDuplicates(regions[i])
    ensures forall i :: 0 <= i < |regions| ==> seeds[i] < |starts| && regions[i][0] == starts[seeds[i]]
    ensures forall i, j :: 0 <= i < j < |regions| ==> seeds[i] < seeds[j]
    ensures forall i, j, v :: 0 <= j < i < |regions| && v in regions[i] ==> v !in regions[j]
    ensures forall i :: 0 <= i < |regions| ==> RegionIsFresh(edges, regions, i)
    ensures forall k :: 0 <= k < |starts| ==>
      (k in seeds <==> forall i :: 0 <= i < |regions| && seeds[i] < k ==> starts[k] !in regions[i])
    ensures forall v :: InSomeRegion(regions, v) <==> exists k :: 0 <= k < |starts| && Reachable(edges, starts[k], v)
  {
  }
}
