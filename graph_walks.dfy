// Walks through a caller-supplied edge function, shared by the searches of
// src/graph.rs. An unweighted edge function maps a vertex to the list of
// its successors; a weighted one to (successor, cost) pairs.

module GraphWalks {

  /** Every vertex of `p` after the first is a successor of the one before. */
  ghost predicate IsWalk<V(!new)>(edges: V -> seq<V>, p: seq<V>) {
    forall i :: 0 <= i < |p| - 1 ==> p[i + 1] in edges(p[i])
  }

  /** A walk from `from` to `to` (possibly the one-vertex walk). */
  ghost predicate IsWalkBetween<V(!new)>(edges: V -> seq<V>, p: seq<V>, from: V, to: V) {
    |p| >= 1 && p[0] == from && p[|p| - 1] == to && IsWalk(edges, p)
  }

  ghost predicate Reachable<V(!new)>(edges: V -> seq<V>, from: V, to: V) {
    exists p :: IsWalkBetween(edges, p, from, to)
  }

  /** `s` contains every successor of each of its members. */
  ghost predicate ClosedUnder<V(!new)>(edges: V -> seq<V>, s: set<V>) {
    forall u, w :: u in s && w in edges(u) ==> w in s
  }

  lemma ReachableRefl<V(!new)>(edges: V -> seq<V>, v: V)
    ensures Reachable(edges, v, v)
  {
    assert IsWalkBetween(edges, [v], v, v);
  }

  /** Reachability extends along one more edge. */
  lemma {:induction false} ReachableStep<V(!new)>(edges: V -> seq<V>, from: V, u: V, w: V)
    requires Reachable(edges, from, u) && w in edges(u)
    ensures Reachable(edges, from, w)
  {
    var p :| IsWalkBetween(edges, p, from, u);
    var q := p + [w];
    assert forall i :: 0 <= i < |q| - 1 ==> q[i + 1] in edges(q[i]) by {
      forall i | 0 <= i < |q| - 1 ensures q[i + 1] in edges(q[i]) {
        if i < |p| - 1 {
          assert q[i] == p[i] && q[i + 1] == p[i + 1];
        }
      }
    }
    assert IsWalkBetween(edges, q, from, w);
  }

  /** A set that holds `from` and is closed under the edges holds every
      vertex reachable from `from`. */
  lemma {:induction false} ClosedHoldsReachable<V(!new)>(edges: V -> seq<V>, s: set<V>, from: V, to: V)
    requires from in s && ClosedUnder(edges, s)
    requires Reachable(edges, from, to)
    ensures to in s
  {
    var p :| IsWalkBetween(edges, p, from, to);
    var i := 0;
    while i < |p| - 1
      invariant 0 <= i <= |p| - 1
      invariant p[i] in s
    {
      assert p[i + 1] in edges(p[i]);
      i := i + 1;
    }
  }

  /** Reachability is transitive. */
  lemma {:induction false} ReachableTrans<V(!new)>(edges: V -> seq<V>, a: V, b: V, c: V)
    requires Reachable(edges, a, b) && Reachable(edges, b, c)
    ensures Reachable(edges, a, c)
  {
    var p :| IsWalkBetween(edges, p, a, b);
    var q :| IsWalkBetween(edges, q, b, c);
    var r := p + q[1..];
    forall i | 0 <= i < |r| - 1 ensures r[i + 1] in edges(r[i]) {
      if i < |p| - 1 {
        assert r[i] == p[i] && r[i + 1] == p[i + 1];
      } else {
        assert r[i] == q[i - |p| + 1] && r[i + 1] == q[i - |p| + 2];
      }
    }
    assert IsWalkBetween(edges, r, a, c);
  }

  /** The unweighted view of a weighted edge function. */
  function Targets<V(!new)>(es: seq<(V, nat)>): (r: seq<V>)
    ensures |r| == |es|
    ensures forall i :: 0 <= i < |es| ==> r[i] == es[i].0
  {
    seq(|es|, i requires 0 <= i < |es| => es[i].0)
  }

  function Unweighted<V(!new)>(edges: V -> seq<(V, nat)>): V -> seq<V> {
    v => Targets(edges(v))
  }

  // ---- Weighted walks ----

  /** A weighted walk from `from` is the sequence of edges it takes:
      each step is an entry of the edge list of the vertex reached so far. */
  function WalkEnd<V(!new)>(from: V, steps: seq<(V, nat)>): V {
    if steps == [] then from else steps[|steps| - 1].0
  }

  ghost predicate IsWeightedWalk<V(!new)>(edges: V -> seq<(V, nat)>, from: V, steps: seq<(V, nat)>) {
    forall i :: 0 <= i < |steps| ==> StepFrom(edges, from, steps, i)
  }

  /** Step `i` of `steps` is an edge out of the vertex the earlier steps
      reach. */
  ghost predicate StepFrom<V(!new)>(edges: V -> seq<(V, nat)>, from: V, steps: seq<(V, nat)>, i: nat)
    requires i < |steps|
  {
    steps[i] in edges(WalkEnd(from, steps[..i]))
  }

  function WalkCost<V(!new)>(steps: seq<(V, nat)>): nat {
    if steps == [] then 0 else WalkCost(steps[..|steps| - 1]) + steps[|steps| - 1].1
  }

  /** Some weighted walk from `from` ends at `to` and costs `d`. */
  ghost predicate HasWalkOfCost<V(!new)>(edges: V -> seq<(V, nat)>, from: V, to: V, d: nat) {
    exists steps :: IsWeightedWalk(edges, from, steps) && WalkEnd(from, steps) == to && WalkCost(steps) == d
  }

  ghost predicate WeightedReachable<V(!new)>(edges: V -> seq<(V, nat)>, from: V, to: V) {
    exists steps :: IsWeightedWalk(edges, from, steps) && WalkEnd(from, steps) == to
  }

  /** `d` is the least cost of a weighted walk from `from` to `to`. */
  ghost predicate IsMinDistance<V(!new)>(edges: V -> seq<(V, nat)>, from: V, to: V, d: nat) {
    && HasWalkOfCost(edges, from, to, d)
    && forall steps :: IsWeightedWalk(edges, from, steps) && WalkEnd(from, steps) == to ==> d <= WalkCost(steps)
  }

  lemma MinDistanceUnique<V(!new)>(edges: V -> seq<(V, nat)>, from: V, to: V, d1: nat, d2: nat)
    requires IsMinDistance(edges, from, to, d1) && IsMinDistance(edges, from, to, d2)
    ensures d1 == d2
  {
    var s1 :| IsWeightedWalk(edges, from, s1) && WalkEnd(from, s1) == to && WalkCost(s1) == d1;
    var s2 :| IsWeightedWalk(edges, from, s2) && WalkEnd(from, s2) == to && WalkCost(s2) == d2;
  }

  lemma WalkPrefix<V(!new)>(edges: V -> seq<(V, nat)>, from: V, steps: seq<(V, nat)>, k: nat)
    requires IsWeightedWalk(edges, from, steps) && k <= |steps|
    ensures IsWeightedWalk(edges, from, steps[..k])
  {
    forall i | 0 <= i < k ensures StepFrom(edges, from, steps[..k], i) {
      assert steps[..k][..i] == steps[..i];
      assert StepFrom(edges, from, steps, i);
    }
  }

  /** Each step of a walk is an edge out of where the earlier steps end. */
  lemma StepAt<V(!new)>(edges: V -> seq<(V, nat)>, from: V, steps: seq<(V, nat)>, k: nat)
    requires IsWeightedWalk(edges, from, steps) && k < |steps|
    ensures steps[k] in edges(WalkEnd(from, steps[..k]))
  {
    assert StepFrom(edges, from, steps, k);
  }

  lemma WalkExtend<V(!new)>(edges: V -> seq<(V, nat)>, from: V, steps: seq<(V, nat)>, e: (V, nat))
    requires IsWeightedWalk(edges, from, steps) && e in edges(WalkEnd(from, steps))
    ensures IsWeightedWalk(edges, from, steps + [e])
    ensures WalkEnd(from, steps + [e]) == e.0
    ensures WalkCost(steps + [e]) == WalkCost(steps) + e.1
  {
    var s := steps + [e];
    assert s[..|s| - 1] == steps;
    forall i | 0 <= i < |s| ensures StepFrom(edges, from, s, i) {
      if i < |steps| {
        assert s[..i] == steps[..i];
        assert StepFrom(edges, from, steps, i);
      }
    }
  }

  /** Costs only grow along a walk. */
  lemma {:induction false} WalkCostPrefix<V(!new)>(steps: seq<(V, nat)>, k: nat)
    requires k < |steps|
    ensures WalkCost(steps[..k]) + steps[k].1 <= WalkCost(steps)
  {
    if k < |steps| - 1 {
      WalkCostPrefix(steps[..|steps| - 1], k);
      assert steps[..|steps| - 1][..k] == steps[..k];
    } else {
      assert steps[..|steps| - 1] == steps[..k];
    }
  }

  /** A walk from inside `s` to outside `s` has a first step that leaves `s`. */
  lemma {:induction false} FirstExit<V(!new)>(edges: V -> seq<(V, nat)>, from: V, steps: seq<(V, nat)>, s: set<V>)
    returns (k: nat)
    requires from in s && WalkEnd(from, steps) !in s
    ensures k < |steps|
    ensures WalkEnd(from, steps[..k]) in s && steps[k].0 !in s
  {
    k := 0;
    while steps[k].0 in s
      invariant k < |steps|
      invariant WalkEnd(from, steps[..k]) in s
      decreases |steps| - k
    {
      assert steps[..k + 1][k] == steps[k];
      k := k + 1;
    }
  }

  lemma WeightedReachableUnweighted<V(!new)>(edges: V -> seq<(V, nat)>, from: V, steps: seq<(V, nat)>)
    requires IsWeightedWalk(edges, from, steps)
    ensures Reachable(Unweighted(edges), from, WalkEnd(from, steps))
    decreases |steps|
  {
    if steps == [] {
      ReachableRefl(Unweighted(edges), from);
    } else {
      var front := steps[..|steps| - 1];
      WalkPrefix(edges, from, steps, |steps| - 1);
      WeightedReachableUnweighted(edges, from, front);
      var e := steps[|steps| - 1];
      assert steps[..|steps| - 1] == front;
      StepAt(edges, from, steps, |steps| - 1);
      var i :| 0 <= i < |edges(WalkEnd(from, front))| && edges(WalkEnd(from, front))[i] == e;
      assert e.0 in Unweighted(edges)(WalkEnd(from, front));
      ReachableStep(Unweighted(edges), from, WalkEnd(from, front), e.0);
    }
  }
}
