// `find` in src/graph.rs: a lazy depth-first reachability search that yields
// the vertices satisfying a predicate, guarded by a visited set so that no
// vertex is expanded twice.

module GraphFind {
  import opened Base
  import opened GraphWalks

  /** The search state's invariant, on values: everything lies in
      `universe`, every visited or queued vertex is reachable from
      `start`, every successor of a visited vertex is visited or queued,
      and the logs list the visited vertices (and the matching ones) once
      each. */
  ghost predicate SearchInv<V(!new)>(start: V, edges: V -> seq<V>, matches: V -> bool, universe: set<V>,
    visited: set<V>, queue: seq<V>, expanded: seq<V>, yielded: seq<V>)
  {
    && start in universe && ClosedUnder(edges, universe)
    && visited <= universe
    && (forall i :: 0 <= i < |queue| ==> queue[i] in universe)
    && (forall v :: v in visited ==> Reachable(edges, start, v))
    && (forall i :: 0 <= i < |queue| ==> Reachable(edges, start, queue[i]))
    && (forall u, w :: u in visited && w in edges(u) ==> w in visited || w in queue)
    && (start in visited || (visited == {} && queue == [start]))
    && NoDuplicates(expanded) && (forall v :: v in expanded <==> v in visited)
    && NoDuplicates(yielded) && (forall v :: v in yielded <==> v in visited && matches(v))
  }

  /** Popping a vertex that was already visited keeps the invariant. */
  lemma PopKeeps<V(!new)>(start: V, edges: V -> seq<V>, matches: V -> bool, universe: set<V>,
    visited: set<V>, queue: seq<V>, expanded: seq<V>, yielded: seq<V>)
    requires SearchInv(start, edges, matches, universe, visited, queue, expanded, yielded)
    requires queue != [] && queue[|queue| - 1] in visited
    ensures SearchInv(start, edges, matches, universe, visited, queue[..|queue| - 1], expanded, yielded)
  {
    var rest := queue[..|queue| - 1];
    assert forall i :: 0 <= i < |rest| ==> rest[i] == queue[i];
    forall u, w | u in visited && w in edges(u) ensures w in visited || w in rest {
      if w !in visited {
        var i :| 0 <= i < |queue| && queue[i] == w;
        assert i < |rest|;
      }
    }
  }

  /** Popping a new vertex, marking it and queueing its successors keeps
      the invariant. */
  lemma ExpandKeeps<V(!new)>(start: V, edges: V -> seq<V>, matches: V -> bool, universe: set<V>,
    visited: set<V>, queue: seq<V>, expanded: seq<V>, yielded: seq<V>)
    requires SearchInv(start, edges, matches, universe, visited, queue, expanded, yielded)
    requires queue != [] && queue[|queue| - 1] !in visited
    ensures var node := queue[|queue| - 1];
      SearchInv(start, edges, matches, universe, visited + {node}, queue[..|queue| - 1] + edges(node),
        expanded + [node], if matches(node) then yielded + [node] else yielded)
  {
    var node := queue[|queue| - 1];
    var rest := queue[..|queue| - 1];
    var next := edges(node);
    var queue' := rest + next;
    forall i | 0 <= i < |next| ensures next[i] in universe && Reachable(edges, start, next[i]) {
      ReachableStep(edges, start, node, next[i]);
    }
    assert forall i :: 0 <= i < |queue'| ==> queue'[i] == if i < |rest| then rest[i] else next[i - |rest|];
    forall u, w | u in visited + {node} && w in edges(u) ensures w in visited + {node} || w in queue' {
      if u == node {
        var i :| 0 <= i < |next| && next[i] == w;
        assert queue'[|rest| + i] == w;
      } else if w !in visited + {node} {
        var i :| 0 <= i < |queue| && queue[i] == w;
        assert i < |rest| && queue'[i] == w;
      }
    }
  }

  /** A log extended by vertices none of which matches keeps its old entries
      in front and has no matching entry after them. */
  lemma LogExtends<V>(log: seq<V>, added: seq<V>, matches: V -> bool)
    requires forall i :: 0 <= i < |added| ==> !matches(added[i])
    ensures |log| <= |log + added| && (log + added)[..|log|] == log
    ensures forall i :: |log| <= i < |log + added| ==> !matches((log + added)[i])
  {
  }

  /** Appending one more non-matching vertex keeps `added` free of matches
      and the log in the same order. */
  lemma LogAppend<V>(log: seq<V>, added: seq<V>, node: V, matches: V -> bool)
    requires forall i :: 0 <= i < |added| ==> !matches(added[i])
    requires !matches(node)
    ensures forall i :: 0 <= i < |added + [node]| ==> !matches((added + [node])[i])
    ensures log + added + [node] == log + (added + [node])
  {
  }

  /** The same log, extended once more by `node`, ends with `node`. */
  lemma LogEndsWith<V>(log: seq<V>, added: seq<V>, node: V, matches: V -> bool)
    requires forall i :: 0 <= i < |added| ==> !matches(added[i])
    ensures var all := log + added + [node];
      |log| < |all| && all[..|log|] == log && all[|all| - 1] == node
      && forall i :: |log| <= i < |all| - 1 ==> !matches(all[i])
  {
    LogExtends(log, added, matches);
    assert (log + added + [node])[..|log + added|] == log + added;
  }

  /** The iterator that `find` returns, as a cursor: `visited` and `queue` are
      the state its closure owns, `Next` is one pull.
      The ghost `universe` is a finite set of vertices closed under `edges`
      that holds `start`; the search terminates because it never leaves it.
      `expanded` logs the calls to `edges` and `yielded` the pulled vertices. */
  class Find<V(==,!new)> {
    const start: V
    const edges: V -> seq<V>
    const matches: V -> bool
    ghost const universe: set<V>
    var visited: set<V>
    var queue: seq<V>
    ghost var expanded: seq<V>
    ghost var yielded: seq<V>

    ghost predicate Valid()
      reads this
    {
      SearchInv(start, edges, matches, universe, visited, queue, expanded, yielded)
    }

    /** `find(start, edges, predicate)`: nothing visited, `start` queued. */
    constructor (start: V, edges: V -> seq<V>, matches: V -> bool, ghost universe: set<V>)
      requires start in universe && ClosedUnder(edges, universe)
      ensures Valid()
      ensures this.start == start && this.edges == edges && this.matches == matches
      ensures this.universe == universe
      ensures visited == {} && queue == [start] && expanded == [] && yielded == []
    {
      this.start := start;
      this.edges := edges;
      this.matches := matches;
      this.universe := universe;
      visited := {};
      queue := [start];
      expanded := [];
      yielded := [];
      new;
      ReachableRefl(edges, start);
    }

    /** One turn of the `while let Some(node) = queue.pop()` loop: pop the
        last queued vertex; unless already visited, mark it and push all of
        its successors at the back. */
    method Step() returns (node: V, isNew: bool)
      requires Valid() && queue != []
      modifies this
      ensures Valid()
      ensures node == old(queue[|queue| - 1])
      ensures isNew <==> node !in old(visited)
      ensures visited == old(visited) + {node}
      ensures queue == old(queue[..|queue| - 1]) + (if isNew then edges(node) else [])
      ensures expanded == old(expanded) + (if isNew then [node] else [])
      ensures yielded == old(yielded) + (if isNew && matches(node) then [node] else [])
      ensures isNew ==> |universe - visited| < |universe - old(visited)|
      ensures !isNew ==> visited == old(visited)
    {
      node := queue[|queue| - 1];
      if node in visited {
        PopKeeps(start, edges, matches, universe, visited, queue, expanded, yielded);
        Commit(visited, queue[..|queue| - 1], expanded, yielded);
        isNew := false;
        return;
      }
      isNew := true;
      var next, found := edges(node), matches(node);
      VisitShrinks(universe, visited, node);
      ExpandKeeps(start, edges, matches, universe, visited, queue, expanded, yielded);
      Commit(visited + {node}, queue[..|queue| - 1] + next, expanded + [node], if found then yielded + [node] else yielded);
    }

    /** Installs a new search state that keeps the invariant. */
    method Commit(visited': set<V>, queue': seq<V>, ghost expanded': seq<V>, ghost yielded': seq<V>)
      requires SearchInv(start, edges, matches, universe, visited', queue', expanded', yielded')
      modifies this
      ensures Valid()
      ensures visited == visited' && queue == queue' && expanded == expanded' && yielded == yielded'
    {
      visited, queue, expanded, yielded := visited', queue', expanded', yielded';
    }

    /** Once the queue is empty, the visited set is exactly the set of
        vertices reachable from `start`. */
    lemma Exhausted()
      requires Valid() && queue == []
      ensures forall v :: v in visited <==> Reachable(edges, start, v)
    {
      forall v | Reachable(edges, start, v) ensures v in visited {
        ClosedHoldsReachable(edges, visited, start, v);
      }
    }

    /** The `while let` loop of one pull: pops until a new matching vertex
        is expanded or the queue runs out. `passed` lists the vertices it
        expands without yielding them, in the order it pops them. */
    method Search() returns (r: Option<V>, ghost passed: seq<V>)
      requires Valid()
      modifies this
      ensures Valid()
      ensures old(visited) <= visited
      ensures expanded == old(expanded) + passed + (if r.Some? then [r.value] else [])
      ensures forall i :: 0 <= i < |passed| ==> !matches(passed[i])
      ensures r.Some? ==> matches(r.value) && r.value !in old(visited) && r.value !in old(yielded)
      ensures r.Some? ==> yielded == old(yielded) + [r.value]
      ensures r.None? ==> queue == [] && yielded == old(yielded)
    {
      passed := [];
      while queue != []
        invariant Valid()
        invariant old(visited) <= visited
        invariant yielded == old(yielded)
        invariant expanded == old(expanded) + passed
        invariant forall i :: 0 <= i < |passed| ==> !matches(passed[i])
        decreases |universe - visited|, |queue|
      {
        ghost var logged := expanded;
        var node, isNew := Step();
        if isNew {
          if matches(node) {
            return Some(node), passed;
          }
          LogAppend(old(expanded), passed, node, matches);
          passed := passed + [node];
        } else {
          assert expanded == logged;
        }
      }
      return None, passed;
    }

    /** One pull of the iterator: the next vertex, in depth-first order, that
        satisfies the predicate and was not seen before; `None` only once the
        queue is empty, and then every reachable matching vertex has been
        yielded exactly once. The vertices the pull expands, in the order
        `Step` pops them, extend `expanded`; the vertex yielded is the last
        of them and no earlier one matches. */
    method Next() returns (r: Option<V>)
      requires Valid()
      modifies this
      ensures Valid()
      ensures old(visited) <= visited
      ensures |old(expanded)| <= |expanded| && expanded[..|old(expanded)|] == old(expanded)
      ensures forall i :: |old(expanded)| <= i < |expanded| && (r.None? || i < |expanded| - 1) ==> !matches(expanded[i])
      ensures r.Some? ==> |old(expanded)| < |expanded| && expanded[|expanded| - 1] == r.value
      ensures r.Some? ==> matches(r.value) && r.value !in old(visited) && r.value !in old(yielded)
      ensures r.Some? ==> yielded == old(yielded) + [r.value]
      ensures r.None? ==> queue == []
      ensures r.None? ==> yielded == old(yielded)
      ensures r.None? ==> forall v :: v in yielded <==> Reachable(edges, start, v) && matches(v)
    {
      ghost var before := expanded;
      ghost var passed;
      r, passed := Search();
      if r.Some? {
        LogEndsWith(before, passed, r.value, matches);
      } else {
        LogExtends(before, passed, matches);
        Exhausted();
      }
    }
  }

  // The four-vertex graph used in the examples: A->B, B->C, A->C, C->D.
  function ExampleEdges(v: char): seq<char> {
    if v == 'A' then ['B', 'C'] else if v == 'B' then ['C'] else if v == 'C' then ['D'] else []
  }

  /** Searching the example graph from A for C yields C and then nothing. */
  method ExampleFind() returns (first: Option<char>, second: Option<char>)
    ensures first == Some('C') && second == None
  {
    var universe := {'A', 'B', 'C', 'D'};
    var f := new Find('A', ExampleEdges, v => v == 'C', universe);
    assert IsWalkBetween(ExampleEdges, ['A', 'C'], 'A', 'C');
    assert f.matches('C');
    first := f.Next();
    if first.None? {
      assert false;
    }
    second := f.Next();
    if second.Some? {
      assert false;
    }
  }
}
