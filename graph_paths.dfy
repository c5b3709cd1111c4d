// `all_paths` in src/graph.rs: enumeration of the paths from `start` to
// `end` with an explicit stack of frames, each a vertex and the successors
// of it still to try.

module GraphPaths {
  import opened Base
  import opened GraphWalks

  /** Every edge out of `universe` stays in it and lowers `rank`: the part
      of the graph the search can reach is finite and acyclic. Without this
      the search of the source runs forever along a cycle. */
  ghost predicate Ranked<V(!new)>(edges: V -> seq<V>, universe: set<V>, rank: V -> nat) {
    forall v, w :: v in universe && w in edges(v) ==> w in universe && rank(w) < rank(v)
  }

  /** The number of steps a full search from `v` takes: one for the frame
      of `v`, and for each successor one to take it plus its own search. */
  ghost function Tree<V(!new)>(edges: V -> seq<V>, universe: set<V>, rank: V -> nat, v: V): nat
    requires Ranked(edges, universe, rank) && v in universe
    decreases rank(v), 1
  {
    1 + Forest(edges, universe, rank, edges(v), rank(v))
  }

  /** The steps still needed for the alternatives `alts`, all ranked below
      `r`. */
  ghost function Forest<V(!new)>(edges: V -> seq<V>, universe: set<V>, rank: V -> nat, alts: seq<V>, r: nat): nat
    requires Ranked(edges, universe, rank)
    requires forall i :: 0 <= i < |alts| ==> alts[i] in universe && rank(alts[i]) < r
    decreases r, 0, |alts|
  {
    if alts == [] then 0
    else Forest(edges, universe, rank, alts[..|alts| - 1], r) + 1 + Tree(edges, universe, rank, alts[|alts| - 1])
  }

  /** A frame holds a vertex of the universe and a prefix of its
      successors: the ones not yet tried, since they are taken from the
      back. */
  ghost predicate FrameOk<V(!new)>(edges: V -> seq<V>, universe: set<V>, frame: (V, seq<V>)) {
    frame.0 in universe && |frame.1| <= |edges(frame.0)| && frame.1 == edges(frame.0)[..|frame.1|]
  }

  ghost predicate FramesOk<V(!new)>(edges: V -> seq<V>, universe: set<V>, stack: seq<(V, seq<V>)>) {
    forall i :: 0 <= i < |stack| ==> FrameOk(edges, universe, stack[i])
  }

  /** What is left of the search from a stack of frames. */
  ghost function StackWork<V(!new)>(edges: V -> seq<V>, universe: set<V>, rank: V -> nat, stack: seq<(V, seq<V>)>): nat
    requires Ranked(edges, universe, rank) && FramesOk(edges, universe, stack)
  {
    if stack == [] then 0
    else
      var (v, alts) := stack[|stack| - 1];
      assert FrameOk(edges, universe, stack[|stack| - 1]);
      assert forall i :: 0 <= i < |alts| ==> alts[i] in edges(v);
      StackWork(edges, universe, rank, stack[..|stack| - 1]) + 1 + Forest(edges, universe, rank, alts, rank(v))
  }

  /** Each path of `paths` with `p` in front of it. */
  function Prefixed<V>(p: seq<V>, paths: seq<seq<V>>): (r: seq<seq<V>>)
    ensures |r| == |paths|
    ensures forall i :: 0 <= i < |paths| ==> r[i] == p + paths[i]
  {
    seq(|paths|, i requires 0 <= i < |paths| => p + paths[i])
  }

  lemma PrefixedAppend<V>(p: seq<V>, a: seq<seq<V>>, b: seq<seq<V>>)
    ensures Prefixed(p, a + b) == Prefixed(p, a) + Prefixed(p, b)
  {
  }

  lemma PrefixedTwice<V>(p: seq<V>, q: seq<V>, a: seq<seq<V>>)
    ensures Prefixed(p, Prefixed(q, a)) == Prefixed(p + q, a)
  {
    forall i | 0 <= i < |a| ensures Prefixed(p, Prefixed(q, a))[i] == Prefixed(p + q, a)[i] {
      assert p + (q + a[i]) == (p + q) + a[i];
    }
  }

  /** The paths from `v` to `end` in the order the search finds them:
      the search stops at the first `end` it meets, and tries the
      successors of a vertex from the back of its list. */
  ghost function PathsFrom<V(!new)>(edges: V -> seq<V>, universe: set<V>, rank: V -> nat, end: V, v: V): seq<seq<V>>
    requires Ranked(edges, universe, rank) && v in universe
    decreases rank(v), 1
  {
    if v == end then [[v]]
    else
      assert forall i :: 0 <= i < |edges(v)| ==> edges(v)[i] in edges(v);
      Prefixed([v], Through(edges, universe, rank, end, edges(v), rank(v)))
  }

  /** The paths through the alternatives `alts`, the last one first. */
  ghost function Through<V(!new)>(edges: V -> seq<V>, universe: set<V>, rank: V -> nat, end: V, alts: seq<V>, r: nat): seq<seq<V>>
    requires Ranked(edges, universe, rank)
    requires forall i :: 0 <= i < |alts| ==> alts[i] in universe && rank(alts[i]) < r
    decreases r, 0, |alts|
  {
    if alts == [] then []
    else PathsFrom(edges, universe, rank, end, alts[|alts| - 1]) + Through(edges, universe, rank, end, alts[..|alts| - 1], r)
  }

  lemma ThroughLast<V(!new)>(edges: V -> seq<V>, universe: set<V>, rank: V -> nat, end: V, alts: seq<V>, r: nat)
    requires Ranked(edges, universe, rank) && alts != []
    requires forall i :: 0 <= i < |alts| ==> alts[i] in universe && rank(alts[i]) < r
    ensures Through(edges, universe, rank, end, alts, r)
            == PathsFrom(edges, universe, rank, end, alts[|alts| - 1]) + Through(edges, universe, rank, end, alts[..|alts| - 1], r)
  {
  }

  /** A walk from `v` that meets `end` only at its last vertex. */
  ghost predicate WalkToEnd<V(!new)>(edges: V -> seq<V>, p: seq<V>, v: V, end: V) {
    IsWalkBetween(edges, p, v, end) && forall i :: 0 <= i < |p| - 1 ==> p[i] != end
  }

  lemma {:induction false} ThroughMember<V(!new)>(edges: V -> seq<V>, universe: set<V>, rank: V -> nat, end: V, alts: seq<V>, r: nat, p: seq<V>)
    requires Ranked(edges, universe, rank)
    requires forall i :: 0 <= i < |alts| ==> alts[i] in universe && rank(alts[i]) < r
    ensures p in Through(edges, universe, rank, end, alts, r) <==>
            exists i :: 0 <= i < |alts| && p in PathsFrom(edges, universe, rank, end, alts[i])
    decreases |alts|
  {
    if alts != [] {
      var front := alts[..|alts| - 1];
      ThroughMember(edges, universe, rank, end, front, r, p);
      if p in PathsFrom(edges, universe, rank, end, alts[|alts| - 1]) {
      } else if exists i :: 0 <= i < |alts| && p in PathsFrom(edges, universe, rank, end, alts[i]) {
        var i :| 0 <= i < |alts| && p in PathsFrom(edges, universe, rank, end, alts[i]);
        assert alts[i] == front[i];
      }
    }
  }

  /** Every path the search finds from `v` is a walk to `end` that meets
      `end` only at its last vertex. */
  lemma {:induction false} PathsFromSound<V(!new)>(edges: V -> seq<V>, universe: set<V>, rank: V -> nat, end: V, v: V, p: seq<V>)
    requires Ranked(edges, universe, rank) && v in universe
    requires p in PathsFrom(edges, universe, rank, end, v)
    ensures WalkToEnd(edges, p, v, end)
    decreases rank(v)
  {
    if v != end {
      assert forall i :: 0 <= i < |edges(v)| ==> edges(v)[i] in edges(v);
      var through := Through(edges, universe, rank, end, edges(v), rank(v));
      var k :| 0 <= k < |through| && Prefixed([v], through)[k] == p;
      var q := through[k];
      ThroughMember(edges, universe, rank, end, edges(v), rank(v), q);
      var i :| 0 <= i < |edges(v)| && q in PathsFrom(edges, universe, rank, end, edges(v)[i]);
      PathsFromSound(edges, universe, rank, end, edges(v)[i], q);
      assert p == [v] + q;
      forall t | 0 <= t < |p| - 1 ensures p[t + 1] in edges(p[t]) && p[t] != end {
        if t > 0 {
          assert p[t] == q[t - 1] && p[t + 1] == q[t];
        }
      }
    }
  }

  /** Every walk from `v` to `end` that meets `end` only at its last vertex
      is among the paths the search finds. */
  lemma {:induction false} PathsFromComplete<V(!new)>(edges: V -> seq<V>, universe: set<V>, rank: V -> nat, end: V, v: V, p: seq<V>)
    requires Ranked(edges, universe, rank) && v in universe
    requires WalkToEnd(edges, p, v, end)
    ensures p in PathsFrom(edges, universe, rank, end, v)
    decreases rank(v)
  {
    if v == end {
      assert p == [v];
    } else {
      assert |p| >= 2;
      var w := p[1];
      assert w in edges(v);
      var q := p[1..];
      forall t | 0 <= t < |q| - 1 ensures q[t + 1] in edges(q[t]) && q[t] != end {
        assert q[t] == p[t + 1] && q[t + 1] == p[t + 2];
      }
      assert WalkToEnd(edges, q, w, end);
      PathsFromComplete(edges, universe, rank, end, w, q);
      var i :| 0 <= i < |edges(v)| && edges(v)[i] == w;
      assert forall i :: 0 <= i < |edges(v)| ==> edges(v)[i] in edges(v);
      ThroughMember(edges, universe, rank, end, edges(v), rank(v), q);
      var through := Through(edges, universe, rank, end, edges(v), rank(v));
      var k :| 0 <= k < |through| && through[k] == q;
      assert p == [v] + q;
      assert Prefixed([v], through)[k] == p;
    }
  }

  /** No vertex lists a successor twice. */
  ghost predicate DistinctSuccessors<V(!new)>(edges: V -> seq<V>, universe: set<V>) {
    forall u :: u in universe ==> NoDuplicates(edges(u))
  }

  lemma NoDuplicatesAppend<T>(a: seq<T>, b: seq<T>)
    requires NoDuplicates(a) && NoDuplicates(b)
    requires forall x :: x in a ==> x !in b
    ensures NoDuplicates(a + b)
  {
    forall i, j | 0 <= i < j < |a + b| ensures (a + b)[i] != (a + b)[j] {
      if j < |a| {
        assert (a + b)[i] == a[i] && (a + b)[j] == a[j];
      } else if i >= |a| {
        assert (a + b)[i] == b[i - |a|] && (a + b)[j] == b[j - |a|];
      } else {
        assert (a + b)[i] == a[i] && (a + b)[j] == b[j - |a|];
        assert a[i] in a && b[j - |a|] in b;
      }
    }
  }

  /** When no vertex lists a successor twice, the search finds each path
      once. */
  lemma {:induction false} PathsFromDistinct<V(!new)>(edges: V -> seq<V>, universe: set<V>, rank: V -> nat, end: V, v: V)
    requires Ranked(edges, universe, rank) && DistinctSuccessors(edges, universe) && v in universe
    ensures NoDuplicates(PathsFrom(edges, universe, rank, end, v))
    decreases rank(v), 1
  {
    if v != end {
      assert forall i :: 0 <= i < |edges(v)| ==> edges(v)[i] in edges(v);
      ThroughDistinct(edges, universe, rank, end, edges(v), rank(v));
      var through := Through(edges, universe, rank, end, edges(v), rank(v));
      forall i, j | 0 <= i < j < |through| ensures Prefixed([v], through)[i] != Prefixed([v], through)[j] {
        assert Prefixed([v], through)[i][1..] == through[i];
        assert Prefixed([v], through)[j][1..] == through[j];
      }
    }
  }

  lemma {:induction false} ThroughDistinct<V(!new)>(edges: V -> seq<V>, universe: set<V>, rank: V -> nat, end: V, alts: seq<V>, r: nat)
    requires Ranked(edges, universe, rank) && DistinctSuccessors(edges, universe)
    requires forall i :: 0 <= i < |alts| ==> alts[i] in universe && rank(alts[i]) < r
    requires NoDuplicates(alts)
    ensures NoDuplicates(Through(edges, universe, rank, end, alts, r))
    decreases r, 0, |alts|
  {
    if alts != [] {
      var front := alts[..|alts| - 1];
      var last := alts[|alts| - 1];
      PathsFromDistinct(edges, universe, rank, end, last);
      ThroughDistinct(edges, universe, rank, end, front, r);
      forall p | p in PathsFrom(edges, universe, rank, end, last)
        ensures p !in Through(edges, universe, rank, end, front, r)
      {
        PathsFromSound(edges, universe, rank, end, last, p);
        ThroughMember(edges, universe, rank, end, front, r, p);
        forall i | 0 <= i < |front| ensures p !in PathsFrom(edges, universe, rank, end, front[i]) {
          if p in PathsFrom(edges, universe, rank, end, front[i]) {
            PathsFromSound(edges, universe, rank, end, front[i], p);
          }
        }
      }
      NoDuplicatesAppend(PathsFrom(edges, universe, rank, end, last), Through(edges, universe, rank, end, front, r));
    }
  }

  /** The vertices of the frames, bottom first. */
  function Nodes<V>(stack: seq<(V, seq<V>)>): (r: seq<V>)
    ensures |r| == |stack|
    ensures forall i :: 0 <= i < |stack| ==> r[i] == stack[i].0
  {
    seq(|stack|, i requires 0 <= i < |stack| => stack[i].0)
  }

  /** The iterator that `all_paths` returns, as a cursor over its frame
      stack. The ghost `universe` and `rank` witness that the reachable part
      of the graph is finite and acyclic. */
  class AllPaths<V(==,!new)> {
    const start: V
    const end: V
    const edges: V -> seq<V>
    ghost const universe: set<V>
    ghost const rank: V -> nat
    var stack: seq<(V, seq<V>)>

    /** The frame above frame `i` of `s` holds the successor just taken
        from it, and only the top frame can hold `end`. */
    ghost predicate LinkIn(s: seq<(V, seq<V>)>, i: nat)
      requires i + 1 < |s|
    {
      var (v, alts) := s[i];
      |alts| < |edges(v)| && s[i + 1].0 == edges(v)[|alts|] && v != end
    }

    ghost predicate LinkOk(i: nat)
      reads this
      requires i + 1 < |stack|
    {
      LinkIn(stack, i)
    }

    ghost predicate Valid()
      reads this
    {
      && Ranked(edges, universe, rank) && start in universe
      && (stack != [] ==> stack[0].0 == start)
      && FramesOk(edges, universe, stack)
      && (forall i :: 0 <= i < |stack| - 1 ==> LinkOk(i))
    }

    /** What is left of the search. */
    ghost function Work(): nat
      reads this
      requires Valid()
    {
      StackWork(edges, universe, rank, stack)
    }

    /** The paths a search from the stack `s` has still to find: those of
        the top frame first (itself, when it holds `end`), then those of
        the frames below. */
    ghost function PendingOf(s: seq<(V, seq<V>)>): seq<seq<V>>
      requires Ranked(edges, universe, rank) && FramesOk(edges, universe, s)
    {
      if s == [] then []
      else
        var (v, alts) := s[|s| - 1];
        assert FrameOk(edges, universe, s[|s| - 1]);
        assert forall i :: 0 <= i < |alts| ==> alts[i] in edges(v);
        (if v == end then [Nodes(s)] else Prefixed(Nodes(s), Through(edges, universe, rank, end, alts, rank(v)))) + PendingOf(s[..|s| - 1])
    }

    ghost function Pending(): seq<seq<V>>
      reads this
      requires Valid()
    {
      PendingOf(stack)
    }

    /** `all_paths(start, end, edges)`: one frame, `start` with all of its
        successors. */
    constructor (start: V, end: V, edges: V -> seq<V>, ghost universe: set<V>, ghost rank: V -> nat)
      requires Ranked(edges, universe, rank) && start in universe
      ensures Valid()
      ensures this.start == start && this.end == end && this.edges == edges
      ensures this.universe == universe && this.rank == rank
      ensures stack == [(start, edges(start))]
    {
      this.start := start;
      this.end := end;
      this.edges := edges;
      this.universe := universe;
      this.rank := rank;
      stack := [(start, edges(start))];
      new;
      assert edges(start)[..|edges(start)|] == edges(start);
    }

    /** A fresh search has every path from `start` still to find. */
    lemma StartPending()
      requires Valid() && stack == [(start, edges(start))]
      ensures Pending() == PathsFrom(edges, universe, rank, end, start)
    {
      assert stack[..0] == [];
      assert Nodes(stack) == [start];
      assert FrameOk(edges, universe, stack[0]);
      assert forall i :: 0 <= i < |edges(start)| ==> edges(start)[i] in edges(start);
      var here := if start == end then [[start]]
                  else Prefixed([start], Through(edges, universe, rank, end, edges(start), rank(start)));
      assert PendingOf(stack) == here + PendingOf(stack[..0]);
    }

    /** The frame vertices, with `end` on top, form a walk from `start`. */
    lemma PathAtEnd()
      requires Valid() && stack != [] && stack[|stack| - 1].0 == end
      ensures IsWalkBetween(edges, Nodes(stack), start, end)
      ensures forall i :: 0 <= i < |stack| - 1 ==> stack[i].0 != end
    {
      forall i | 0 <= i < |stack| - 1 ensures Nodes(stack)[i + 1] in edges(Nodes(stack)[i]) && stack[i].0 != end {
        assert LinkOk(i);
        assert FrameOk(edges, universe, stack[i]);
      }
    }

    /** One turn of the `while let` loop when the top vertex is not `end`:
        take the last untried successor of the top frame and push its
        frame, or pop the top frame when none is left. */
    method Advance()
      requires Valid() && stack != [] && stack[|stack| - 1].0 != end
      modifies this
      ensures Valid()
      ensures Work() < old(Work())
      ensures Pending() == old(Pending())
      ensures
        var (v, alts) := old(stack[|stack| - 1]);
        var below := old(stack[..|stack| - 1]);
        stack == if alts == [] then below
                 else below + [(v, alts[..|alts| - 1]), (alts[|alts| - 1], edges(alts[|alts| - 1]))]
    {
      var (node, alternatives) := stack[|stack| - 1];
      var below := stack[..|stack| - 1];
      assert FrameOk(edges, universe, stack[|stack| - 1]);
      assert FramesOk(edges, universe, below);
      ghost var oldStack := stack;
      assert oldStack == below + [(node, alternatives)];
      assert forall i :: 0 <= i < |oldStack| - 1 ==> LinkIn(oldStack, i) by {
        forall i | 0 <= i < |oldStack| - 1 ensures LinkIn(oldStack, i) {
          assert LinkOk(i);
        }
      }
      if alternatives != [] {
        var next := alternatives[|alternatives| - 1];
        var rest := alternatives[..|alternatives| - 1];
        stack := below + [(node, rest), (next, edges(next))];
        PushKeeps(oldStack, stack);
        PushWork(below, node, alternatives);
        PushPending(below, node, alternatives);
      } else {
        stack := below;
        forall i | 0 <= i < |stack| - 1 ensures LinkOk(i) {
          assert old(LinkOk(i));
        }
        assert oldStack[..|oldStack| - 1] == below;
      }
    }

    /** Taking a successor costs one step of the work left. */
    lemma PushWork(below: seq<(V, seq<V>)>, v: V, alts: seq<V>)
      requires Ranked(edges, universe, rank) && alts != []
      requires FramesOk(edges, universe, below + [(v, alts)])
      requires FramesOk(edges, universe, below + [(v, alts[..|alts| - 1]), (alts[|alts| - 1], edges(alts[|alts| - 1]))])
      ensures StackWork(edges, universe, rank, below + [(v, alts[..|alts| - 1]), (alts[|alts| - 1], edges(alts[|alts| - 1]))]) + 1
              == StackWork(edges, universe, rank, below + [(v, alts)])
    {
      var rest := alts[..|alts| - 1];
      var next := alts[|alts| - 1];
      var newer := below + [(v, rest), (next, edges(next))];
      var older := below + [(v, alts)];
      assert newer[..|newer| - 1] == below + [(v, rest)];
      assert (below + [(v, rest)])[..|below|] == below;
      assert older[..|older| - 1] == below;
      assert FrameOk(edges, universe, older[|older| - 1]);
      assert FrameOk(edges, universe, newer[|newer| - 1]);
      assert forall i :: 0 <= i < |alts| ==> alts[i] in edges(v);
      assert next in universe && rank(next) < rank(v);
      assert Forest(edges, universe, rank, alts, rank(v))
          == Forest(edges, universe, rank, rest, rank(v)) + 1 + Tree(edges, universe, rank, next);
      assert StackWork(edges, universe, rank, older)
          == StackWork(edges, universe, rank, below) + 1 + Forest(edges, universe, rank, alts, rank(v));
      assert StackWork(edges, universe, rank, below + [(v, rest)])
          == StackWork(edges, universe, rank, below) + 1 + Forest(edges, universe, rank, rest, rank(v));
      assert StackWork(edges, universe, rank, newer)
          == StackWork(edges, universe, rank, below + [(v, rest)]) + 1 + Forest(edges, universe, rank, edges(next), rank(next));
    }

    /** Taking a successor leaves the paths still to find as they were. */
    lemma PushPending(below: seq<(V, seq<V>)>, v: V, alts: seq<V>)
      requires Ranked(edges, universe, rank) && alts != [] && v != end
      requires FramesOk(edges, universe, below + [(v, alts)])
      requires FramesOk(edges, universe, below + [(v, alts[..|alts| - 1]), (alts[|alts| - 1], edges(alts[|alts| - 1]))])
      ensures PendingOf(below + [(v, alts[..|alts| - 1]), (alts[|alts| - 1], edges(alts[|alts| - 1]))])
              == PendingOf(below + [(v, alts)])
    {
      TopRanked(below, v, alts);
      OlderPending(below, v, alts);
      NewerPending(below, v, alts);
    }

    /** The alternatives of the top frame lie in the universe below it. */
    lemma TopRanked(below: seq<(V, seq<V>)>, v: V, alts: seq<V>)
      requires Ranked(edges, universe, rank)
      requires FramesOk(edges, universe, below + [(v, alts)])
      ensures FramesOk(edges, universe, below)
      ensures forall i :: 0 <= i < |alts| ==> alts[i] in universe && rank(alts[i]) < rank(v)
    {
      var older := below + [(v, alts)];
      assert forall i :: 0 <= i < |below| ==> below[i] == older[i];
      assert FrameOk(edges, universe, older[|older| - 1]);
      assert forall i :: 0 <= i < |alts| ==> alts[i] in edges(v);
    }

    /** Before the push: the paths through the taken successor, then those
        through the other alternatives, then those of the frames below. */
    lemma OlderPending(below: seq<(V, seq<V>)>, v: V, alts: seq<V>)
      requires Ranked(edges, universe, rank) && alts != [] && v != end
      requires FramesOk(edges, universe, below + [(v, alts)])
      requires FramesOk(edges, universe, below)
      requires forall i :: 0 <= i < |alts| ==> alts[i] in universe && rank(alts[i]) < rank(v)
      ensures
        var p := Nodes(below + [(v, alts)]);
        PendingOf(below + [(v, alts)])
        == Prefixed(p, PathsFrom(edges, universe, rank, end, alts[|alts| - 1]))
           + (Prefixed(p, Through(edges, universe, rank, end, alts[..|alts| - 1], rank(v))) + PendingOf(below))
    {
      var older := below + [(v, alts)];
      var p := Nodes(older);
      PendingBelow(below, v, alts);
      ThroughLast(edges, universe, rank, end, alts, rank(v));
      PrefixedAppend(p, PathsFrom(edges, universe, rank, end, alts[|alts| - 1]),
                     Through(edges, universe, rank, end, alts[..|alts| - 1], rank(v)));
    }

    /** The paths a stack whose top frame does not hold `end` has still to
        find: those through the top frame's alternatives, then those below. */
    lemma PendingBelow(below: seq<(V, seq<V>)>, v: V, alts: seq<V>)
      requires Ranked(edges, universe, rank) && v != end
      requires FramesOk(edges, universe, below + [(v, alts)]) && FramesOk(edges, universe, below)
      requires forall i :: 0 <= i < |alts| ==> alts[i] in universe && rank(alts[i]) < rank(v)
      ensures PendingOf(below + [(v, alts)])
              == Prefixed(Nodes(below + [(v, alts)]), Through(edges, universe, rank, end, alts, rank(v))) + PendingOf(below)
    {
      var older := below + [(v, alts)];
      assert older[..|older| - 1] == below;
    }

    /** After the push: the paths of the new top frame, then the same. */
    lemma NewerPending(below: seq<(V, seq<V>)>, v: V, alts: seq<V>)
      requires Ranked(edges, universe, rank) && alts != [] && v != end
      requires FramesOk(edges, universe, below + [(v, alts)])
      requires FramesOk(edges, universe, below + [(v, alts[..|alts| - 1]), (alts[|alts| - 1], edges(alts[|alts| - 1]))])
      ensures alts[|alts| - 1] in universe && rank(alts[|alts| - 1]) < rank(v)
      ensures forall i :: 0 <= i < |alts| - 1 ==> alts[i] in universe && rank(alts[i]) < rank(v)
      ensures FramesOk(edges, universe, below)
      ensures
        var p := Nodes(below + [(v, alts)]);
        PendingOf(below + [(v, alts[..|alts| - 1]), (alts[|alts| - 1], edges(alts[|alts| - 1]))])
        == Prefixed(p, PathsFrom(edges, universe, rank, end, alts[|alts| - 1])) + (Prefixed(p, Through(edges, universe, rank, end, alts[..|alts| - 1], rank(v))) + PendingOf(below))
    {
      var rest := alts[..|alts| - 1];
      var next := alts[|alts| - 1];
      var newer := below + [(v, rest), (next, edges(next))];
      var middle := below + [(v, rest)];
      assert FrameOk(edges, universe, (below + [(v, alts)])[|below|]);
      assert forall i :: 0 <= i < |alts| ==> alts[i] in edges(v);
      assert newer[..|newer| - 1] == middle;
      assert middle[..|below|] == below;
      var p := Nodes(below + [(v, alts)]);
      assert Nodes(middle) == p;
      assert Nodes(newer) == p + [next];
      TopPaths(p, next);
      assert FrameOk(edges, universe, middle[|middle| - 1]);
      assert PendingOf(middle) == Prefixed(p, Through(edges, universe, rank, end, rest, rank(v))) + PendingOf(below);
    }

    /** The paths through `w` behind `p` are what the frame of `w` on top
        of a stack with vertices `p` still has to find. */
    lemma TopPaths(p: seq<V>, w: V)
      requires Ranked(edges, universe, rank) && w in universe
      ensures forall i :: 0 <= i < |edges(w)| ==> edges(w)[i] in universe && rank(edges(w)[i]) < rank(w)
      ensures Prefixed(p, PathsFrom(edges, universe, rank, end, w))
              == if w == end then [p + [w]] else Prefixed(p + [w], Through(edges, universe, rank, end, edges(w), rank(w)))
    {
      assert forall i :: 0 <= i < |edges(w)| ==> edges(w)[i] in edges(w);
      if w != end {
        PrefixedTwice(p, [w], Through(edges, universe, rank, end, edges(w), rank(w)));
      }
    }

    /** Pushing the frame of the last untried successor keeps the frame
        rules. */
    lemma PushKeeps(older: seq<(V, seq<V>)>, newer: seq<(V, seq<V>)>)
      requires Ranked(edges, universe, rank) && start in universe
      requires older != [] && older[0].0 == start && FramesOk(edges, universe, older)
      requires forall i :: 0 <= i < |older| - 1 ==> LinkIn(older, i)
      requires older[|older| - 1].1 != [] && older[|older| - 1].0 != end
      requires
        var (v, alts) := older[|older| - 1];
        newer == older[..|older| - 1] + [(v, alts[..|alts| - 1]), (alts[|alts| - 1], edges(alts[|alts| - 1]))]
      ensures newer[0].0 == start && FramesOk(edges, universe, newer)
      ensures forall i :: 0 <= i < |newer| - 1 ==> LinkIn(newer, i)
    {
      var k := |older| - 1;
      var (v, alts) := older[k];
      var rest := alts[..|alts| - 1];
      var next := alts[|alts| - 1];
      assert FrameOk(edges, universe, older[k]);
      assert alts == edges(v)[..|alts|];
      assert next in edges(v);
      assert edges(next)[..|edges(next)|] == edges(next);
      forall i | 0 <= i < |newer| ensures FrameOk(edges, universe, newer[i]) {
        if i < k {
          assert newer[i] == older[i];
        } else if i == k {
          assert rest == edges(v)[..|rest|];
        }
      }
      forall i | 0 <= i < |newer| - 1 ensures LinkIn(newer, i) {
        if i < k - 1 {
          assert newer[i] == older[i] && newer[i + 1] == older[i + 1];
          assert LinkIn(older, i);
        } else if i == k - 1 {
          assert newer[i] == older[i] && newer[i + 1].0 == older[i + 1].0;
          assert LinkIn(older, i);
        } else {
          assert next == edges(v)[|rest|];
        }
      }
    }

    /** One pull of the iterator as written: if the top vertex is `end`,
        the frame vertices followed by `end` once more, with the stack left
        as it is, so that the next pull yields the same path again; `None`
        only once the stack has emptied. */
    method Next() returns (r: Option<seq<V>>)
      requires Valid()
      modifies this
      ensures Valid()
      ensures r.None? <==> stack == []
      ensures r.Some? ==> stack[|stack| - 1].0 == end && r.value == Nodes(stack) + [end]
      ensures r.Some? ==> IsWalkBetween(edges, r.value[..|r.value| - 1], start, end) && r.value[|r.value| - 1] == end
      ensures old(stack) != [] && old(stack)[|old(stack)| - 1].0 == end ==> stack == old(stack)
      ensures Pending() == old(Pending())
      ensures r == if Pending() == [] then None else Some(Pending()[0] + [end])
    {
      while stack != []
        invariant Valid()
        invariant old(stack) != [] && old(stack)[|old(stack)| - 1].0 == end ==> stack == old(stack)
        invariant Pending() == old(Pending())
        decreases Work()
      {
        var (node, alternatives) := stack[|stack| - 1];
        if node == end {
          PathAtEnd();
          var path := Nodes(stack) + [node];
          assert path[..|path| - 1] == Nodes(stack);
          return Some(path);
        }
        Advance();
      }
      return None;
    }
  
    /** The pull the enumeration evidently intends: like `Next`, but it
        yields the frame vertices with `end` once and pops the `end` frame,
        so that each pending path is yielded once, in order. */
    method NextOnce() returns (r: Option<seq<V>>)
      requires Valid()
      modifies this
      ensures Valid()
      ensures r == if old(Pending()) == [] then None else Some(old(Pending())[0])
      ensures Pending() == if old(Pending()) == [] then [] else old(Pending())[1..]
      ensures r.Some? ==> Work() < old(Work())
    {
      while stack != []
        invariant Valid()
        invariant Pending() == old(Pending())
        invariant Work() <= old(Work())
        decreases Work()
      {
        var (node, alternatives) := stack[|stack| - 1];
        if node == end {
          var path := Nodes(stack);
          PopEnd();
          return Some(path);
        }
        Advance();
      }
      return None;
    }

    /** Popping a frame that holds `end` consumes the first pending path,
        which is the frame vertices. */
    method PopEnd()
      requires Valid() && stack != [] && stack[|stack| - 1].0 == end
      modifies this
      ensures Valid()
      ensures stack == old(stack[..|stack| - 1])
      ensures old(Pending()) == [Nodes(old(stack))] + Pending()
      ensures Work() < old(Work())
    {
      ghost var oldStack := stack;
      var below := stack[..|stack| - 1];
      assert FramesOk(edges, universe, below);
      stack := below;
      forall i | 0 <= i < |stack| - 1 ensures LinkOk(i) {
        assert old(LinkOk(i));
      }
      assert oldStack[..|oldStack| - 1] == below;
    }
  }

  /** The number of paths the intended enumeration yields: pull until
      `None`, counting. */
  method CountPaths<V(==,!new)>(start: V, end: V, edges: V -> seq<V>, ghost universe: set<V>, ghost rank: V -> nat)
    returns (count: nat, ghost paths: seq<seq<V>>)
    requires Ranked(edges, universe, rank) && start in universe
    ensures count == |paths|
    ensures paths == PathsFrom(edges, universe, rank, end, start)
  {
    var cursor := new AllPaths(start, end, edges, universe, rank);
    paths := cursor.Pending();
    cursor.StartPending();
    count := 0;
    var r := cursor.NextOnce();
    while r.Some?
      invariant cursor.Valid()
      invariant r.Some? ==> count + |cursor.Pending()| + 1 == |paths|
      invariant r.None? ==> count == |paths|
      decreases if r.Some? then cursor.Work() + 1 else 0
    {
      count := count + 1;
      r := cursor.NextOnce();
    }
  }

  // A two-vertex graph: y->o.
  function ExampleEdges(v: char): seq<char> {
    if v == 'y' then ['o'] else []
  }

  function ExampleRank(v: char): nat {
    if v == 'y' then 1 else 0
  }

  lemma ExampleRanked()
    ensures Ranked(ExampleEdges, {'y', 'o'}, ExampleRank)
    ensures PathsFrom(ExampleEdges, {'y', 'o'}, ExampleRank, 'o', 'y') == [['y', 'o']]
  {
    var through := Through(ExampleEdges, {'y', 'o'}, ExampleRank, 'o', ['o'], 1);
    assert through == PathsFrom(ExampleEdges, {'y', 'o'}, ExampleRank, 'o', 'o') + Through(ExampleEdges, {'y', 'o'}, ExampleRank, 'o', [], 1);
    assert through == [['o']];
    assert ExampleEdges('y') == ['o'];
    assert Prefixed(['y'], through)[0] == ['y'] + ['o'] == ['y', 'o'];
    assert Prefixed(['y'], through) == [['y', 'o']];
  }

  /** As written, the search from y to o yields [y, o, o], and then the same
      path again: counting its paths never ends. */
  method ExampleRepeats() returns (first: Option<seq<char>>, second: Option<seq<char>>)
    ensures first == Some(['y', 'o', 'o']) && second == first
  {
    ExampleRanked();
    var search := new AllPaths('y', 'o', ExampleEdges, {'y', 'o'}, ExampleRank);
    search.StartPending();
    first := search.Next();
    assert ['y', 'o'] + ['o'] == ['y', 'o', 'o'];
    second := search.Next();
  }

  /** With the intended pull, the same search yields [y, o] once. */
  method ExampleOnce() returns (first: Option<seq<char>>, second: Option<seq<char>>)
    ensures first == Some(['y', 'o']) && second == None
  {
    ExampleRanked();
    var search := new AllPaths('y', 'o', ExampleEdges, {'y', 'o'}, ExampleRank);
    search.StartPending();
    first := search.NextOnce();
    second := search.NextOnce();
  }
}
