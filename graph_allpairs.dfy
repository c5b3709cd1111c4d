// `DistanceStorage` and `all_pairs_min_distances` in src/graph.rs: the
// Floyd-Warshall algorithm over a square matrix of optional distances stored
// row by row in one flat vector, with the vertices numbered by a hash map.

module GraphAllPairs {
  import opened Base

  // ---- Vertex numbering ----

  /** `values.enumerate().map(|(i, v)| (v, i)).collect()`: each value's
      position; a value that occurs twice keeps its last position. */
  function IndexMap<V(!new)>(values: seq<V>): (m: map<V, nat>)
    ensures forall v :: v in m <==> v in values
    ensures forall v :: v in m ==> m[v] < |values| && values[m[v]] == v
  {
    if values == [] then map[]
    else IndexMap(values[..|values| - 1])[values[|values| - 1] := |values| - 1]
  }

  /** The position a value is numbered by is its last one. */
  lemma {:induction false} IndexMapLast<V(!new)>(values: seq<V>, i: nat)
    requires i < |values|
    ensures i <= IndexMap(values)[values[i]]
  {
    if i < |values| - 1 && values[i] != values[|values| - 1] {
      IndexMapLast(values[..|values| - 1], i);
    }
  }

  /** Without repeated values, every value is numbered by its position and
      the numbers are exactly `0 .. |values|`. */
  lemma {:induction false} IndexMapDistinct<V(!new)>(values: seq<V>)
    requires NoDuplicates(values)
    ensures |IndexMap(values)| == |values|
    ensures forall i :: 0 <= i < |values| ==> IndexMap(values)[values[i]] == i
  {
    if values != [] {
      var front := values[..|values| - 1];
      var last := values[|values| - 1];
      IndexMapDistinct(front);
      forall i | 0 <= i < |values| ensures IndexMap(values)[values[i]] == i {
        IndexMapLast(values, i);
      }
      assert last !in front;
      assert last !in IndexMap(front);
      assert IndexMap(values).Keys == IndexMap(front).Keys + {last};
    }
  }

  // ---- Flat square matrices ----

  /** Position of entry (`a`, `b`) in an `n` by `n` matrix stored row by row. */
  function At(n: nat, a: nat, b: nat): nat {
    a * n + b
  }

  lemma AtBound(n: nat, a: nat, b: nat)
    requires a < n && b < n
    ensures At(n, a, b) < n * n
  {
    assert a * n <= (n - 1) * n;
  }

  lemma AtInjective(n: nat, a: nat, b: nat, c: nat, d: nat)
    requires a < n && b < n && c < n && d < n
    requires At(n, a, b) == At(n, c, d)
    ensures a == c && b == d
  {
    if a < c {
      assert (a + 1) * n == a * n + n;
      MulLe(a + 1, c, n);
    } else if c < a {
      assert (c + 1) * n == c * n + n;
      MulLe(c + 1, a, n);
    }
  }

  lemma MulLe(x: nat, y: nat, n: nat)
    requires x <= y
    ensures x * n <= y * n
  {
    var z := y - x;
    assert y * n == x * n + z * n;
  }

  /** `a + b` on optional distances: `None` when either is missing. */
  function AddOpt(a: Option<nat>, b: Option<nat>): (r: Option<nat>)
    ensures r.Some? <==> a.Some? && b.Some?
    ensures r.Some? ==> r.value == a.value + b.value
  {
    if a.Some? && b.Some? then Some(a.value + b.value) else None
  }

  /** One relaxation: keep `current` unless a route `via` exists, then take
      the smaller (a missing current distance counts as infinite). */
  function Improve(current: Option<nat>, via: Option<nat>): (r: Option<nat>)
    ensures via.None? ==> r == current
    ensures via.Some? ==> r.Some? && r.value <= via.value
    ensures current.Some? ==> r.Some? && r.value <= current.value
    ensures r.Some? ==> r == current || r == via
  {
    match via
    case None => current
    case Some(t) => if current.Some? && current.value < t then current else Some(t)
  }

  /** An `n` by `n` matrix of optional distances, as rows. */
  ghost predicate IsSquare(m: seq<seq<Option<nat>>>) {
    forall i :: 0 <= i < |m| ==> |m[i]| == |m|
  }

  /** Floyd-Warshall's recurrence: the least cost from `i` to `j` over
      walks of at least one edge whose inner vertices are all below `k`. */
  ghost function Paths(seed: seq<seq<Option<nat>>>, k: nat, i: nat, j: nat): Option<nat>
    requires IsSquare(seed) && k <= |seed| && i < |seed| && j < |seed|
  {
    if k == 0 then seed[i][j]
    else Improve(Paths(seed, k - 1, i, j), AddOpt(Paths(seed, k - 1, i, k - 1), Paths(seed, k - 1, k - 1, j)))
  }

  /** Going through `k` does not improve a route that starts or ends at `k`,
      so the in-place update of round `k` reads the same row and column it
      would have read before the round. */
  lemma PathsStable(seed: seq<seq<Option<nat>>>, k: nat, i: nat)
    requires IsSquare(seed) && k < |seed| && i < |seed|
    ensures Paths(seed, k + 1, i, k) == Paths(seed, k, i, k)
    ensures Paths(seed, k + 1, k, i) == Paths(seed, k, k, i)
  {
  }

  /** Later rounds never lose or worsen a distance. */
  lemma {:induction false} PathsMonotone(seed: seq<seq<Option<nat>>>, k: nat, l: nat, i: nat, j: nat)
    requires IsSquare(seed) && k <= l <= |seed| && i < |seed| && j < |seed|
    requires Paths(seed, k, i, j).Some?
    ensures Paths(seed, l, i, j).Some? && Paths(seed, l, i, j).value <= Paths(seed, k, i, j).value
    decreases l - k
  {
    if k < l {
      PathsMonotone(seed, k + 1, l, i, j);
    }
  }

  // ---- Walks over vertex numbers ----

  /** A walk of at least one edge through the seed matrix, from `p[0]` to
      the last vertex of `p`. */
  ghost predicate IsIndexWalk(seed: seq<seq<Option<nat>>>, p: seq<nat>)
    requires IsSquare(seed)
  {
    && |p| >= 2
    && (forall t :: 0 <= t < |p| ==> p[t] < |seed|)
    && (forall t :: 0 <= t < |p| - 1 ==> seed[p[t]][p[t + 1]].Some?)
  }

  /** Every inner vertex of `p` is below `k`. */
  ghost predicate InnerBelow(p: seq<nat>, k: nat) {
    forall t :: 0 < t < |p| - 1 ==> p[t] < k
  }

  ghost function IndexCost(seed: seq<seq<Option<nat>>>, p: seq<nat>): nat
    requires IsSquare(seed) && IsIndexWalk(seed, p)
    decreases |p|
  {
    var w := seed[p[|p| - 2]][p[|p| - 1]].value;
    if |p| == 2 then w else IndexCost(seed, p[..|p| - 1]) + w
  }

  /** A stretch of at least two vertices of a walk is a walk. */
  lemma IndexWalkSlice(seed: seq<seq<Option<nat>>>, p: seq<nat>, i: nat, j: nat)
    requires IsSquare(seed) && IsIndexWalk(seed, p) && i + 2 <= j <= |p|
    ensures IsIndexWalk(seed, p[i..j])
  {
    var q := p[i..j];
    assert forall t :: 0 <= t < |q| ==> q[t] == p[i + t];
  }

  /** A walk costs its walk without the last vertex plus its last edge. */
  lemma IndexCostLast(seed: seq<seq<Option<nat>>>, p: seq<nat>)
    requires IsSquare(seed) && IsIndexWalk(seed, p) && |p| > 2
    ensures IsIndexWalk(seed, p[..|p| - 1])
    ensures IndexCost(seed, p) == IndexCost(seed, p[..|p| - 1]) + seed[p[|p| - 2]][p[|p| - 1]].value
  {
    IndexWalkSlice(seed, p, 0, |p| - 1);
  }

  /** How the halves of a sequence split at `m` relate to the sequence
      without its last element. */
  lemma SliceDropLast(p: seq<nat>, m: nat)
    requires 0 < m < |p| - 2
    ensures p[m..][..|p| - m - 1] == p[..|p| - 1][m..]
    ensures p[..|p| - 1][..m + 1] == p[..m + 1]
    ensures p[m..][|p| - m - 2] == p[|p| - 2] && p[m..][|p| - m - 1] == p[|p| - 1]
  {
  }

  /** The back half of a walk split at `m` loses, with the walk's last
      vertex, the same last edge the whole walk does. */
  lemma SuffixDropLast(seed: seq<seq<Option<nat>>>, p: seq<nat>, m: nat)
    requires IsSquare(seed) && IsIndexWalk(seed, p) && 0 < m < |p| - 2
    ensures IsIndexWalk(seed, p[..|p| - 1][m..])
    ensures IndexCost(seed, p[m..]) == IndexCost(seed, p[..|p| - 1][m..]) + seed[p[|p| - 2]][p[|p| - 1]].value
  {
    SliceDropLast(p, m);
    IndexWalkSlice(seed, p, m, |p|);
    IndexCostLast(seed, p[m..]);
  }

  lemma {:induction false} IndexWalkSplit(seed: seq<seq<Option<nat>>>, p: seq<nat>, m: nat)
    requires IsSquare(seed) && IsIndexWalk(seed, p) && 0 < m < |p| - 1
    ensures IsIndexWalk(seed, p[..m + 1]) && IsIndexWalk(seed, p[m..])
    ensures IndexCost(seed, p) == IndexCost(seed, p[..m + 1]) + IndexCost(seed, p[m..])
    decreases |p|
  {
    IndexWalkSlice(seed, p, 0, m + 1);
    IndexWalkSlice(seed, p, m, |p|);
    if m == |p| - 2 {
      assert p[..m + 1] == p[..|p| - 1];
      assert p[m..] == [p[m], p[m + 1]];
    } else {
      IndexCostLast(seed, p);
      SuffixDropLast(seed, p, m);
      assert p[..|p| - 1][..m + 1] == p[..m + 1];
      IndexWalkSplit(seed, p[..|p| - 1], m);
    }
  }

  /** Two walks that meet make one walk, which splits back into them where
      they meet. */
  lemma IndexWalkConcat(seed: seq<seq<Option<nat>>>, p1: seq<nat>, p2: seq<nat>)
    requires IsSquare(seed) && IsIndexWalk(seed, p1) && IsIndexWalk(seed, p2)
    requires p1[|p1| - 1] == p2[0]
    ensures IsIndexWalk(seed, p1 + p2[1..])
    ensures (p1 + p2[1..])[..|p1|] == p1 && (p1 + p2[1..])[|p1| - 1..] == p2
  {
    var p := p1 + p2[1..];
    var m := |p1| - 1;
    assert p[..m + 1] == p1 && p[m..] == p2;
    forall t | 0 <= t < |p| - 1 ensures p[t] < |seed| && seed[p[t]][p[t + 1]].Some? {
      if t >= m {
        assert p[t] == p2[t - m] && p[t + 1] == p2[t - m + 1];
      }
    }
  }

  /** Two walks that meet make one walk, whose cost is the sum. */
  lemma IndexWalkJoin(seed: seq<seq<Option<nat>>>, p1: seq<nat>, p2: seq<nat>)
    requires IsSquare(seed) && IsIndexWalk(seed, p1) && IsIndexWalk(seed, p2)
    requires p1[|p1| - 1] == p2[0]
    ensures IsIndexWalk(seed, p1 + p2[1..])
    ensures IndexCost(seed, p1 + p2[1..]) == IndexCost(seed, p1) + IndexCost(seed, p2)
  {
    var p, m := p1 + p2[1..], |p1| - 1;
    IndexWalkConcat(seed, p1, p2);
    assert p[..m + 1] == p1 && p[m..] == p2;
    IndexWalkSplit(seed, p, m);
  }

  /** Every distance the recurrence finds is the cost of such a walk. */
  lemma {:induction false} PathsSound(seed: seq<seq<Option<nat>>>, k: nat, i: nat, j: nat)
    returns (p: seq<nat>)
    requires IsSquare(seed) && k <= |seed| && i < |seed| && j < |seed|
    requires Paths(seed, k, i, j).Some?
    ensures IsIndexWalk(seed, p) && p[0] == i && p[|p| - 1] == j && InnerBelow(p, k)
    ensures IndexCost(seed, p) == Paths(seed, k, i, j).value
  {
    if k == 0 {
      p := [i, j];
    } else {
      var direct := Paths(seed, k - 1, i, j);
      var left, right := Paths(seed, k - 1, i, k - 1), Paths(seed, k - 1, k - 1, j);
      if Paths(seed, k, i, j) == direct {
        p := PathsSound(seed, k - 1, i, j);
      } else {
        var p1 := PathsSound(seed, k - 1, i, k - 1);
        var p2 := PathsSound(seed, k - 1, k - 1, j);
        IndexWalkJoin(seed, p1, p2);
        p := p1 + p2[1..];
        forall t | 0 < t < |p| - 1 ensures p[t] < k {
          if t >= |p1| {
            assert p[t] == p2[t - |p1| + 1];
          }
        }
      }
    }
  }

  /** No walk whose inner vertices are below `k` is cheaper than what the
      recurrence finds, and the recurrence finds something whenever such a
      walk exists. */
  lemma {:induction false} PathsOptimal(seed: seq<seq<Option<nat>>>, k: nat, p: seq<nat>)
    requires IsSquare(seed) && k <= |seed|
    requires IsIndexWalk(seed, p) && InnerBelow(p, k)
    ensures Paths(seed, k, p[0], p[|p| - 1]).Some?
    ensures Paths(seed, k, p[0], p[|p| - 1]).value <= IndexCost(seed, p)
  {
    if k == 0 {
      if |p| > 2 {
        assert false;
      }
    } else if forall t :: 0 < t < |p| - 1 ==> p[t] != k - 1 {
      PathsOptimal(seed, k - 1, p);
    } else {
      var prefix, suffix := SplitAtMiddle(seed, k - 1, p);
      PathsOptimal(seed, k - 1, prefix);
      PathsOptimal(seed, k - 1, suffix);
    }
  }

  /** A walk whose inner vertices are at most `x` and which passes through
      `x` splits into a walk to `x` and a walk from `x`, both with inner
      vertices below `x` and together no dearer. */
  lemma SplitAtMiddle(seed: seq<seq<Option<nat>>>, x: nat, p: seq<nat>) returns (prefix: seq<nat>, suffix: seq<nat>)
    requires IsSquare(seed) && IsIndexWalk(seed, p) && InnerBelow(p, x + 1)
    requires exists t :: 0 < t < |p| - 1 && p[t] == x
    ensures IsIndexWalk(seed, prefix) && IsIndexWalk(seed, suffix)
    ensures prefix[0] == p[0] && prefix[|prefix| - 1] == x && suffix[0] == x && suffix[|suffix| - 1] == p[|p| - 1]
    ensures InnerBelow(prefix, x) && InnerBelow(suffix, x)
    ensures IndexCost(seed, prefix) + IndexCost(seed, suffix) <= IndexCost(seed, p)
  {
    var a := FirstAt(p, x);
    var b := LastAt(p, x);
    IndexWalkSplit(seed, p, a);
    prefix := p[..a + 1];
    suffix := p[b..];
    PrefixBelow(p, x, a);
    SuffixBelow(p, x, b);
    LaterSuffix(seed, p, a, b);
  }

  lemma PrefixBelow(p: seq<nat>, x: nat, a: nat)
    requires InnerBelow(p, x + 1) && 0 < a < |p| - 1 && p[a] == x
    requires forall t :: 0 < t < a ==> p[t] != x
    ensures InnerBelow(p[..a + 1], x)
  {
    var q := p[..a + 1];
    forall t | 0 < t < |q| - 1 ensures q[t] < x {
      assert q[t] == p[t];
    }
  }

  lemma SuffixBelow(p: seq<nat>, x: nat, b: nat)
    requires InnerBelow(p, x + 1) && 0 < b < |p| - 1 && p[b] == x
    requires forall t :: b < t < |p| - 1 ==> p[t] != x
    ensures InnerBelow(p[b..], x)
  {
    var q := p[b..];
    forall t | 0 < t < |q| - 1 ensures q[t] < x {
      assert q[t] == p[b + t];
    }
  }

  /** A later suffix of a walk is a walk and no dearer. */
  lemma LaterSuffix(seed: seq<seq<Option<nat>>>, p: seq<nat>, a: nat, b: nat)
    requires IsSquare(seed) && IsIndexWalk(seed, p) && 0 < a <= b < |p| - 1
    ensures IsIndexWalk(seed, p[a..]) && IsIndexWalk(seed, p[b..])
    ensures IndexCost(seed, p[b..]) <= IndexCost(seed, p[a..])
  {
    IndexWalkSplit(seed, p, a);
    if b > a {
      var rest := p[a..];
      IndexWalkSplit(seed, rest, b - a);
      assert rest[b - a..] == p[b..];
    }
  }

  /** The first inner position of `p` holding `x`. */
  lemma FirstAt(p: seq<nat>, x: nat) returns (a: nat)
    requires exists t :: 0 < t < |p| - 1 && p[t] == x
    ensures 0 < a < |p| - 1 && p[a] == x
    ensures forall t :: 0 < t < a ==> p[t] != x
  {
    a := 1;
    while p[a] != x
      invariant 0 < a < |p| - 1
      invariant forall t :: 0 < t < a ==> p[t] != x
      decreases |p| - a
    {
      a := a + 1;
    }
  }

  /** The last inner position of `p` holding `x`. */
  lemma LastAt(p: seq<nat>, x: nat) returns (b: nat)
    requires exists t :: 0 < t < |p| - 1 && p[t] == x
    ensures 0 < b < |p| - 1 && p[b] == x
    ensures forall t :: b < t < |p| - 1 ==> p[t] != x
  {
    b := |p| - 2;
    while p[b] != x
      invariant 0 < b < |p| - 1
      invariant forall t :: b < t < |p| - 1 ==> p[t] != x
      decreases b
    {
      b := b - 1;
    }
  }

  /** The recurrence after all `|seed|` rounds is the least cost of any walk
      of at least one edge, and exists exactly when such a walk does. */
  lemma AllRoundsMeaning(seed: seq<seq<Option<nat>>>, i: nat, j: nat)
    requires IsSquare(seed) && i < |seed| && j < |seed|
    ensures Paths(seed, |seed|, i, j).Some? <==> exists p :: IsIndexWalk(seed, p) && p[0] == i && p[|p| - 1] == j
    ensures Paths(seed, |seed|, i, j).Some? ==>
      && (exists p :: IsIndexWalk(seed, p) && p[0] == i && p[|p| - 1] == j && IndexCost(seed, p) == Paths(seed, |seed|, i, j).value)
      && (forall p :: IsIndexWalk(seed, p) && p[0] == i && p[|p| - 1] == j ==> Paths(seed, |seed|, i, j).value <= IndexCost(seed, p))
  {
    if Paths(seed, |seed|, i, j).Some? {
      var p := PathsSound(seed, |seed|, i, j);
    }
    forall p | IsIndexWalk(seed, p) && p[0] == i && p[|p| - 1] == j
      ensures Paths(seed, |seed|, i, j).Some? && Paths(seed, |seed|, i, j).value <= IndexCost(seed, p)
    {
      PathsOptimal(seed, |seed|, p);
    }
  }

  // ---- The flat matrix as rows ----

  lemma EntryInRange(flat: seq<Option<nat>>, n: nat, i: nat, j: nat)
    requires |flat| == n * n && i < n && j < n
    ensures At(n, i, j) < |flat|
  {
    AtBound(n, i, j);
  }

  function Entry(flat: seq<Option<nat>>, n: nat, i: nat, j: nat): Option<nat>
    requires |flat| == n * n && i < n && j < n
  {
    EntryInRange(flat, n, i, j);
    flat[At(n, i, j)]
  }

  /** The rows of an `n` by `n` matrix stored row by row. */
  ghost function Rows(flat: seq<Option<nat>>, n: nat): (m: seq<seq<Option<nat>>>)
    requires |flat| == n * n
    ensures |m| == n && IsSquare(m)
    ensures forall i, j :: 0 <= i < n && 0 <= j < n ==> m[i][j] == Entry(flat, n, i, j)
  {
    seq(n, i requires 0 <= i < n => seq(n, j requires 0 <= j < n => Entry(flat, n, i, j)))
  }

  // ---- Seeding the matrix with the edges ----

  /** The edges in the order the seeding loop visits them:
      `(start, next, distance)` for each start, then each of its edges. */
  function EdgeList<V>(starts: seq<V>, edges: V -> seq<(V, nat)>): seq<(V, V, nat)> {
    if starts == [] then [] else Triples(starts[0], edges(starts[0])) + EdgeList(starts[1..], edges)
  }

  function Triples<V>(start: V, nexts: seq<(V, nat)>): (r: seq<(V, V, nat)>)
    ensures |r| == |nexts|
    ensures forall k :: 0 <= k < |nexts| ==> r[k] == (start, nexts[k].0, nexts[k].1)
  {
    seq(|nexts|, k requires 0 <= k < |nexts| => (start, nexts[k].0, nexts[k].1))
  }

  /** The seeding loop over `es`, on the flat matrix `flat` with vertex
      numbers `idx`: looking up a vertex that was not numbered panics, so
      does a position past the end of the matrix, and so does setting an
      entry that is already set (the `assert!(previous.is_none())`). */
  function Seed<V(==)>(idx: map<V, nat>, n: nat, flat: seq<Option<nat>>, es: seq<(V, V, nat)>): (r: Outcome<seq<Option<nat>>>)
    ensures r.Ok? ==> |r.value| == |flat|
    ensures r.Ok? ==> forall q :: 0 <= q < |flat| && flat[q].Some? ==> r.value[q] == flat[q]
    decreases |es|
  {
    if es == [] then Ok(flat)
    else
      var (start, next, distance) := es[0];
      if start !in idx || next !in idx then Panic
      else
        var q := At(n, idx[start], idx[next]);
        if q >= |flat| || flat[q].Some? then Panic
        else Seed(idx, n, flat[q := Some(distance)], es[1..])
  }

  lemma SeedFirst<V>(idx: map<V, nat>, n: nat, flat: seq<Option<nat>>, e: (V, V, nat), rest: seq<(V, V, nat)>)
    ensures Seed(idx, n, flat, [e] + rest) ==
      if e.0 !in idx || e.1 !in idx then Panic
      else
        var q := At(n, idx[e.0], idx[e.1]);
        if q >= |flat| || flat[q].Some? then Panic else Seed(idx, n, flat[q := Some(e.2)], rest)
  {
    assert ([e] + rest)[1..] == rest;
  }

  /** What seeding a fresh storage numbered after `vertices` leaves. */
  function SeedOf<V(==,!new)>(vertices: seq<V>, edges: V -> seq<(V, nat)>): Outcome<seq<Option<nat>>> {
    var idx := IndexMap(vertices);
    Seed(idx, |idx|, Unknown(|idx|), EdgeList(vertices, edges))
  }

  /** An `n` by `n` matrix without any distance. */
  function Unknown(n: nat): (r: seq<Option<nat>>)
    ensures |r| == n * n && forall q :: 0 <= q < n * n ==> r[q] == None
  {
    seq(n * n, _ => None)
  }

  // ---- What seeding does ----

  /** Both ends of the triple are numbered. */
  predicate Numbered<V>(idx: map<V, nat>, e: (V, V, nat)) {
    e.0 in idx && e.1 in idx
  }

  /** The position of the entry a numbered triple seeds. */
  function PositionOf<V>(idx: map<V, nat>, n: nat, e: (V, V, nat)): nat
    requires Numbered(idx, e)
  {
    At(n, idx[e.0], idx[e.1])
  }

  /** Seeding `es` into `flat` meets neither a panic nor a failed
      `assert!`: every triple is numbered and seeds an entry inside the
      matrix that is not yet set, and no two triples seed the same entry. */
  predicate SeedsCleanly<V>(idx: map<V, nat>, n: nat, flat: seq<Option<nat>>, es: seq<(V, V, nat)>) {
    (forall k :: 0 <= k < |es| ==>
      Numbered(idx, es[k]) && PositionOf(idx, n, es[k]) < |flat| && flat[PositionOf(idx, n, es[k])].None?)
    && (forall k, l :: 0 <= k < l < |es| && Numbered(idx, es[k]) && Numbered(idx, es[l]) ==>
      PositionOf(idx, n, es[k]) != PositionOf(idx, n, es[l]))
  }

  /** Seeding the first triple into a free entry leaves the rest to seed
      cleanly exactly when the whole list seeds cleanly. */
  lemma SeedsCleanlyStep<V>(idx: map<V, nat>, n: nat, flat: seq<Option<nat>>, es: seq<(V, V, nat)>)
    requires es != [] && Numbered(idx, es[0])
    requires PositionOf(idx, n, es[0]) < |flat| && flat[PositionOf(idx, n, es[0])].None?
    ensures SeedsCleanly(idx, n, flat, es) <==>
      SeedsCleanly(idx, n, flat[PositionOf(idx, n, es[0]) := Some(es[0].2)], es[1..])
  {
    var q := PositionOf(idx, n, es[0]);
    var seeded := flat[q := Some(es[0].2)];
    var rest := es[1..];
    if SeedsCleanly(idx, n, flat, es) {
      forall k | 0 <= k < |rest|
        ensures Numbered(idx, rest[k]) && PositionOf(idx, n, rest[k]) < |seeded| && seeded[PositionOf(idx, n, rest[k])].None?
      {
        assert rest[k] == es[k + 1];
      }
      forall k, l | 0 <= k < l < |rest| && Numbered(idx, rest[k]) && Numbered(idx, rest[l])
        ensures PositionOf(idx, n, rest[k]) != PositionOf(idx, n, rest[l])
      {
        assert rest[k] == es[k + 1] && rest[l] == es[l + 1];
      }
    }
    if SeedsCleanly(idx, n, seeded, rest) {
      forall k | 0 <= k < |es|
        ensures Numbered(idx, es[k]) && PositionOf(idx, n, es[k]) < |flat| && flat[PositionOf(idx, n, es[k])].None?
      {
        if k > 0 {
          assert es[k] == rest[k - 1];
        }
      }
      forall k, l | 0 <= k < l < |es| && Numbered(idx, es[k]) && Numbered(idx, es[l])
        ensures PositionOf(idx, n, es[k]) != PositionOf(idx, n, es[l])
      {
        assert es[l] == rest[l - 1];
        if k > 0 {
          assert es[k] == rest[k - 1];
        }
      }
    }
  }

  /** Seeding succeeds exactly when it meets no panic and no failed
      `assert!`; then every triple's entry holds its distance, and an entry
      differs from before only where some triple seeded it. */
  lemma {:induction false} SeedMeaning<V>(idx: map<V, nat>, n: nat, flat: seq<Option<nat>>, es: seq<(V, V, nat)>)
    ensures Seed(idx, n, flat, es).Ok? <==> SeedsCleanly(idx, n, flat, es)
    ensures Seed(idx, n, flat, es).Ok? ==> forall k :: 0 <= k < |es| ==>
      Seed(idx, n, flat, es).value[PositionOf(idx, n, es[k])] == Some(es[k].2)
    ensures Seed(idx, n, flat, es).Ok? ==> forall q :: 0 <= q < |flat| && Seed(idx, n, flat, es).value[q] != flat[q] ==>
      exists k :: 0 <= k < |es| && Numbered(idx, es[k]) && PositionOf(idx, n, es[k]) == q
    decreases |es|
  {
    if es != [] {
      var e := es[0];
      var rest := es[1..];
      if !Numbered(idx, e) {
        assert !SeedsCleanly(idx, n, flat, es);
      } else {
        var q := PositionOf(idx, n, e);
        if q >= |flat| || flat[q].Some? {
          assert !SeedsCleanly(idx, n, flat, es);
        } else {
          var seeded := flat[q := Some(e.2)];
          SeedMeaning(idx, n, seeded, rest);
          SeedsCleanlyStep(idx, n, flat, es);
          var r := Seed(idx, n, flat, es);
          assert r == Seed(idx, n, seeded, rest);
          if r.Ok? {
            forall k | 0 <= k < |es| ensures r.value[PositionOf(idx, n, es[k])] == Some(es[k].2) {
              if k > 0 {
                assert es[k] == rest[k - 1];
              }
            }
            forall q' | 0 <= q' < |flat| && r.value[q'] != flat[q']
              ensures exists k :: 0 <= k < |es| && Numbered(idx, es[k]) && PositionOf(idx, n, es[k]) == q'
            {
              if q' == q {
                assert PositionOf(idx, n, es[0]) == q';
              } else {
                var k :| 0 <= k < |rest| && Numbered(idx, rest[k]) && PositionOf(idx, n, rest[k]) == q';
                assert es[k + 1] == rest[k];
              }
            }
          }
        }
      }
    }
  }

  /** A triple is in the start's triples exactly when its edge is. */
  lemma TriplesMeaning<V>(start: V, nexts: seq<(V, nat)>, t: (V, V, nat))
    ensures t in Triples(start, nexts) <==> t.0 == start && (t.1, t.2) in nexts
  {
    var r := Triples(start, nexts);
    if t.0 == start && (t.1, t.2) in nexts {
      var k :| 0 <= k < |nexts| && nexts[k] == (t.1, t.2);
      assert r[k] == t;
    }
  }

  /** The edge list holds a triple exactly when its start is listed and
      has that edge. */
  lemma {:induction false} EdgeListMeaning<V>(starts: seq<V>, edges: V -> seq<(V, nat)>, t: (V, V, nat))
    ensures t in EdgeList(starts, edges) <==> t.0 in starts && (t.1, t.2) in edges(t.0)
  {
    if starts != [] {
      EdgeListMeaning(starts[1..], edges, t);
      TriplesMeaning(starts[0], edges(starts[0]), t);
      assert t.0 in starts <==> t.0 == starts[0] || t.0 in starts[1..];
    }
  }

  /** With no vertex listed twice, seeding leaves a distance at (i, j)
      exactly when the i-th vertex has an edge of that distance to the j-th
      one. */
  lemma SeedOfEntries<V(!new)>(vertices: seq<V>, edges: V -> seq<(V, nat)>, i: nat, j: nat, d: nat)
    requires NoDuplicates(vertices) && SeedOf(vertices, edges).Ok?
    requires i < |vertices| && j < |vertices|
    ensures |SeedOf(vertices, edges).value| == |vertices| * |vertices|
    ensures Rows(SeedOf(vertices, edges).value, |vertices|)[i][j] == Some(d) <==> (vertices[j], d) in edges(vertices[i])
  {
    var n := |vertices|;
    var idx := IndexMap(vertices);
    IndexMapDistinct(vertices);
    var es := EdgeList(vertices, edges);
    var flat := Unknown(n);
    SeedMeaning(idx, n, flat, es);
    var value := SeedOf(vertices, edges).value;
    AtBound(n, i, j);
    var q := At(n, i, j);
    assert Rows(value, n)[i][j] == value[q];
    if (vertices[j], d) in edges(vertices[i]) {
      EdgeListMeaning(vertices, edges, (vertices[i], vertices[j], d));
      var k :| 0 <= k < |es| && es[k] == (vertices[i], vertices[j], d);
      assert PositionOf(idx, n, es[k]) == q;
    }
    if value[q] == Some(d) {
      assert value[q] != flat[q];
      var k :| 0 <= k < |es| && Numbered(idx, es[k]) && PositionOf(idx, n, es[k]) == q;
      AtInjective(n, idx[es[k].0], idx[es[k].1], i, j);
      assert es[k] == (vertices[i], vertices[j], d);
      EdgeListMeaning(vertices, edges, es[k]);
    }
  }

  /** Some (start, next) pair listed twice. */
  ghost predicate RepeatsPair<V>(es: seq<(V, V, nat)>) {
    exists k, l :: 0 <= k < l < |es| && es[k].0 == es[l].0 && es[k].1 == es[l].1
  }

  /** A clean seeding of the edge list means every edge stays among the
      listed vertices. */
  lemma CleanSeedInside<V(!new)>(vertices: seq<V>, edges: V -> seq<(V, nat)>)
    requires NoDuplicates(vertices)
    requires SeedsCleanly(IndexMap(vertices), |vertices|, Unknown(|vertices|), EdgeList(vertices, edges))
    ensures forall v, e :: v in vertices && e in edges(v) ==> e.0 in vertices
  {
    var es := EdgeList(vertices, edges);
    forall v, e | v in vertices && e in edges(v) ensures e.0 in vertices {
      EdgeListMeaning(vertices, edges, (v, e.0, e.1));
      var k :| 0 <= k < |es| && es[k] == (v, e.0, e.1);
      assert Numbered(IndexMap(vertices), es[k]);
    }
  }

  /** A clean seeding also means no (start, next) pair occurs twice: two
      such edges would land on the same entry. */
  lemma CleanSeedUnrepeated<V(!new)>(vertices: seq<V>, edges: V -> seq<(V, nat)>)
    requires NoDuplicates(vertices)
    requires SeedsCleanly(IndexMap(vertices), |vertices|, Unknown(|vertices|), EdgeList(vertices, edges))
    ensures !RepeatsPair(EdgeList(vertices, edges))
  {
    var n := |vertices|;
    var idx := IndexMap(vertices);
    var es := EdgeList(vertices, edges);
    forall k, l | 0 <= k < l < |es| ensures es[k].0 != es[l].0 || es[k].1 != es[l].1 {
      assert PositionOf(idx, n, es[k]) != PositionOf(idx, n, es[l]);
    }
  }

  /** Conversely, when every edge stays among the listed vertices (each
      listed once) and no pair occurs twice, the edge list seeds cleanly. */
  lemma FittingEdgesSeed<V(!new)>(vertices: seq<V>, edges: V -> seq<(V, nat)>)
    requires NoDuplicates(vertices)
    requires forall v, e :: v in vertices && e in edges(v) ==> e.0 in vertices
    requires !RepeatsPair(EdgeList(vertices, edges))
    ensures SeedsCleanly(IndexMap(vertices), |vertices|, Unknown(|vertices|), EdgeList(vertices, edges))
  {
    var n := |vertices|;
    var idx := IndexMap(vertices);
    IndexMapDistinct(vertices);
    var es := EdgeList(vertices, edges);
    var flat := Unknown(n);
    forall k | 0 <= k < |es|
      ensures Numbered(idx, es[k]) && PositionOf(idx, n, es[k]) < |flat| && flat[PositionOf(idx, n, es[k])].None?
    {
      EdgeListMeaning(vertices, edges, es[k]);
      assert (es[k].1, es[k].2) in edges(es[k].0);
      AtBound(n, idx[es[k].0], idx[es[k].1]);
    }
    forall k, l | 0 <= k < l < |es| && Numbered(idx, es[k]) && Numbered(idx, es[l])
      ensures PositionOf(idx, n, es[k]) != PositionOf(idx, n, es[l])
    {
      assert es[k].0 != es[l].0 || es[k].1 != es[l].1;
      if PositionOf(idx, n, es[k]) == PositionOf(idx, n, es[l]) {
        AtInjective(n, idx[es[k].0], idx[es[k].1], idx[es[l].0], idx[es[l].1]);
        assert false;
      }
    }
  }

  /** With no vertex listed twice, seeding panics exactly when some edge
      leads to a vertex that is not listed, or some vertex has two edges to
      the same vertex (the second one trips the `assert!`). */
  lemma SeedOfPanics<V(!new)>(vertices: seq<V>, edges: V -> seq<(V, nat)>)
    requires NoDuplicates(vertices)
    ensures SeedOf(vertices, edges).Panic? <==>
      (exists v, e :: v in vertices && e in edges(v) && e.0 !in vertices) || RepeatsPair(EdgeList(vertices, edges))
  {
    var n := |vertices|;
    IndexMapDistinct(vertices);
    SeedMeaning(IndexMap(vertices), n, Unknown(n), EdgeList(vertices, edges));
    if SeedsCleanly(IndexMap(vertices), n, Unknown(n), EdgeList(vertices, edges)) {
      CleanSeedInside(vertices, edges);
      CleanSeedUnrepeated(vertices, edges);
    }
    if !RepeatsPair(EdgeList(vertices, edges)) && forall v, e :: v in vertices && e in edges(v) ==> e.0 in vertices {
      FittingEdgesSeed(vertices, edges);
    }
  }

  // ---- The relaxation rounds ----

  /** Before round `k`: every entry is what the recurrence gives for `k`. */
  ghost predicate AtRound(a: seq<Option<nat>>, m: seq<seq<Option<nat>>>, n: nat, k: nat) {
    && |a| == n * n && |m| == n && IsSquare(m) && k <= n
    && forall i, j :: 0 <= i < n && 0 <= j < n ==> Entry(a, n, i, j) == Paths(m, k, i, j)
  }

  /** Inside round `k`, at pair (`s`, `e`): the pairs the round has passed
      already hold the recurrence for `k + 1`, the others still for `k`. */
  ghost predicate InRound(a: seq<Option<nat>>, m: seq<seq<Option<nat>>>, n: nat, k: nat, s: nat, e: nat) {
    && |a| == n * n && |m| == n && IsSquare(m) && k < n
    && forall i, j :: 0 <= i < n && 0 <= j < n ==>
         Entry(a, n, i, j) == if i < s || (i == s && j < e) then Paths(m, k + 1, i, j) else Paths(m, k, i, j)
  }

  lemma RoundBegins(a: seq<Option<nat>>, m: seq<seq<Option<nat>>>, n: nat, k: nat)
    requires AtRound(a, m, n, k) && k < n
    ensures InRound(a, m, n, k, 0, 0)
  {
  }

  lemma RowEnds(a: seq<Option<nat>>, m: seq<seq<Option<nat>>>, n: nat, k: nat, s: nat)
    requires InRound(a, m, n, k, s, n)
    ensures InRound(a, m, n, k, s + 1, 0)
  {
  }

  lemma RoundEnds(a: seq<Option<nat>>, m: seq<seq<Option<nat>>>, n: nat, k: nat)
    requires InRound(a, m, n, k, n, 0)
    ensures AtRound(a, m, n, k + 1)
  {
  }

  /** One pair of round `k`: the three entries it reads still hold the
      values of the recurrence for `k` (the row and column of `k` do not
      change in round `k`), and writing the improvement moves on to the
      next pair; when there is no route through `k`, leaving the entry alone
      does too. */
  lemma RelaxPair(a: seq<Option<nat>>, m: seq<seq<Option<nat>>>, n: nat, k: nat, s: nat, e: nat)
    requires InRound(a, m, n, k, s, e) && s < n && e < n
    ensures Entry(a, n, s, k) == Paths(m, k, s, k)
    ensures Entry(a, n, k, e) == Paths(m, k, k, e)
    ensures Entry(a, n, s, e) == Paths(m, k, s, e)
    ensures AddOpt(Paths(m, k, s, k), Paths(m, k, k, e)).None? ==> InRound(a, m, n, k, s, e + 1)
    ensures
      var q := At(n, s, e);
      q < |a| && InRound(a[q := Improve(Paths(m, k, s, e), AddOpt(Paths(m, k, s, k), Paths(m, k, k, e)))], m, n, k, s, e + 1)
  {
    PathsStable(m, k, s);
    PathsStable(m, k, e);
    var q := At(n, s, e);
    AtBound(n, s, e);
    var b := a[q := Improve(Paths(m, k, s, e), AddOpt(Paths(m, k, s, k), Paths(m, k, k, e)))];
    forall i, j | 0 <= i < n && 0 <= j < n
      ensures Entry(b, n, i, j) == if i < s || (i == s && j < e + 1) then Paths(m, k + 1, i, j) else Paths(m, k, i, j)
    {
      if i != s || j != e {
        AtBound(n, i, j);
        if At(n, i, j) == q {
          AtInjective(n, i, j, s, e);
        }
      }
    }
  }

  /** The rows the seeding leaves, which the rounds start from. */
  lemma FirstRound(a: seq<Option<nat>>, n: nat)
    requires |a| == n * n
    ensures AtRound(a, Rows(a, n), n, 0)
  {
  }

  // ---- The storage ----

  /** A fresh `n` by `n` matrix, flattened, no entry known. */
  method NoDistances(n: nat) returns (a: array<Option<nat>>)
    ensures fresh(a) && a.Length == n * n
    ensures forall q :: 0 <= q < a.Length ==> a[q] == None
  {
    a := new Option<nat>[n * n](_ => None);
  }

  /** `DistanceStorage`: an `n` by `n` matrix of optional distances, row by
      row in `distances`, over the vertices numbered by `indexes`. */
  class DistanceStorage<V(==,!new)> {
    const indexes: map<V, nat>
    const distances: array<Option<nat>>

    ghost predicate Valid()
      reads this
    {
      distances.Length == |indexes| * |indexes|
    }

    function Length(): nat
      reads this
    {
      |indexes|
    }

    /** `DistanceStorage::new`: every vertex numbered, no distance known. */
    constructor (values: seq<V>)
      ensures Valid() && indexes == IndexMap(values) && fresh(distances)
      ensures forall q :: 0 <= q < distances.Length ==> distances[q] == None
    {
      var idx := IndexMap(values);
      var empty := NoDistances(|idx|);
      indexes := idx;
      distances := empty;
    }

    /** `index`: the flat position of the pair; looking up a vertex that is
        not numbered panics. */
    function Index(start: V, end: V): (r: Outcome<nat>)
      reads this
      ensures r.Ok? <==> start in indexes && end in indexes
    {
      if start in indexes && end in indexes then Ok(At(|indexes|, indexes[start], indexes[end])) else Panic
    }

    /** `get`: panics on a vertex that is not numbered and on a position
        past the end of the matrix. */
    function Get(start: V, end: V): (r: Outcome<Option<nat>>)
      reads this, distances
      ensures r.Ok? <==> Index(start, end).Ok? && Index(start, end).value < distances.Length
      ensures r.Ok? ==> r.value == distances[Index(start, end).value]
    {
      match Index(start, end)
      case Panic => Panic
      case Ok(q) => if q < distances.Length then Ok(distances[q]) else Panic
    }

    /** `set`: stores `distance` for the pair and returns what was there. */
    method Set(start: V, end: V, distance: nat) returns (previous: Outcome<Option<nat>>)
      modifies distances
      ensures previous == old(Get(start, end))
      ensures previous.Panic? ==> distances[..] == old(distances[..])
      ensures previous.Ok? ==> distances[..] == old(distances[..])[Index(start, end).value := Some(distance)]
      ensures previous.Ok? ==> Get(start, end) == Ok(Some(distance))
    {
      var index := Index(start, end);
      if index.Panic? || index.value >= distances.Length {
        return Panic;
      }
      previous := Ok(distances[index.value]);
      distances[index.value] := Some(distance);
    }

    function GetByIndex(s: nat, e: nat): Option<nat>
      requires Valid() && s < Length() && e < Length()
      reads this, distances
    {
      Entry(distances[..], Length(), s, e)
    }

    method SetByIndex(s: nat, e: nat, distance: nat) returns (previous: Option<nat>)
      requires Valid() && s < Length() && e < Length()
      modifies distances
      ensures previous == old(GetByIndex(s, e))
      ensures At(Length(), s, e) < distances.Length
      ensures distances[..] == old(distances[..])[At(Length(), s, e) := Some(distance)]
    {
      AtBound(Length(), s, e);
      var index := At(Length(), s, e);
      previous := distances[index];
      distances[index] := Some(distance);
    }

    /** Looking a pair up by vertex is looking it up by vertex number. */
    lemma GetIsByIndex(start: V, end: V)
      requires Valid() && start in indexes && end in indexes
      requires indexes[start] < Length() && indexes[end] < Length()
      ensures Get(start, end) == Ok(GetByIndex(indexes[start], indexes[end]))
    {
      AtBound(Length(), indexes[start], indexes[end]);
    }

    /** `iter`: every pair of numbered vertices with its distance; a pair
        without one (or past the end of the matrix) panics at its `unwrap`.
        The pairs come out in the hash map's order, so the model yields
        them as a set. */
    function Iter(): (r: Outcome<set<(V, V, nat)>>)
      reads this, distances
      ensures r.Ok? <==> forall a, b :: a in indexes && b in indexes ==> Get(a, b).Ok? && Get(a, b).value.Some?
      ensures r.Ok? ==> forall t :: t in r.value <==> t.0 in indexes && t.1 in indexes && Get(t.0, t.1) == Ok(Some(t.2))
    {
      if forall a, b :: a in indexes && b in indexes ==> Get(a, b).Ok? && Get(a, b).value.Some? then
        Ok(set a, b | a in indexes && b in indexes :: (a, b, Get(a, b).value.value))
      else
        Panic
    }
  }

  /** The seeding loop of `all_pairs_min_distances`: each vertex's edges, in
      order, set into the fresh storage. `false` when it panics. */
  method SeedEdges<V(==,!new)>(storage: DistanceStorage<V>, vertices: seq<V>, edges: V -> seq<(V, nat)>) returns (ok: bool)
    requires storage.Valid() && storage.indexes == IndexMap(vertices)
    requires forall q :: 0 <= q < storage.distances.Length ==> storage.distances[q] == None
    modifies storage.distances
    ensures ok <==> SeedOf(vertices, edges).Ok?
    ensures ok ==> storage.distances[..] == SeedOf(vertices, edges).value
  {
    assert storage.distances[..] == Unknown(storage.Length());
    ghost var all := SeedOf(vertices, edges);
    assert vertices[0..] == vertices;
    var k := 0;
    while k < |vertices|
      invariant 0 <= k <= |vertices|
      invariant storage.Valid()
      invariant all == Seed(storage.indexes, storage.Length(), storage.distances[..], EdgeList(vertices[k..], edges))
    {
      var start := vertices[k];
      assert vertices[k..][1..] == vertices[k + 1..];
      ok := SeedStart(storage, start, edges(start), EdgeList(vertices[k + 1..], edges), all);
      if !ok {
        return;
      }
      k := k + 1;
    }
    return true;
  }

  /** The inner loop of the seeding, over the edges `nexts` of `start`;
      `rest` are the edges still to come after them. */
  method SeedStart<V(==,!new)>(storage: DistanceStorage<V>, start: V, nexts: seq<(V, nat)>,
                               ghost rest: seq<(V, V, nat)>, ghost all: Outcome<seq<Option<nat>>>) returns (ok: bool)
    requires storage.Valid()
    requires all == Seed(storage.indexes, storage.Length(), storage.distances[..], Triples(start, nexts) + rest)
    modifies storage.distances
    ensures ok ==> all == Seed(storage.indexes, storage.Length(), storage.distances[..], rest)
    ensures !ok ==> all.Panic?
  {
    var idx := storage.indexes;
    var n := |idx|;
    assert nexts[0..] == nexts;
    var j := 0;
    while j < |nexts|
      invariant 0 <= j <= |nexts|
      invariant storage.distances.Length == n * n
      invariant all == Seed(idx, n, storage.distances[..], Triples(start, nexts[j..]) + rest)
    {
      var (next, distance) := nexts[j];
      TriplesFirst(start, nexts, j);
      assert Triples(start, nexts[j..]) + rest == [(start, next, distance)] + (Triples(start, nexts[j + 1..]) + rest);
      SeedFirst(idx, n, storage.distances[..], (start, next, distance), Triples(start, nexts[j + 1..]) + rest);
      var previous := storage.Set(start, next, distance);
      if previous.Panic? || previous.value.Some? {
        return false;
      }
      j := j + 1;
    }
    assert Triples(start, nexts[j..]) + rest == rest;
    return true;
  }

  lemma TriplesFirst<V>(start: V, nexts: seq<(V, nat)>, j: nat)
    requires j < |nexts|
    ensures Triples(start, nexts[j..]) == [(start, nexts[j].0, nexts[j].1)] + Triples(start, nexts[j + 1..])
  {
  }

  /** The three nested loops of `all_pairs_min_distances`, `middle`
      outermost: after them every entry holds the recurrence for all
      `n` rounds, over the matrix the seeding left. */
  method RelaxAll<V(==,!new)>(storage: DistanceStorage<V>, ghost m: seq<seq<Option<nat>>>)
    requires storage.Valid() && m == Rows(storage.distances[..], storage.Length())
    modifies storage.distances
    ensures AtRound(storage.distances[..], m, storage.Length(), storage.Length())
    ensures forall i, j :: 0 <= i < storage.Length() && 0 <= j < storage.Length() && m[i][j].Some? ==>
      var now := Entry(storage.distances[..], storage.Length(), i, j);
      now.Some? && now.value <= m[i][j].value
  {
    var n := storage.Length();
    FirstRound(storage.distances[..], n);
    var middle := 0;
    while middle < n
      invariant middle <= n
      invariant AtRound(storage.distances[..], m, n, middle)
    {
      RoundBegins(storage.distances[..], m, n, middle);
      var start := 0;
      while start < n
        invariant start <= n
        invariant InRound(storage.distances[..], m, n, middle, start, 0)
      {
        var end := 0;
        while end < n
          invariant end <= n
          invariant InRound(storage.distances[..], m, n, middle, start, end)
        {
          RelaxEntry(storage, m, middle, start, end);
          end := end + 1;
        }
        RowEnds(storage.distances[..], m, n, middle, start);
        start := start + 1;
      }
      RoundEnds(storage.distances[..], m, n, middle);
      middle := middle + 1;
    }
    AllRoundsImprove(storage.distances[..], m, n);
  }

  /** The body of the innermost loop: the entry (`start`, `end`) becomes the
      cheaper of itself and the route through `middle`. */
  method RelaxEntry<V(==,!new)>(storage: DistanceStorage<V>, ghost m: seq<seq<Option<nat>>>, middle: nat, start: nat, end: nat)
    requires storage.Valid() && start < storage.Length() && end < storage.Length()
    requires InRound(storage.distances[..], m, storage.Length(), middle, start, end)
    modifies storage.distances
    ensures InRound(storage.distances[..], m, storage.Length(), middle, start, end + 1)
  {
    RelaxPair(storage.distances[..], m, storage.Length(), middle, start, end);
    var startToMiddle := storage.GetByIndex(start, middle);
    var middleToEnd := storage.GetByIndex(middle, end);
    if startToMiddle.Some? && middleToEnd.Some? {
      var total := startToMiddle.value + middleToEnd.value;
      var current := storage.GetByIndex(start, end);
      var best := if current.Some? && current.value < total then current.value else total;
      var _ := storage.SetByIndex(start, end, best);
    }
  }

  /** After every round no entry of the seed matrix is lost or worsened. */
  lemma AllRoundsImprove(a: seq<Option<nat>>, m: seq<seq<Option<nat>>>, n: nat)
    requires AtRound(a, m, n, n)
    ensures forall i, j :: 0 <= i < n && 0 <= j < n && m[i][j].Some? ==>
      Entry(a, n, i, j).Some? && Entry(a, n, i, j).value <= m[i][j].value
  {
    forall i, j | 0 <= i < n && 0 <= j < n && m[i][j].Some?
      ensures Entry(a, n, i, j).Some? && Entry(a, n, i, j).value <= m[i][j].value
    {
      PathsMonotone(m, 0, n, i, j);
    }
  }

  /** `all_pairs_min_distances(vertices, edges)`: seed the storage with the
      edges, then run every round. Panics exactly when the seeding does,
      which with no vertex listed twice is when an edge leads outside the
      vertices or a vertex has two edges to the same vertex; otherwise every
      entry holds the recurrence for all rounds over the seeded matrix, so
      (by `AllRoundsMeaning`) the least cost of a walk of at least one edge
      between the two vertex numbers, over the matrix whose entries are the
      edges (`SeedOfEntries`). */
  method AllPairsMinDistances<V(==,!new)>(vertices: seq<V>, edges: V -> seq<(V, nat)>) returns (r: Outcome<DistanceStorage<V>>)
    ensures r.Panic? <==> SeedOf(vertices, edges).Panic?
    ensures NoDuplicates(vertices) ==> (r.Panic? <==>
      (exists v, e :: v in vertices && e in edges(v) && e.0 !in vertices) || RepeatsPair(EdgeList(vertices, edges)))
    ensures r.Ok? ==> r.value.Valid() && r.value.indexes == IndexMap(vertices)
    ensures r.Ok? ==>
      var n := |IndexMap(vertices)|;
      |SeedOf(vertices, edges).value| == n * n &&
      AtRound(r.value.distances[..], Rows(SeedOf(vertices, edges).value, n), n, n)
    ensures r.Ok? && NoDuplicates(vertices) ==>
      var n := |vertices|;
      |SeedOf(vertices, edges).value| == n * n &&
      forall i, j :: 0 <= i < n && 0 <= j < n ==>
        r.value.Get(vertices[i], vertices[j]) == Ok(Paths(Rows(SeedOf(vertices, edges).value, n), n, i, j))
  {
    if NoDuplicates(vertices) {
      SeedOfPanics(vertices, edges);
    }
    var storage := new DistanceStorage(vertices);
    var ok := SeedEdges(storage, vertices, edges);
    if !ok {
      return Panic;
    }
    ghost var m := Rows(storage.distances[..], storage.Length());
    RelaxAll(storage, m);
    if NoDuplicates(vertices) {
      IndexMapDistinct(vertices);
      forall i, j | 0 <= i < |vertices| && 0 <= j < |vertices|
        ensures storage.Get(vertices[i], vertices[j]) == Ok(Paths(m, |vertices|, i, j))
      {
        storage.GetIsByIndex(vertices[i], vertices[j]);
      }
    }
    r := Ok(storage);
  }
}
