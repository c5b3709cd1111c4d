// src/day08.rs: junction boxes at 3-D points are wired together, closest
// pairs first. Circuits are tracked by labelling every box with the least
// index in its circuit. Part 1 multiplies the sizes of the three largest
// circuits after a fixed number of pairs; part 2 finds the pair that
// completes one circuit holding every box.

module Day08 {
  import opened Base
  import opened Text
  import opened Sorting

  // ---- Points and pairs ----

  /** `Point3D<isize>`. */
  datatype Point3 = Point3(x: int, y: int, z: int)

  /** `(p0 - p1).square_length()`. */
  function SquaredDistance(p: Point3, q: Point3): nat {
    Square(p.x - q.x) + Square(p.y - q.y) + Square(p.z - q.z)
  }

  function Square(d: int): nat {
    if d < 0 then (-d) * (-d) else d * d
  }

  /** `p` is the pair `a < b` of boxes among `points` with their squared
      distance. */
  predicate Measured(points: seq<Point3>, p: Pair) {
    p.a < p.b < |points| && p.distance == SquaredDistance(points[p.a], points[p.b])
  }

  /** One entry of `distances`: `(squared distance, i0, i1)`. */
  datatype Pair = Pair(distance: nat, a: nat, b: nat)

  /** The tuple order `sorted()` uses: distance, then `i0`, then `i1`. */
  predicate PairLe(p: Pair, q: Pair) {
    p.distance < q.distance
    || (p.distance == q.distance && (p.a < q.a || (p.a == q.a && p.b <= q.b)))
  }

  lemma PairLeTotal()
    ensures TotalOrder(PairLe)
  {
  }

  /** One line: `split(",")`, each coordinate `parse().unwrap()`, and
      `collect_tuple().unwrap()`, which panics unless there are exactly
      three coordinates. */
  function ParsePoint(line: string): (r: Outcome<Point3>)
    ensures r.Ok? <==> |Split(line, ',')| == 3 && forall k :: 0 <= k < 3 ==> ParseInt(Split(line, ',')[k]).Some?
    ensures r.Ok? ==> var c := Split(line, ',');
      r.value == Point3(ParseInt(c[0]).value, ParseInt(c[1]).value, ParseInt(c[2]).value)
  {
    var c := Split(line, ',');
    if |c| != 3 then Panic
    else
      match (ParseInt(c[0]), ParseInt(c[1]), ParseInt(c[2]))
      case (Some(x), Some(y), Some(z)) => Ok(Point3(x, y, z))
      case _ => Panic
  }

  /** The pairs `(i0, i1)` for one `i0`, `i1` rising from `i0 + 1`. */
  function Row(points: seq<Point3>, i0: nat): (r: seq<Pair>)
    requires i0 < |points|
    ensures |r| == |points| - i0 - 1
    ensures forall k :: 0 <= k < |r| ==> r[k] == Pair(SquaredDistance(points[i0], points[i0 + 1 + k]), i0, i0 + 1 + k)
    ensures forall b :: i0 < b < |points| ==> Pair(SquaredDistance(points[i0], points[b]), i0, b) in r
  {
    var r := seq(|points| - i0 - 1, k requires 0 <= k < |points| - i0 - 1 =>
      Pair(SquaredDistance(points[i0], points[i0 + 1 + k]), i0, i0 + 1 + k));
    assert forall b :: i0 < b < |points| ==> r[b - i0 - 1] == Pair(SquaredDistance(points[i0], points[b]), i0, b);
    r
  }

  /** The pairs `(i0, i1)` with `i0 < i1`, in the `cartesian_product` order:
      `i0` outer, `i1` inner. */
  function Candidates(points: seq<Point3>, i0: nat): seq<Pair>
    decreases |points| - i0
  {
    if i0 >= |points| then [] else Row(points, i0) + Candidates(points, i0 + 1)
  }

  /** The candidates are exactly the pairs `i0 <= a < b`, with their squared
      distance. */
  lemma {:induction false} CandidatesMeaning(points: seq<Point3>, i0: nat)
    ensures forall p :: p in Candidates(points, i0) ==> i0 <= p.a && Measured(points, p)
    ensures forall a, b :: i0 <= a < b < |points| ==> Pair(SquaredDistance(points[a], points[b]), a, b) in Candidates(points, i0)
    decreases |points| - i0
  {
    if i0 < |points| {
      CandidatesMeaning(points, i0 + 1);
      var row, rest := Row(points, i0), Candidates(points, i0 + 1);
      forall p: Pair | p in row + rest ensures i0 <= p.a && Measured(points, p) {
        if p in row {
          var k :| 0 <= k < |row| && row[k] == p;
        }
      }
    }
  }

  /** Every pair names two distinct points, the lower index first. */
  predicate ValidPairs(pairs: seq<Pair>, n: nat) {
    forall k :: 0 <= k < |pairs| ==> pairs[k].a < pairs[k].b < n
  }

  /** The result of `parse`. */
  datatype Parsed = Parsed(points: seq<Point3>, pairs: seq<Pair>)

  /** `parse`: the points, and the pairs `i0 < i1` sorted by distance, then
      indices. */
  function Parse(lines: seq<string>): (r: Outcome<Parsed>)
    ensures r.Ok? <==> forall k :: 0 <= k < |lines| ==> ParsePoint(lines[k]).Ok?
    ensures r.Ok? ==> ValidPairs(r.value.pairs, |r.value.points|)
  {
    match AllOk(lines, ParsePoint)
    case Panic => Panic
    case Ok(points) =>
      SortedPairs(points);
      Ok(Parsed(points, SortedCandidates(points)))
  }

  /** `cartesian_product(..).flat_map(..).sorted()`. */
  function SortedCandidates(points: seq<Point3>): seq<Pair> {
    Sort(Candidates(points, 0), PairLe)
  }

  /** Sorting keeps the candidates: every pair is measured, and every pair
      `a < b` is there. */
  lemma SortedPairs(points: seq<Point3>)
    ensures var pairs := SortedCandidates(points);
      (forall k :: 0 <= k < |pairs| ==> Measured(points, pairs[k]))
      && (forall a, b :: 0 <= a < b < |points| ==> Pair(SquaredDistance(points[a], points[b]), a, b) in pairs)
  {
    var candidates := Candidates(points, 0);
    var pairs := Sort(candidates, PairLe);
    CandidatesMeaning(points, 0);
    forall k | 0 <= k < |pairs| ensures Measured(points, pairs[k]) {
      assert pairs[k] in multiset(candidates);
    }
    forall a, b | 0 <= a < b < |points| ensures Pair(SquaredDistance(points[a], points[b]), a, b) in pairs {
      assert Pair(SquaredDistance(points[a], points[b]), a, b) in multiset(candidates);
    }
  }

  /** The pairs are exactly the index pairs `i0 < i1` with their squared
      distance, sorted ascending, one point per line. */
  lemma ParseMeaning(lines: seq<string>)
    requires Parse(lines).Ok?
    ensures var parsed := Parse(lines).value;
      |parsed.points| == |lines| && SortedBy(parsed.pairs, PairLe)
      && (forall k :: 0 <= k < |parsed.pairs| ==> Measured(parsed.points, parsed.pairs[k]))
      && (forall a, b :: 0 <= a < b < |parsed.points| ==>
            Pair(SquaredDistance(parsed.points[a], parsed.points[b]), a, b) in parsed.pairs)
  {
    var parsed := Parse(lines).value;
    PairLeTotal();
    SortSorted(Candidates(parsed.points, 0), PairLe);
    SortedPairs(parsed.points);
  }

  // ---- Circuit labels ----

  /** The labels every box starts with: its own index. */
  function Identity(n: nat): (r: seq<nat>)
    ensures |r| == n && forall i :: 0 <= i < n ==> r[i] == i
  {
    seq(n, i => i)
  }

  /** Every v is the least index of its circuit: no larger than the
      box's own index, and the labelled box labels itself. */
  predicate Canonical(roots: seq<nat>) {
    forall i :: 0 <= i < |roots| ==> roots[i] <= i && roots[roots[i]] == roots[i]
  }

  /** The labels `join` leaves: `absorbed` becomes `kept`, everything else stays. */
  function Relabel(roots: seq<nat>, absorbed: nat, kept: nat): (r: seq<nat>)
    ensures |r| == |roots|
    ensures forall i :: 0 <= i < |roots| ==> r[i] == if roots[i] == absorbed then kept else roots[i]
  {
    seq(|roots|, i requires 0 <= i < |roots| => if roots[i] == absorbed then kept else roots[i])
  }

  /** How many boxes carry v `v`. */
  function Count(s: seq<nat>, v: nat): (n: nat)
    ensures n <= |s|
  {
    if s == [] then 0 else Count(s[..|s| - 1], v) + if s[|s| - 1] == v then 1 else 0
  }

  /** `join`: relabel the circuit with the larger v to the smaller one
      in place, and count the boxes of the merged circuit. */
  method Join(a: nat, b: nat, roots: array<nat>) returns (size: nat)
    modifies roots
    ensures roots[..] == Relabel(old(roots[..]), Max(a, b), Min(a, b))
    ensures size == Count(roots[..], Min(a, b))
  {
    var kept, absorbed := if a < b then a else b, if a < b then b else a;
    size := 0;
    for i := 0 to roots.Length
      invariant roots[..i] == Relabel(old(roots[..i]), absorbed, kept)
      invariant roots[i..] == old(roots[i..])
      invariant size == Count(roots[..i], kept)
    {
      assert roots[..i + 1][..i] == roots[..i];
      if roots[i] == absorbed {
        roots[i] := kept;
        size := size + 1;
      } else if roots[i] == kept {
        size := size + 1;
      }
      assert roots[..i + 1][..i] == roots[..i];
    }
    assert roots[..roots.Length] == roots[..];
  }

  /** Joining two distinct circuit labels keeps every v the least index
      of its circuit, and the merged circuit holds the boxes of both. */
  lemma RelabelCanonical(roots: seq<nat>, absorbed: nat, kept: nat)
    requires Canonical(roots) && kept < absorbed < |roots|
    requires roots[absorbed] == absorbed && roots[kept] == kept
    ensures Canonical(Relabel(roots, absorbed, kept))
    ensures Count(Relabel(roots, absorbed, kept), kept) == Count(roots, absorbed) + Count(roots, kept)
  {
    CountRelabel(roots, absorbed, kept);
  }

  lemma {:induction false} CountRelabel(roots: seq<nat>, absorbed: nat, kept: nat)
    requires absorbed != kept
    ensures Count(Relabel(roots, absorbed, kept), kept) == Count(roots, absorbed) + Count(roots, kept)
  {
    if roots != [] {
      var n := |roots| - 1;
      assert Relabel(roots, absorbed, kept)[..n] == Relabel(roots[..n], absorbed, kept);
      CountRelabel(roots[..n], absorbed, kept);
    }
  }

  /** One pair of the loops: join when the two boxes are in different
      circuits, otherwise nothing. */
  function Connect(roots: seq<nat>, p: Pair): (r: seq<nat>)
    requires Canonical(roots) && p.a < |roots| && p.b < |roots|
    ensures Canonical(r) && |r| == |roots|
  {
    var ra, rb := roots[p.a], roots[p.b];
    if ra == rb then roots
    else
      RelabelCanonical(roots, Max(ra, rb), Min(ra, rb));
      Relabel(roots, Max(ra, rb), Min(ra, rb))
  }

  /** The labels after the first `count` pairs, from every box alone. */
  function Circuits(n: nat, pairs: seq<Pair>, count: nat): (r: seq<nat>)
    requires ValidPairs(pairs, n) && count <= |pairs|
    ensures Canonical(r) && |r| == n
  {
    if count == 0 then Identity(n)
    else Connect(Circuits(n, pairs, count - 1), pairs[count - 1])
  }

  /** One pass of the join loops on the labels in place: pair `i` is
      joined when its boxes are in different circuits, and `completes` is
      `join`'s size reaching `n`, which is pair `i` completing one circuit. */
  method ConnectPair(n: nat, pairs: seq<Pair>, i: nat, roots: array<nat>) returns (completes: bool)
    requires ValidPairs(pairs, n) && i < |pairs|
    requires roots[..] == Circuits(n, pairs, i)
    modifies roots
    ensures roots[..] == Circuits(n, pairs, i + 1)
    ensures completes == Completes(n, pairs, i)
  {
    JoinCompletes(n, pairs, i);
    var ra, rb := roots[pairs[i].a], roots[pairs[i].b];
    completes := false;
    if ra != rb {
      var size := Join(ra, rb, roots);
      completes := size == n;
    }
  }

  // ---- Part 1 ----

  /** The sizes of the circuits, one per v in use. */
  function Sizes(roots: seq<nat>, v: nat): (r: seq<nat>)
    ensures forall k :: 0 <= k < |r| ==> r[k] > 0
    decreases |roots| - v
  {
    if v >= |roots| then []
    else
      var c := Count(roots, v);
      (if c > 0 then [c] else []) + Sizes(roots, v + 1)
  }

  predicate NatLe(a: nat, b: nat) {
    a <= b
  }

  /** The end of `part1`: `counts().into_values().sorted().rev().take(3)`
      and `reduce(mul).unwrap()`, which panics with no boxes at all. The
      hash map's order does not matter once the sizes are sorted. */
  function LargestThree(roots: seq<nat>): (r: Outcome<nat>)
    ensures r.Panic? <==> Sizes(roots, 0) == []
  {
    var descending := Reverse(Sort(Sizes(roots, 0), NatLe));
    var top := descending[..Min(3, |descending|)];
    if top == [] then Panic else Ok(Product(top))
  }

  /** The sizes taken are the largest ones, in decreasing order. */
  lemma LargestThreeMeaning(roots: seq<nat>)
    ensures var descending := Reverse(Sort(Sizes(roots, 0), NatLe));
      multiset(descending) == multiset(Sizes(roots, 0))
      && forall i, j :: 0 <= i < j < |descending| ==> descending[i] >= descending[j]
  {
    var sorted := Sort(Sizes(roots, 0), NatLe);
    assert TotalOrder(NatLe);
    SortSorted(Sizes(roots, 0), NatLe);
    ReverseMultiset(sorted);
  }

  lemma {:induction false} ReverseMultiset<T>(s: seq<T>)
    ensures multiset(Reverse(s)) == multiset(s)
  {
    if s != [] {
      ReverseMultiset(s[1..]);
      assert s == [s[0]] + s[1..];
    }
  }

  /** The join loop of `part1` over the first `limit` pairs, on the labels
      in place. */
  method ConnectFirst(n: nat, pairs: seq<Pair>, limit: nat) returns (roots: array<nat>)
    requires ValidPairs(pairs, n)
    ensures fresh(roots)
    ensures roots[..] == Circuits(n, pairs, Min(limit, |pairs|))
  {
    roots := new nat[n](i => i);
    assert roots[..] == Identity(n);
    var i := 0;
    while i < Min(limit, |pairs|)
      invariant 0 <= i <= Min(limit, |pairs|)
      invariant roots[..] == Circuits(n, pairs, i)
    {
      var _ := ConnectPair(n, pairs, i, roots);
      i := i + 1;
    }
  }

  /** `part1` on the parsed boxes: 10 pairs for the sample, 1000 otherwise. */
  method Part1Parsed(points: seq<Point3>, pairs: seq<Pair>, isSample: bool) returns (r: Outcome<nat>)
    requires ValidPairs(pairs, |points|)
    ensures r == LargestThree(Circuits(|points|, pairs, Min(if isSample then 10 else 1000, |pairs|)))
  {
    var limit := if isSample then 10 else 1000;
    var roots := ConnectFirst(|points|, pairs, limit);
    r := LargestThree(roots[..]);
  }

  method Part1(input: string, isSample: bool) returns (r: Outcome<nat>)
    ensures Parse(Lines(input)).Panic? ==> r.Panic?
    ensures Parse(Lines(input)).Ok? ==> var p := Parse(Lines(input)).value;
      r == LargestThree(Circuits(|p.points|, p.pairs, Min(if isSample then 10 else 1000, |p.pairs|)))
  {
    var parsed := Parse(Lines(input));
    if parsed.Panic? {
      return Panic;
    }
    r := Part1Parsed(parsed.value.points, parsed.value.pairs, isSample);
  }

  // ---- Part 2 ----

  /** All boxes share one v. */
  predicate OneCircuit(roots: seq<nat>) {
    forall i :: 0 <= i < |roots| ==> roots[i] == roots[0]
  }

  /** Pair `k` is the one that leaves a single circuit. */
  predicate Completes(n: nat, pairs: seq<Pair>, k: nat)
    requires ValidPairs(pairs, n) && k < |pairs|
  {
    !OneCircuit(Circuits(n, pairs, k)) && OneCircuit(Circuits(n, pairs, k + 1))
  }

  /** Some pair completes one circuit. */
  predicate EverCompletes(n: nat, pairs: seq<Pair>)
    requires ValidPairs(pairs, n)
  {
    exists k :: 0 <= k < |pairs| && Completes(n, pairs, k)
  }

  /** `(points[a].x * points[b].x) as usize`: the `isize` product taken
      modulo 2^64, two's complement wrap-around. */
  function XProduct(p: Point3, q: Point3): nat {
    (p.x * q.x) % 0x1_0000_0000_0000_0000
  }

  lemma {:induction false} CountAll(s: seq<nat>, v: nat)
    ensures Count(s, v) == |s| <==> forall i :: 0 <= i < |s| ==> s[i] == v
  {
    if s != [] {
      var n := |s| - 1;
      CountAll(s[..n], v);
      if Count(s, v) == |s| {
        assert Count(s[..n], v) == n;
      }
    }
  }

  /** The join of two different circuits fills the labels exactly when the
      merged circuit holds all `n` boxes. */
  lemma JoinCompletes(n: nat, pairs: seq<Pair>, k: nat)
    requires ValidPairs(pairs, n) && k < |pairs|
    ensures var roots := Circuits(n, pairs, k);
      var ra, rb := roots[pairs[k].a], roots[pairs[k].b];
      Completes(n, pairs, k) <==> ra != rb && Count(Relabel(roots, Max(ra, rb), Min(ra, rb)), Min(ra, rb)) == n
  {
    var roots := Circuits(n, pairs, k);
    var ra, rb := roots[pairs[k].a], roots[pairs[k].b];
    if ra != rb {
      var after := Relabel(roots, Max(ra, rb), Min(ra, rb));
      CountAll(after, Min(ra, rb));
      assert roots[pairs[k].a] != roots[pairs[k].b];
    }
  }

  /** Once one circuit holds everything, later pairs change nothing, so at
      most one pair completes it. */
  lemma CompletesOnce(n: nat, pairs: seq<Pair>, j: nat, k: nat)
    requires ValidPairs(pairs, n) && j < k < |pairs|
    requires Completes(n, pairs, j)
    ensures !Completes(n, pairs, k)
  {
    StaysOne(n, pairs, j + 1, k);
  }

  lemma {:induction false} StaysOne(n: nat, pairs: seq<Pair>, j: nat, k: nat)
    requires ValidPairs(pairs, n) && j <= k <= |pairs|
    requires OneCircuit(Circuits(n, pairs, j))
    ensures OneCircuit(Circuits(n, pairs, k))
    decreases k - j
  {
    if j < k {
      StaysOne(n, pairs, j + 1, k);
    }
  }

  /** While the boxes are not yet one circuit, no earlier pair completed
      one. */
  lemma NotYetCompleted(n: nat, pairs: seq<Pair>, i: nat)
    requires ValidPairs(pairs, n) && i <= |pairs|
    requires !OneCircuit(Circuits(n, pairs, i))
    ensures forall k :: 0 <= k < i ==> !Completes(n, pairs, k)
  {
    forall k | 0 <= k < i ensures !Completes(n, pairs, k) {
      if Completes(n, pairs, k) {
        StaysOne(n, pairs, k + 1, i);
      }
    }
  }

  /** The join loop of `part2` on the labels in place: the index of the
      pair whose join completes one circuit, if any. */
  method FindCompleting(n: nat, pairs: seq<Pair>) returns (found: Option<nat>)
    requires ValidPairs(pairs, n)
    ensures found.None? <==> !EverCompletes(n, pairs)
    ensures found.Some? ==> found.value < |pairs| && Completes(n, pairs, found.value)
  {
    if pairs == [] {
      return None;
    }
    assert pairs[0].a < pairs[0].b < n;
    var roots := new nat[n](i => i);
    assert roots[..] == Identity(n) && roots[1] != roots[0];
    var i := 0;
    while i < |pairs|
      invariant 0 <= i <= |pairs|
      invariant roots[..] == Circuits(n, pairs, i)
      invariant !OneCircuit(roots[..])
    {
      var completes := ConnectPair(n, pairs, i, roots);
      if completes {
        return Some(i);
      }
      i := i + 1;
    }
    NotYetCompleted(n, pairs, i);
    return None;
  }

  /** `part2` on the parsed boxes: the product of the x coordinates of the
      pair that completes one circuit, or a panic ("didn't make full
      circuit") when no pair does. */
  method Part2Parsed(points: seq<Point3>, pairs: seq<Pair>) returns (r: Outcome<nat>)
    requires ValidPairs(pairs, |points|)
    ensures r.Ok? <==> EverCompletes(|points|, pairs)
    ensures r.Ok? ==> exists k :: (0 <= k < |pairs| && Completes(|points|, pairs, k)
      && r.value == XProduct(points[pairs[k].a], points[pairs[k].b]))
  {
    var found := FindCompleting(|points|, pairs);
    if found.None? {
      return Panic;
    }
    var k := found.value;
    r := Ok(XProduct(points[pairs[k].a], points[pairs[k].b]));
  }

  method Part2(input: string) returns (r: Outcome<nat>)
    ensures Parse(Lines(input)).Panic? ==> r.Panic?
    ensures Parse(Lines(input)).Ok? ==> var p := Parse(Lines(input)).value;
      (r.Ok? <==> EverCompletes(|p.points|, p.pairs))
      && (r.Ok? ==> exists k :: (0 <= k < |p.pairs| && Completes(|p.points|, p.pairs, k)
        && r.value == XProduct(p.points[p.pairs[k].a], p.points[p.pairs[k].b])))
  {
    var parsed := Parse(Lines(input));
    if parsed.Panic? {
      return Panic;
    }
    r := Part2Parsed(parsed.value.points, parsed.value.pairs);
  }
}
