// src/day05.rs: inclusive ranges of ingredient ids. Part 1 counts the
// candidate ids that lie in some range; part 2 merges overlapping ranges
// into disjoint ones and adds up their lengths.

module Day05 {
  import opened Base

  /** `RangeInclusive<usize>`: `start..=end`, empty when `start > end`. */
  datatype Range = Range(start: nat, end: nat)
  {
    predicate Contains(x: nat) {
      start <= x <= end
    }

    predicate NonEmpty() {
      start <= end
    }

    /** The ids the range holds. */
    function Ids(): (r: set<nat>)
      ensures forall x :: x in r <==> Contains(x)
    {
      set x | start <= x <= end && Contains(x)
    }
  }

  /** The guard of `union`: each range reaches the other. */
  predicate Overlap(a: Range, b: Range) {
    a.end >= b.start && a.start <= b.end
  }

  /** `union`: the smallest range holding both, but only when they overlap;
      ranges that merely touch (`1..=2` and `3..=4`) are not joined. */
  function Union(a: Range, b: Range): (r: Option<Range>)
    ensures r.Some? <==> Overlap(a, b)
    ensures r.Some? ==> r.value.start == Min(a.start, b.start) && r.value.end == Max(a.end, b.end)
  {
    if a.end >= b.start && a.start <= b.end then Some(Range(Min(a.start, b.start), Max(a.end, b.end)))
    else None
  }

  /** Non-empty ranges overlap exactly when they share an id. */
  lemma OverlapMeaning(a: Range, b: Range)
    requires a.NonEmpty() && b.NonEmpty()
    ensures Overlap(a, b) <==> exists x :: a.Contains(x) && b.Contains(x)
  {
    if Overlap(a, b) {
      var x := Max(a.start, b.start);
      assert a.Contains(x) && b.Contains(x);
    }
  }

  /** The union is symmetric, holds both ranges, and for non-empty ranges
      holds nothing else. */
  lemma UnionMeaning(a: Range, b: Range)
    requires Union(a, b).Some?
    ensures Union(b, a) == Union(a, b)
    ensures forall x :: a.Contains(x) || b.Contains(x) ==> Union(a, b).value.Contains(x)
    ensures a.NonEmpty() && b.NonEmpty() ==> Union(a, b).value.Ids() == a.Ids() + b.Ids()
  {
  }

  /** `1..=2` and `3..=4` touch but stay apart. */
  lemma TouchingNotJoined()
    ensures Union(Range(1, 2), Range(3, 4)).None?
  {
  }

  // ---- Part 1 ----

  /** `ranges.iter().any(|r| r.contains(c))`. */
  predicate InAny(ranges: seq<Range>, c: nat) {
    exists k :: 0 <= k < |ranges| && ranges[k].Contains(c)
  }

  /** `part1` on the parsed ranges and candidates: how many candidates lie
      in some range. */
  function Part1(ranges: seq<Range>, candidates: seq<nat>): (r: nat)
    ensures r <= |candidates|
  {
    if candidates == [] then 0
    else Part1(ranges, candidates[..|candidates| - 1]) + (if InAny(ranges, candidates[|candidates| - 1]) then 1 else 0)
  }

  /** The positions of candidates that lie in some range. */
  function Fresh(ranges: seq<Range>, candidates: seq<nat>): set<nat> {
    set k | 0 <= k < |candidates| && InAny(ranges, candidates[k])
  }

  /** The answer is the number of positions whose candidate is in range. */
  lemma {:induction false} Part1Counts(ranges: seq<Range>, candidates: seq<nat>)
    ensures Part1(ranges, candidates) == |Fresh(ranges, candidates)|
  {
    if candidates != [] {
      var n := |candidates| - 1;
      var front := candidates[..n];
      Part1Counts(ranges, front);
      if InAny(ranges, candidates[n]) {
        assert Fresh(ranges, candidates) == Fresh(ranges, front) + {n};
      } else {
        assert Fresh(ranges, candidates) == Fresh(ranges, front);
      }
    }
  }

  // ---- Part 2 ----

  /** The ids some range of `ranges` holds. */
  function Covered(ranges: seq<Range>): set<nat> {
    if ranges == [] then {} else ranges[0].Ids() + Covered(ranges[1..])
  }

  lemma {:induction false} CoveredMeaning(ranges: seq<Range>, x: nat)
    ensures x in Covered(ranges) <==> InAny(ranges, x)
  {
    if ranges != [] {
      CoveredMeaning(ranges[1..], x);
      if InAny(ranges, x) && !ranges[0].Contains(x) {
        var k :| 0 <= k < |ranges| && ranges[k].Contains(x);
        assert ranges[1..][k - 1] == ranges[k];
      }
    }
  }

  lemma {:induction false} CoveredAppend(a: seq<Range>, b: seq<Range>)
    ensures Covered(a + b) == Covered(a) + Covered(b)
  {
    if a != [] {
      assert (a + b)[1..] == a[1..] + b;
      CoveredAppend(a[1..], b);
    } else {
      assert a + b == b;
    }
  }

  /** No two ranges overlap. */
  predicate Disjoint(ranges: seq<Range>) {
    forall i, j :: 0 <= i < j < |ranges| ==> !Overlap(ranges[i], ranges[j])
  }

  predicate AllNonEmpty(ranges: seq<Range>) {
    forall k :: 0 <= k < |ranges| ==> ranges[k].NonEmpty()
  }

  /** One step of the fold: the filter walks the accumulator front to back,
      dropping each range that overlaps the growing `range` and widening
      `range` to the union. The result is the kept ranges and the final
      `range`. */
  function Sweep(accum: seq<Range>, range: Range): (r: (seq<Range>, Range))
    ensures |r.0| <= |accum|
  {
    if accum == [] then ([], range)
    else
      match Union(accum[0], range)
      case Some(u) => Sweep(accum[1..], u)
      case None =>
        var rest := Sweep(accum[1..], range);
        ([accum[0]] + rest.0, rest.1)
  }

  /** The fold step's result: the kept ranges followed by the merged one. */
  function Absorb(accum: seq<Range>, range: Range): seq<Range> {
    var (kept, grown) := Sweep(accum, range);
    kept + [grown]
  }

  /** A range apart from the growing range and from every range still to
      come stays apart from the final range. */
  lemma {:induction false} SweepApart(rest: seq<Range>, range: Range, a: Range)
    requires a.NonEmpty() && range.NonEmpty() && AllNonEmpty(rest)
    requires !Overlap(a, range)
    requires forall k :: 0 <= k < |rest| ==> !Overlap(a, rest[k])
    ensures !Overlap(a, Sweep(rest, range).1)
  {
    if rest != [] {
      assert forall k :: 0 <= k < |rest[1..]| ==> rest[1..][k] == rest[k + 1];
      match Union(rest[0], range)
      case Some(u) =>
        assert !Overlap(a, rest[0]);
        SweepApart(rest[1..], u, a);
      case None =>
        SweepApart(rest[1..], range, a);
    }
  }

  /** Every kept range is one of the accumulator's, the final range is
      non-empty, the step covers the same ids as before plus the new range,
      and disjointness is kept. */
  lemma {:induction false} SweepMeaning(accum: seq<Range>, range: Range)
    requires AllNonEmpty(accum) && range.NonEmpty() && Disjoint(accum)
    ensures var (kept, grown) := Sweep(accum, range);
      AllNonEmpty(kept) && grown.NonEmpty() && Disjoint(kept)
      && (forall k :: 0 <= k < |kept| ==> !Overlap(kept[k], grown))
      && Covered(kept) + grown.Ids() == Covered(accum) + range.Ids()
  {
    if accum != [] {
      var rest := accum[1..];
      assert forall k :: 0 <= k < |rest| ==> rest[k] == accum[k + 1];
      match Union(accum[0], range)
      case Some(u) =>
        UnionMeaning(accum[0], range);
        SweepMeaning(rest, u);
      case None =>
        SweepMeaning(rest, range);
        var (kept, grown) := Sweep(rest, range);
        SweepApart(rest, range, accum[0]);
        SweepKeeps(rest, range);
        var all := [accum[0]] + kept;
        assert all[1..] == kept;
        forall i, j | 0 <= i < j < |all| ensures !Overlap(all[i], all[j]) {
          if i == 0 {
            assert all[j] == kept[j - 1];
          } else {
            assert all[i] == kept[i - 1] && all[j] == kept[j - 1];
          }
        }
    }
  }

  /** The ranges kept are among the accumulator's. */
  lemma {:induction false} SweepKeeps(accum: seq<Range>, range: Range)
    ensures forall k :: 0 <= k < |Sweep(accum, range).0| ==> Sweep(accum, range).0[k] in accum
  {
    if accum != [] {
      match Union(accum[0], range)
      case Some(u) => SweepKeeps(accum[1..], u);
      case None => SweepKeeps(accum[1..], range);
      assert forall y :: y in accum[1..] ==> y in accum;
    }
  }

  /** The fold step keeps the accumulator disjoint and adds exactly the ids
      of the new range. */
  lemma AbsorbMeaning(accum: seq<Range>, range: Range)
    requires AllNonEmpty(accum) && range.NonEmpty() && Disjoint(accum)
    ensures AllNonEmpty(Absorb(accum, range)) && Disjoint(Absorb(accum, range))
    ensures Covered(Absorb(accum, range)) == Covered(accum) + range.Ids()
  {
    var (kept, grown) := Sweep(accum, range);
    SweepMeaning(accum, range);
    var r := kept + [grown];
    CoveredAppend(kept, [grown]);
    assert Covered([grown]) == grown.Ids();
    forall i, j | 0 <= i < j < |r| ensures !Overlap(r[i], r[j]) {
      if j == |kept| {
        assert r[j] == grown;
      }
    }
  }

  /** The fold's closure, run as the source runs it: the accumulator is
      filtered front to back while `range` grows, then the grown range is
      pushed. */
  method Merge(accum: seq<Range>, range: Range) returns (result: seq<Range>)
    ensures result == Absorb(accum, range)
  {
    var current := range;
    var kept: seq<Range> := [];
    var i := 0;
    assert accum[0..] == accum;
    while i < |accum|
      invariant 0 <= i <= |accum|
      invariant Sweep(accum, range).0 == kept + Sweep(accum[i..], current).0
      invariant Sweep(accum, range).1 == Sweep(accum[i..], current).1
    {
      assert accum[i..][1..] == accum[i + 1..];
      var u := Union(accum[i], current);
      assert Sweep(accum[i..], current) == if u.Some? then Sweep(accum[i + 1..], u.value)
        else ([accum[i]] + Sweep(accum[i + 1..], current).0, Sweep(accum[i + 1..], current).1);
      if u.Some? {
        current := u.value;
      } else {
        assert kept + ([accum[i]] + Sweep(accum[i + 1..], current).0) == kept + [accum[i]] + Sweep(accum[i + 1..], current).0;
        kept := kept + [accum[i]];
      }
      i := i + 1;
    }
    result := kept + [current];
  }

  /** `range.end() - range.start() + 1` summed over the disjoint ranges;
      `usize` subtraction panics on a range whose end is below its start. */
  function Lengths(ranges: seq<Range>): (r: Outcome<nat>)
    ensures r.Ok? <==> AllNonEmpty(ranges)
  {
    if ranges == [] then Ok(0)
    else
      var rest := Lengths(ranges[1..]);
      assert forall k :: 0 <= k < |ranges[1..]| ==> ranges[1..][k] == ranges[k + 1];
      if ranges[0].end < ranges[0].start || rest.Panic? then Panic
      else Ok(ranges[0].end - ranges[0].start + 1 + rest.value)
  }

  lemma {:induction false} IdsSize(r: Range)
    requires r.NonEmpty()
    ensures |r.Ids()| == r.end - r.start + 1
    decreases r.end - r.start
  {
    if r.start < r.end {
      var shorter := Range(r.start, r.end - 1);
      IdsSize(shorter);
      assert r.Ids() == shorter.Ids() + {r.end};
    } else {
      assert r.Ids() == {r.start};
    }
  }

  /** The lengths of disjoint ranges add up to the number of ids they
      cover. */
  lemma {:induction false} LengthsCount(ranges: seq<Range>)
    requires AllNonEmpty(ranges) && Disjoint(ranges)
    ensures Lengths(ranges) == Ok(|Covered(ranges)|)
  {
    if ranges != [] {
      var rest := ranges[1..];
      assert forall k :: 0 <= k < |rest| ==> rest[k] == ranges[k + 1];
      LengthsCount(rest);
      IdsSize(ranges[0]);
      forall x | x in ranges[0].Ids() ensures x !in Covered(rest) {
        CoveredMeaning(rest, x);
        forall k | 0 <= k < |rest| ensures !rest[k].Contains(x) {
          assert !Overlap(ranges[0], ranges[k + 1]);
        }
      }
      assert ranges[0].Ids() * Covered(rest) == {};
    }
  }

  /** `part2` on the parsed ranges: fold them into disjoint ranges with
      `Merge`, then add up their lengths. With no empty range among the
      input, the answer is the number of distinct ids any range holds. */
  method Part2(ranges: seq<Range>) returns (r: Outcome<nat>)
    ensures AllNonEmpty(ranges) ==> r == Ok(|Covered(ranges)|)
  {
    var accum := [];
    var i := 0;
    while i < |ranges|
      invariant 0 <= i <= |ranges|
      invariant AllNonEmpty(ranges) ==> AllNonEmpty(accum) && Disjoint(accum) && Covered(accum) == Covered(ranges[..i])
    {
      if AllNonEmpty(ranges) {
        AbsorbMeaning(accum, ranges[i]);
        CoveredAppend(ranges[..i], [ranges[i]]);
        assert ranges[..i + 1] == ranges[..i] + [ranges[i]];
        assert Covered([ranges[i]]) == ranges[i].Ids();
      }
      accum := Merge(accum, ranges[i]);
      i := i + 1;
    }
    assert ranges[..i] == ranges;
    if AllNonEmpty(ranges) {
      LengthsCount(accum);
    }
    r := Lengths(accum);
  }
}
