// src/day07.rs: a beam enters the grid at 'S' and falls one row at a time;
// a '^' splitter stops it and sends one beam from each side of the
// splitter. Part 1 counts the splits; part 2 counts the timelines, where
// each split doubles the ways a single particle can go.

module Day07 {
  import opened Base
  import opened Text
  import opened Slices
  import opened Grids

  // ---- The start ----

  /** `cells().find(|cell| *cell.contents() == 'S')`: the first 'S' in
      row-major order, if any. */
  function FirstStart(g: Grid<char>): (r: Option<Point>)
    reads g
    requires g.Valid()
    ensures r.Some? ==> g.InBounds(r.value) && g.At(r.value) == 'S'
    ensures r.Some? ==> forall l :: g.InBounds(l) && g.Index(l) < g.Index(r.value) ==> g.At(l) != 'S'
    ensures r.None? ==> forall l :: g.InBounds(l) ==> g.At(l) != 'S'
  {
    var k := Find(g.contents, 'S');
    if k == |g.contents| then None
    else
      LocationsIndex(g.width, g.height, k);
      var l := Locations(g.width, g.height)[k];
      LocationsAt(g.width, g.height, l);
      Some(l)
  }

  // ---- Part 1: counting splits ----

  /** Every beam is on the grid, in row `row`. */
  predicate InRow(g: Grid<char>, beams: set<Point>, row: int) {
    forall b :: b in beams ==> g.InBounds(b) && b.y == row
  }

  /** `offset(0, 1)` of every beam: one row down; beams leaving the grid
      vanish. */
  function Moved(g: Grid<char>, beams: set<Point>): (r: set<Point>)
    ensures forall p :: p in r <==> g.InBounds(p) && p.Minus(South) in beams
  {
    set b | b in beams && g.InBounds(b.Plus(South)) :: b.Plus(South)
  }

  /** The beams that, moved one row down, land on a splitter. */
  function Hits(g: Grid<char>, beams: set<Point>): (r: set<Point>)
    reads g
    requires g.Valid()
    ensures r <= Moved(g, beams)
    ensures forall p :: p in r <==> p in Moved(g, beams) && g.At(p) == '^'
  {
    set p | p in Moved(g, beams) && g.At(p) == '^'
  }

  /** One row of `count_splits`: the number of splitters hit, and the next
      row's beams, a set, so beams landing on one cell merge. A beam that
      misses stays; a hit splitter is replaced by the cells on its left and
      right, and `unwrap` panics when one of them is off the grid. */
  function Step(g: Grid<char>, beams: set<Point>): (r: Outcome<(nat, set<Point>)>)
    reads g
    requires g.Valid() && forall b :: b in beams ==> g.InBounds(b)
    ensures var hits := Hits(g, beams);
      r.Ok? <==> forall p :: p in hits ==> 0 < p.x < g.width - 1
    ensures r.Ok? ==> r.value.0 == |Hits(g, beams)|
  {
    var moved := Moved(g, beams);
    var hits := Hits(g, beams);
    if exists p :: p in hits && (p.x == 0 || p.x == g.width - 1) then Panic
    else
      var count: nat := |hits|;
      var next: set<Point> := (moved - hits) + Shift(hits, West) + Shift(hits, East);
      Ok((count, next))
  }

  /** Every point moved by `d`. */
  function Shift(s: set<Point>, d: Point): (r: set<Point>)
    ensures forall p :: p in r <==> p.Minus(d) in s
  {
    var r := set q | q in s :: q.Plus(d);
    assert forall p: Point :: p.Minus(d).Plus(d) == p;
    r
  }

  /** A beam of the next row is a moved beam that missed, or the cell just
      left or right of a hit splitter. */
  lemma StepMembers(g: Grid<char>, beams: set<Point>, p: Point)
    requires g.Valid() && (forall b :: b in beams ==> g.InBounds(b)) && Step(g, beams).Ok?
    ensures var moved := Moved(g, beams);
      p in Step(g, beams).value.1 <==>
        (p in moved && g.At(p) != '^')
        || (p.Minus(West) in moved && g.At(p.Minus(West)) == '^')
        || (p.Minus(East) in moved && g.At(p.Minus(East)) == '^')
  {
  }

  /** The next row's beams are on the grid, one row further down. */
  lemma StepInRow(g: Grid<char>, beams: set<Point>, row: int)
    requires g.Valid() && InRow(g, beams, row) && Step(g, beams).Ok?
    ensures InRow(g, Step(g, beams).value.1, row + 1)
  {
    var moved := Moved(g, beams);
    forall p | p in Step(g, beams).value.1 ensures g.InBounds(p) && p.y == row + 1 {
      StepMembers(g, beams, p);
      if p in moved {
        assert p.Minus(South) in beams;
      } else if p.Minus(West) in moved {
        assert p.Minus(West).Minus(South) in beams;
      } else {
        assert p.Minus(East).Minus(South) in beams;
      }
    }
  }

  /** The splitters in row `y`. */
  function SplittersIn(g: Grid<char>, y: int): (r: set<Point>)
    reads g
    requires g.Valid()
    ensures forall p :: p in r <==> g.InBounds(p) && p.y == y && g.At(p) == '^'
  {
    set x | 0 <= x < g.width && 0 <= y < g.height && g.At(Point(x, y)) == '^' :: Point(x, y)
  }

  /** The number of splitters from row `y` down. */
  function SplittersFrom(g: Grid<char>, y: nat): nat
    reads g
    requires g.Valid()
    decreases g.height - y
  {
    if y >= g.height then 0 else |SplittersIn(g, y)| + SplittersFrom(g, y + 1)
  }

  lemma {:induction false} SubsetSize<T>(a: set<T>, b: set<T>)
    requires a <= b
    ensures |a| <= |b|
  {
    if a != {} {
      var x :| x in a;
      SubsetSize(a - {x}, b - {x});
    }
  }

  /** The splitters hit are among the next row's splitters. */
  lemma HitsInRow(g: Grid<char>, beams: set<Point>, row: nat)
    requires g.Valid() && InRow(g, beams, row)
    ensures |Hits(g, beams)| + SplittersFrom(g, row + 2) <= SplittersFrom(g, row + 1)
  {
    var hits := Hits(g, beams);
    forall p | p in hits ensures p in SplittersIn(g, row + 1) {
      assert p.Minus(South) in beams;
    }
    if row + 1 < g.height {
      SubsetSize(hits, SplittersIn(g, row + 1));
    } else {
      assert hits == {};
    }
  }

  /** `count_splits` on beams all in row `row`: nothing for no beams,
      otherwise the splitters hit one row down plus the count from there.
      Since beams merge, each splitter is counted at most once, so the
      answer is at most the number of splitters below the row. */
  function CountSplits(g: Grid<char>, beams: set<Point>, row: nat): (r: Outcome<nat>)
    reads g
    requires g.Valid() && InRow(g, beams, row)
    ensures beams == {} ==> r == Ok(0)
    ensures r.Ok? ==> r.value <= SplittersFrom(g, row + 1)
    decreases g.height - row
  {
    if beams == {} then Ok(0)
    else
      var step := Step(g, beams);
      if step.Panic? then Panic
      else
        StepInRow(g, beams, row);
        HitsInRow(g, beams, row);
        var rest := CountSplits(g, step.value.1, row + 1);
        if rest.Panic? then Panic else Ok(step.value.0 + rest.value)
  }

  /** `part1` on a grid: the splits from the first 'S'; no 'S' means no
      beam and the answer 0. */
  function Splits(g: Grid<char>): (r: Outcome<nat>)
    reads g
    requires g.Valid()
    ensures FirstStart(g).None? ==> r == Ok(0)
    ensures r.Ok? ==> r.value <= SplittersFrom(g, 0)
  {
    match FirstStart(g)
    case None => Ok(0)
    case Some(s) =>
      SplittersFromMonotone(g, 0, s.y + 1);
      CountSplits(g, {s}, s.y)
  }

  lemma {:induction false} SplittersFromMonotone(g: Grid<char>, a: nat, b: nat)
    requires g.Valid() && a <= b
    ensures SplittersFrom(g, b) <= SplittersFrom(g, a)
    decreases b - a
  {
    if a < b {
      SplittersFromMonotone(g, a + 1, b);
    }
  }

  /** `part1`: `new_with_lines` panics on ragged lines; otherwise the
      answer is the splits from the first 'S' of the grid the lines make,
      returned as the ghost `grid`. */
  method Part1(input: string) returns (r: Outcome<nat>, ghost grid: Outcome<Grid<char>>)
    ensures grid.Panic? <==> !Rectangular(Lines(input))
    ensures grid.Ok? ==> LinesGrid(grid.value, Lines(input)) && r == Splits(grid.value)
    ensures !Rectangular(Lines(input)) ==> r.Panic?
    ensures Rectangular(Lines(input)) && 'S' !in Concat(Lines(input)) ==> r == Ok(0)
  {
    var made := NewWithLines(Lines(input));
    grid := made;
    if made.Panic? {
      return Panic, grid;
    }
    r := Splits(made.value);
  }

  // ---- Part 2: counting timelines ----

  /** The cells `offset(-1, 1)` and `offset(1, 1)` below a splitter, or
      `offset(0, 1)` below anything else. */
  function Below(g: Grid<char>, l: Point): (r: seq<Point>)
    reads g
    requires g.Valid() && g.InBounds(l)
  {
    if g.At(l) == '^' then [Point(l.x - 1, l.y + 1), Point(l.x + 1, l.y + 1)] else [Point(l.x, l.y + 1)]
  }

  /** `count_timelines` without the cache: one timeline off the grid
      (`None`), the sum over both sides at a splitter, the cell below
      otherwise. Every cell has at least one timeline, and at most two to
      the power of the rows left. */
  function Timelines(g: Grid<char>, l: Point): (r: nat)
    reads g
    requires g.Valid()
    ensures r >= 1
    ensures g.InBounds(l) ==> r <= Power2(g.height - l.y)
    decreases if g.InBounds(l) then g.height - l.y else 0
  {
    if !g.InBounds(l) then 1
    else
      var below := Below(g, l);
      if |below| == 2 then Timelines(g, below[0]) + Timelines(g, below[1])
      else Timelines(g, below[0])
  }

  function Power2(n: nat): (r: nat)
    ensures r >= 1
  {
    if n == 0 then 1 else 2 * Power2(n - 1)
  }

  /** Every cached entry is an on-grid cell and holds its timeline count. */
  predicate Memo(g: Grid<char>, cache: map<Point, nat>)
    reads g
    requires g.Valid()
  {
    forall l :: l in cache ==> g.InBounds(l) && cache[l] == Timelines(g, l)
  }

  /** Inserting a cell's own count keeps the cache right. */
  lemma MemoInsert(g: Grid<char>, cache: map<Point, nat>, l: Point, n: nat)
    requires g.Valid() && Memo(g, cache) && g.InBounds(l) && n == Timelines(g, l)
    ensures Memo(g, cache[l := n])
  {
  }

  /** `count_timelines` with its cache: a cached cell answers at once;
      otherwise the answer is computed, recursing into the cache, and
      inserted. The answer is the uncached count, and the cache only gains
      entries, each of them right. */
  method CountTimelines(g: Grid<char>, start: Option<Point>, cache: map<Point, nat>) returns (r: nat, after: map<Point, nat>)
    requires g.Valid() && Memo(g, cache)
    requires start.Some? ==> g.InBounds(start.value)
    ensures r == if start.None? then 1 else Timelines(g, start.value)
    ensures Memo(g, after)
    ensures forall l :: l in cache ==> l in after
    decreases if start.Some? then g.height - start.value.y else 0
  {
    if start.None? {
      return 1, cache;
    }
    var l := start.value;
    if l in cache {
      return cache[l], cache;
    }
    var below := Below(g, l);
    var first := if g.InBounds(below[0]) then Some(below[0]) else None;
    var a, c1 := CountTimelines(g, first, cache);
    if |below| == 2 {
      var second := if g.InBounds(below[1]) then Some(below[1]) else None;
      var b, c2 := CountTimelines(g, second, c1);
      r := a + b;
      MemoInsert(g, c2, l, r);
      after := c2[l := r];
    } else {
      r := a;
      MemoInsert(g, c1, l, r);
      after := c1[l := r];
    }
  }

  /** `part2` on a grid: the timelines from the first 'S' with an empty
      cache; with no 'S' the answer is 1. */
  method TimelinesFromStart(g: Grid<char>) returns (r: nat)
    requires g.Valid()
    ensures FirstStart(g).None? ==> r == 1
    ensures FirstStart(g).Some? ==> r == Timelines(g, FirstStart(g).value)
  {
    var cache := map[];
    r, cache := CountTimelines(g, FirstStart(g), cache);
  }

  /** `part2`: `new_with_lines` panics on ragged lines; otherwise the
      answer is the timelines from the first 'S' of the grid the lines
      make, returned as the ghost `grid`, or 1 without an 'S'. */
  method Part2(input: string) returns (r: Outcome<nat>, ghost grid: Outcome<Grid<char>>)
    ensures r.Panic? <==> !Rectangular(Lines(input))
    ensures grid.Panic? <==> !Rectangular(Lines(input))
    ensures grid.Ok? ==> LinesGrid(grid.value, Lines(input))
    ensures grid.Ok? ==> r == Ok(if FirstStart(grid.value).None? then 1 else Timelines(grid.value, FirstStart(grid.value).value))
    ensures Rectangular(Lines(input)) && 'S' !in Concat(Lines(input)) ==> r == Ok(1)
    ensures r.Ok? ==> r.value >= 1
  {
    var made := NewWithLines(Lines(input));
    grid := made;
    if made.Panic? {
      return Panic, grid;
    }
    var n := TimelinesFromStart(made.value);
    r := Ok(n);
  }
}
