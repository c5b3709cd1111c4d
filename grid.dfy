// src/grid.rs: a rectangular grid stored row by row, cells that point back
// into their grid, the eight headings, regions of locations and the faces
// (fence segments) between neighbouring cells.

module Grids {
  import opened Base
  import opened Text
  import opened Slices

  /** euclid's `Point2D<isize>` (a `Location`) and `Vector2D<isize>` (a
      `Heading`), as a pair of unbounded integers. */
  datatype Point = Point(x: int, y: int) {
    function Plus(h: Point): Point {
      Point(x + h.x, y + h.y)
    }
    function Minus(h: Point): Point {
      Point(x - h.x, y - h.y)
    }
    function Negated(): Point {
      Point(-x, -y)
    }
  }

  const East := Point(1, 0)
  const West := Point(-1, 0)
  const North := Point(0, -1)
  const South := Point(0, 1)

  // ---- Row-major layout ----

  /** The position of `l` in a row-major block `w` cells wide. */
  function RowMajor(w: nat, l: Point): int {
    l.y * w + l.x
  }

  function Row(w: nat, y: int): (r: seq<Point>)
    ensures |r| == w
    ensures forall x :: 0 <= x < w ==> r[x] == Point(x, y)
  {
    seq(w, x => Point(x, y))
  }

  /** The locations `cells` visits: y from 0 to h - 1 outside, x from 0 to
      w - 1 inside. */
  function Locations(w: nat, h: nat): (r: seq<Point>)
    ensures |r| == w * h
    ensures forall i :: 0 <= i < |r| ==> 0 <= r[i].x < w && 0 <= r[i].y < h
  {
    if h == 0 then [] else Locations(w, h - 1) + Row(w, h - 1)
  }

  lemma MulLe(a: nat, b: nat, n: nat)
    requires a <= b
    ensures a * n <= b * n
  {
    var z := b - a;
    assert b * n == a * n + z * n;
  }

  lemma MulPred(w: nat, h: nat)
    requires h >= 1
    ensures w * h == w * (h - 1) + w && (h - 1) * w == w * (h - 1)
  {
  }

  /** An in-bounds location sits at its row-major position in `Locations`. */
  lemma {:induction false} LocationsAt(w: nat, h: nat, l: Point)
    requires 0 <= l.x < w && 0 <= l.y < h
    ensures 0 <= RowMajor(w, l) < w * h
    ensures Locations(w, h)[RowMajor(w, l)] == l
  {
    var front := Locations(w, h - 1);
    MulPred(w, h);
    if l.y == h - 1 {
      assert RowMajor(w, l) == |front| + l.x;
    } else {
      LocationsAt(w, h - 1, l);
    }
  }

  /** Each entry of `Locations` is the location whose row-major position
      is its index. */
  lemma {:induction false} LocationsIndex(w: nat, h: nat, k: nat)
    requires k < w * h
    ensures RowMajor(w, Locations(w, h)[k]) == k
  {
    var front := Locations(w, h - 1);
    if k >= |front| {
      assert Locations(w, h)[k] == Point(k - |front|, h - 1);
    } else {
      LocationsIndex(w, h - 1, k);
    }
  }

  // ---- The grid ----

  /** `Grid<T>`: `width * height` elements, row by row. The dimensions never
      change after construction; `set` overwrites one element in place. */
  class Grid<T> {
    var contents: seq<T>
    const width: nat
    const height: nat

    ghost predicate Valid()
      reads this
    {
      |contents| == width * height
    }

    /** `Grid::new`: `width * height` copies of `element`. */
    constructor New(element: T, width: nat, height: nat)
      ensures Valid() && this.width == width && this.height == height
      ensures forall i :: 0 <= i < |contents| ==> contents[i] == element
    {
      this.width := width;
      this.height := height;
      contents := seq(width * height, _ => element);
    }

    /** The struct literal `map` and `new_with_lines` end with. */
    constructor FromContents(contents: seq<T>, width: nat, height: nat)
      requires |contents| == width * height
      ensures Valid() && this.width == width && this.height == height
      ensures this.contents == contents
    {
      this.width := width;
      this.height := height;
      this.contents := contents;
    }

    predicate InBounds(l: Point) {
      0 <= l.x < width && 0 <= l.y < height
    }

    /** `index`: the position of an in-bounds location, which is where
        `cells` visits it; `index` asserts that the location is in bounds. */
    function Index(l: Point): (i: nat)
      requires InBounds(l)
      ensures i < width * height
      ensures Locations(width, height)[i] == l
    {
      LocationsAt(width, height, l);
      RowMajor(width, l)
    }

    /** Distinct in-bounds locations have distinct positions. */
    lemma IndexInjective(a: Point, b: Point)
      requires InBounds(a) && InBounds(b) && a != b
      ensures Index(a) != Index(b)
    {
    }

    /** The element at an in-bounds location (`Cell::contents`). */
    function At(l: Point): T
      reads this
      requires Valid() && InBounds(l)
    {
      contents[Index(l)]
    }

    /** `cell`: a cell exactly for the in-bounds locations. */
    function CellAt(l: Point): (r: Option<Cell<T>>)
      ensures r.Some? <==> InBounds(l)
      ensures r.Some? ==> r.value == Cell(this, l)
    {
      if l.x < 0 || l.y < 0 || l.x >= width || l.y >= height then None
      else Some(Cell(this, l))
    }

    /** `index` as the source runs it: the `assert!` panics outside the
        grid; inside, the position is where `cells` visits the location. */
    function Locate(l: Point): (r: Outcome<nat>)
      ensures r.Panic? <==> !InBounds(l)
      ensures r.Ok? ==> r.value < width * height && Locations(width, height)[r.value] == l
    {
      if l.x >= 0 && l.y >= 0 && l.x < width && l.y < height then Ok(Index(l)) else Panic
    }

    /** `set`: overwrite the element at a location and nothing else;
        `index` panics, leaving the grid as it was, when the location is
        outside the grid. */
    method Set(l: Point, value: T) returns (r: Outcome<()>)
      requires Valid()
      modifies this
      ensures Valid()
      ensures r.Panic? <==> !InBounds(l)
      ensures r.Panic? ==> contents == old(contents)
      ensures r.Ok? ==> contents == old(contents)[Index(l) := value] && At(l) == value
      ensures forall m :: InBounds(m) && m != l ==> At(m) == old(At(m))
    {
      var i := Locate(l);
      if i.Panic? {
        return Panic;
      }
      contents := contents[i.value := value];
      forall m | InBounds(m) && m != l
        ensures Index(m) != Index(l)
      {
        IndexInjective(m, l);
      }
      return Ok(());
    }

    /** `cells`: one cell per location, row-major; the cell of `l` comes at
        position `Index(l)`. */
    function Cells(): (r: seq<Cell<T>>)
      ensures |r| == width * height
      ensures forall i :: 0 <= i < |r| ==> r[i].grid == this && InBounds(r[i].location)
      ensures forall l :: InBounds(l) ==> r[Index(l)] == Cell(this, l)
    {
      var locations := Locations(width, height);
      seq(|locations|, i requires 0 <= i < |locations| => Cell(this, locations[i]))
    }

    /** `map`: a grid of the same dimensions holding `f` of each cell, built
        row by row. */
    method Map<U>(f: Cell<T> ~> U) returns (r: Grid<U>)
      requires Valid()
      requires forall l: Point :: f.requires(Cell(this, l))
      ensures fresh(r) && r.Valid()
      ensures r.width == width && r.height == height
      ensures forall l :: InBounds(l) ==> r.At(l) == f(Cell(this, l))
    {
      var out: seq<U> := [];
      var y := 0;
      while y < height
        invariant 0 <= y <= height
        invariant |out| == y * width
        invariant forall l: Point :: f.requires(Cell(this, l))
        invariant forall l: Point :: 0 <= l.x < width && 0 <= l.y < y ==> 0 <= RowMajor(width, l) < |out| && out[RowMajor(width, l)] == f(Cell(this, l))
      {
        out := MapRow(f, y, out);
        y := y + 1;
      }
      r := new Grid.FromContents(out, width, height);
    }

    /** One pass of the inner loop of `map`: `f` of each cell of row `y`,
        appended to the rows before it. */
    method MapRow<U>(f: Cell<T> ~> U, y: nat, before: seq<U>) returns (out: seq<U>)
      requires forall l: Point :: f.requires(Cell(this, l))
      requires y < height && |before| == y * width
      ensures |out| == (y + 1) * width && out[..|before|] == before
      ensures forall l: Point :: 0 <= l.x < width && l.y == y ==> 0 <= RowMajor(width, l) < |out| && out[RowMajor(width, l)] == f(Cell(this, l))
    {
      out := before;
      var x := 0;
      while x < width
        invariant 0 <= x <= width
        invariant |out| == y * width + x && out[..|before|] == before
        invariant forall l: Point :: 0 <= l.x < x && l.y == y ==> 0 <= RowMajor(width, l) < |out| && out[RowMajor(width, l)] == f(Cell(this, l))
      {
        out := out + [f(Cell(this, Point(x, y)))];
        x := x + 1;
      }
    }
  }

  // ---- Reading and writing a character grid ----

  /** Every line as long as the first. */
  predicate Rectangular(lines: seq<string>) {
    forall k :: 0 <= k < |lines| ==> |lines[k]| == |lines[0]|
  }

  /** The width `new_with_lines` gives: the first line's length, 0 without
      lines. */
  function LinesWidth(lines: seq<string>): nat {
    if lines == [] then 0 else |lines[0]|
  }

  /** Lines of equal length concatenate to width times height characters. */
  lemma {:induction false} ConcatRectangular(lines: seq<string>)
    requires Rectangular(lines)
    ensures |Concat(lines)| == LinesWidth(lines) * |lines|
  {
    if lines != [] {
      var front := lines[..|lines| - 1];
      var w := LinesWidth(lines);
      assert Rectangular(front);
      ConcatRectangular(front);
      assert |Concat(lines)| == |Concat(front)| + w;
      MulPred(w, |lines|);
      if front != [] {
        assert LinesWidth(front) == w;
      }
    }
  }

  /** `g` is the grid `new_with_lines` makes of `lines`: their characters
      in order, as wide as the first line and one row per line. */
  ghost predicate LinesGrid(g: Grid<char>, lines: seq<string>)
    reads g
  {
    g.Valid() && g.contents == Concat(lines) && g.width == LinesWidth(lines) && g.height == |lines|
  }

  /** `Grid::new_with_lines`: the lines concatenated, as wide as the first
      line (0 without lines) and one row per line. It panics
      (`assert_eq!`) on the first line whose length differs from the
      first's. */
  method NewWithLines(lines: seq<string>) returns (r: Outcome<Grid<char>>)
    ensures r.Panic? <==> !Rectangular(lines)
    ensures r.Ok? ==> fresh(r.value) && r.value.Valid()
    ensures r.Ok? ==> r.value.contents == Concat(lines) && r.value.height == |lines|
    ensures r.Ok? ==> r.value.width == LinesWidth(lines)
  {
    var contents: seq<char> := [];
    var width: Option<nat> := None;
    var height := 0;
    while height < |lines|
      invariant 0 <= height <= |lines|
      invariant contents == Concat(lines[..height])
      invariant width == if height == 0 then None else Some(|lines[0]|)
      invariant Rectangular(lines[..height])
      invariant |contents| == (if height == 0 then 0 else |lines[0]|) * height
    {
      var row := lines[height];
      if width.Some? {
        if width.value != |row| {
          assert |lines[height]| != |lines[0]|;
          return Panic;
        }
      } else {
        width := Some(|row|);
      }
      assert lines[..height + 1][..height] == lines[..height];
      contents := contents + row;
      height := height + 1;
    }
    assert lines[..height] == lines;
    var g := new Grid.FromContents(contents, if width.Some? then width.value else 0, height);
    return Ok(g);
  }

  /** `Display`: each row followed by a line feed. `chunks(0)` panics, so a
      grid of width 0 cannot be displayed. */
  function Display(g: Grid<char>): Outcome<string>
    reads g
  {
    if g.width == 0 then Panic else Ok(Unlines(Chunks(g.contents, g.width)))
  }

  /** Displaying a grid without line breaks in it and reading the lines back
      with `new_with_lines` gives the same dimensions and contents. */
  lemma DisplayRoundTrip(g: Grid<char>)
    requires g.Valid() && g.width > 0 && g.height > 0
    requires forall i :: 0 <= i < |g.contents| ==> g.contents[i] != '\n' && g.contents[i] != '\r'
    ensures Display(g).Ok?
    ensures var lines := Lines(Display(g).value);
      && Rectangular(lines) && |lines| == g.height && |lines[0]| == g.width
      && Concat(lines) == g.contents
  {
    var rows := Chunks(g.contents, g.width);
    ChunksExact(g.contents, g.width, g.height);
    forall k | 0 <= k < |rows|
      ensures '\n' !in rows[k] && (rows[k] == [] || rows[k][|rows[k]| - 1] != '\r')
    {
      forall i | 0 <= i < |rows[k]| ensures rows[k][i] != '\n' && rows[k][i] != '\r' {
        ChunksAt(g.contents, g.width, k, i);
      }
    }
    LinesUnlines(rows);
    ConcatChunks(g.contents, g.width);
  }

  // ---- Headings and neighbours ----

  /** Two different locations at most one step apart in each direction. */
  predicate Adjacent(l: Point, m: Point) {
    l != m && Abs(m.x - l.x) <= 1 && Abs(m.y - l.y) <= 1
  }

  /** `all_headings`: the eight non-zero offsets in {-1, 0, 1}², dy outside
      and dx inside. */
  function AllHeadings(): (r: seq<Point>)
    ensures |r| == 8
  {
    [Point(-1, -1), Point(0, -1), Point(1, -1),
     Point(-1, 0), Point(1, 0),
     Point(-1, 1), Point(0, 1), Point(1, 1)]
  }

  /** The headings are exactly the non-zero offsets in {-1, 0, 1}². */
  lemma AllHeadingsMembers(h: Point)
    ensures h in AllHeadings() <==> h != Point(0, 0) && -1 <= h.x <= 1 && -1 <= h.y <= 1
  {
    var hs := AllHeadings();
    if h != Point(0, 0) && -1 <= h.x <= 1 && -1 <= h.y <= 1 {
      var i := 3 * (h.y + 1) + (h.x + 1);
      assert hs[if i > 4 then i - 1 else i] == h;
    }
    if h in hs {
      var i :| 0 <= i < 8 && hs[i] == h;
    }
  }

  /** They come dy outermost, then dx, both increasing. */
  lemma AllHeadingsOrdered(i: nat, j: nat)
    requires i < j < 8
    ensures var hs := AllHeadings();
      hs[i].y < hs[j].y || (hs[i].y == hs[j].y && hs[i].x < hs[j].x)
  {
  }

  /** `neighbors`: `l` plus each heading. */
  function NeighborsOf(l: Point): (r: seq<Point>)
    ensures |r| == 8
    ensures forall i :: 0 <= i < 8 ==> r[i] == l.Plus(AllHeadings()[i])
  {
    var hs := AllHeadings();
    seq(8, i requires 0 <= i < 8 => l.Plus(hs[i]))
  }

  /** The neighbours of `l` are exactly the locations adjacent to it. */
  lemma NeighborsAdjacent(l: Point, m: Point)
    ensures m in NeighborsOf(l) <==> Adjacent(l, m)
  {
    var hs := AllHeadings();
    if Adjacent(l, m) {
      var h := m.Minus(l);
      AllHeadingsMembers(h);
      var i :| 0 <= i < 8 && hs[i] == h;
      assert NeighborsOf(l)[i] == m;
    }
    if m in NeighborsOf(l) {
      var i :| 0 <= i < 8 && NeighborsOf(l)[i] == m;
      assert hs[i] in hs;
    }
  }

  /** `cardinal_headings`: north, east, south, west. */
  const CardinalHeadings: seq<Point> := [North, East, South, West]

  /** `cardinal_neighbors`: `l` plus each cardinal heading. */
  function CardinalNeighborsOf(l: Point): (r: seq<Point>)
    ensures |r| == 4
    ensures forall i :: 0 <= i < 4 ==> r[i] == l.Plus(CardinalHeadings[i])
  {
    seq(4, i requires 0 <= i < 4 => l.Plus(CardinalHeadings[i]))
  }

  function ManhattanDistance(a: Point, b: Point): nat {
    Abs(a.x - b.x) + Abs(a.y - b.y)
  }

  /** The cardinal neighbours of `l` are the locations one step away. */
  lemma CardinalNeighborsAtDistanceOne(l: Point, m: Point)
    ensures m in CardinalNeighborsOf(l) <==> ManhattanDistance(l, m) == 1
  {
    var r := CardinalNeighborsOf(l);
    if ManhattanDistance(l, m) == 1 {
      if m.x == l.x + 1 {
        assert r[1] == m;
      } else if m.x == l.x - 1 {
        assert r[3] == m;
      } else if m.y == l.y + 1 {
        assert r[2] == m;
      } else {
        assert r[0] == m;
      }
    }
  }

  // ---- Cells ----

  /** A `Cell`: a location together with the grid it belongs to. Two cells
      are equal when both the location and the grid are (Rust compares the
      grid by address), which is the datatype's own equality here. */
  datatype Cell<T> = Cell(grid: Grid<T>, location: Point) {
    /** `Cell::contents`. */
    function Contents(): T
      reads grid
      requires grid.Valid() && grid.InBounds(location)
    {
      grid.At(location)
    }

    /** `offset`: the cell `(dx, dy)` away, if it is on the grid. */
    function Offset(dx: int, dy: int): (r: Option<Cell<T>>)
      ensures r.Some? <==> grid.InBounds(Point(location.x + dx, location.y + dy))
      ensures r.Some? ==> r.value.grid == grid && r.value.location == Point(location.x + dx, location.y + dy)
    {
      grid.CellAt(location.Plus(Point(dx, dy)))
    }

    /** `Cell::neighbors`: the adjacent cells on the grid. */
    function Neighbors(): (r: seq<Cell<T>>)
      ensures forall i :: 0 <= i < |r| ==> r[i].grid == grid && grid.InBounds(r[i].location) && r[i].location in NeighborsOf(location)
      ensures forall l :: l in NeighborsOf(location) && grid.InBounds(l) ==> Cell(grid, l) in r
    {
      OnGrid(grid, NeighborsOf(location))
    }

    /** `Cell::cardinal_neighbors`: the cells one step away on the grid. */
    function CardinalNeighbors(): (r: seq<Cell<T>>)
      ensures forall i :: 0 <= i < |r| ==> r[i].grid == grid && grid.InBounds(r[i].location) && r[i].location in CardinalNeighborsOf(location)
      ensures forall l :: l in CardinalNeighborsOf(location) && grid.InBounds(l) ==> Cell(grid, l) in r
    {
      OnGrid(grid, CardinalNeighborsOf(location))
    }

    /** `Ord for Cell`: by x, then y, then the grids' addresses, which the
        caller supplies as `address`. */
    function Compare(other: Cell<T>, address: Grid<T> -> nat): Ordering {
      CompareInt(location.x, other.location.x)
        .Then(CompareInt(location.y, other.location.y))
        .Then(CompareInt(address(grid), address(other.grid)))
    }
  }

  /** The cells `grid.cell` gives for `locations`, in order, skipping those
      off the grid (the `flat_map` in `Cell::neighbors`). */
  function OnGrid<T>(g: Grid<T>, locations: seq<Point>): (r: seq<Cell<T>>)
    ensures |r| <= |locations|
    ensures forall i :: 0 <= i < |r| ==> r[i].grid == g && g.InBounds(r[i].location) && r[i].location in locations
    ensures forall l :: l in locations && g.InBounds(l) ==> Cell(g, l) in r
  {
    if locations == [] then []
    else
      var rest := OnGrid(g, locations[1..]);
      match g.CellAt(locations[0])
      case Some(c) => [c] + rest
      case None => rest
  }

  /** The neighbouring cells of a cell are the adjacent on-grid cells. */
  lemma CellNeighborsAdjacent<T>(c: Cell<T>, d: Cell<T>)
    ensures d in c.Neighbors() <==> d.grid == c.grid && c.grid.InBounds(d.location) && Adjacent(c.location, d.location)
  {
    NeighborsAdjacent(c.location, d.location);
  }

  /** With an injective address, `Compare` says `Equal` exactly for equal
      cells, and swapping the arguments reverses the result. */
  lemma CompareMeaning<T>(a: Cell<T>, b: Cell<T>, address: Grid<T> -> nat)
    requires forall g, h :: address(g) == address(h) ==> g == h
    ensures a.Compare(b, address) == Equal <==> a == b
    ensures b.Compare(a, address) == a.Compare(b, address).Reverse()
  {
  }

  /** `Compare` is transitive. */
  lemma CompareTransitive<T>(a: Cell<T>, b: Cell<T>, c: Cell<T>, address: Grid<T> -> nat)
    requires a.Compare(b, address) == Less && b.Compare(c, address) == Less
    ensures a.Compare(c, address) == Less
  {
  }

  // ---- Walks ----

  /** The location `k` steps of `d` away from `start`. */
  function Ahead(start: Point, d: Point, k: nat): Point {
    Point(start.x + k * d.x, start.y + k * d.y)
  }

  /** The iterators `walk` and `walk_inclusive` return. `cell` is the last
      cell yielded (the start cell before the first call); each call steps by
      `(dx, dy)` and ends at the first step off the grid. The inclusive walk
      yields the start cell first. */
  class Walk<T> {
    var cell: Cell<T>
    var yieldStart: bool
    const dx: int
    const dy: int
    ghost const start: Point
    ghost var steps: nat

    ghost predicate Valid()
      reads this
    {
      cell.location == Ahead(start, Point(dx, dy), steps) && (yieldStart ==> steps == 0)
    }

    /** `Cell::walk` (`inclusive` false) and `Cell::walk_inclusive`. */
    constructor (from: Cell<T>, dx: int, dy: int, inclusive: bool)
      ensures Valid() && cell == from && start == from.location && steps == 0
      ensures this.dx == dx && this.dy == dy && yieldStart == inclusive
    {
      cell := from;
      this.dx := dx;
      this.dy := dy;
      yieldStart := inclusive;
      start := from.location;
      steps := 0;
    }

    /** The next cell: the start cell if it is still owed, otherwise the
        cell one step further on, or `None` once that step leaves the
        grid. */
    method Next() returns (r: Option<Cell<T>>)
      requires Valid()
      modifies this
      ensures Valid() && !yieldStart && cell.grid == old(cell.grid)
      ensures old(yieldStart) ==> r == Some(cell) && steps == 0 && cell == old(cell)
      ensures !old(yieldStart) ==> (r.Some? <==> cell.grid.InBounds(Ahead(start, Point(dx, dy), old(steps) + 1)))
      ensures !old(yieldStart) && r.Some? ==> steps == old(steps) + 1 && r == Some(cell)
      ensures r.None? ==> steps == old(steps) && cell == old(cell)
    {
      if yieldStart {
        yieldStart := false;
        return Some(cell);
      }
      var next := cell.Offset(dx, dy);
      if next.Some? {
        cell := next.value;
        steps := steps + 1;
        return Some(cell);
      }
      return None;
    }
  }

  /** A walk with a non-zero step ends: no more than `width + height` steps
      from an on-grid start stay on the grid. */
  lemma WalkEnds<T>(g: Grid<T>, start: Point, d: Point, k: nat)
    requires d != Point(0, 0) && g.InBounds(start) && g.InBounds(Ahead(start, d, k))
    ensures k < g.width + g.height
  {
    if d.x != 0 {
      assert k <= Abs(k * d.x) by { MulAbs(k, d.x); }
    } else {
      assert k <= Abs(k * d.y) by { MulAbs(k, d.y); }
    }
  }

  lemma MulAbs(k: nat, a: int)
    requires a != 0
    ensures k <= Abs(k * a)
  {
    if a > 0 {
      MulLe(1, a, k);
    } else {
      MulLe(1, -a, k);
      assert k * a == -(k * -a);
    }
  }

  // ---- Regions ----

  /** Each member of `locs` plus each heading, where that leaves `locs`. */
  function Frontier(locs: set<Point>): set<Point> {
    set l, h | l in locs && h in AllHeadings() && l.Plus(h) !in locs :: l.Plus(h)
  }

  lemma FrontierMeaning(locs: set<Point>, m: Point)
    ensures m in Frontier(locs) <==> m !in locs && exists l :: l in locs && Adjacent(l, m)
  {
    if m in Frontier(locs) {
      var l, h :| l in locs && h in AllHeadings() && l.Plus(h) !in locs && l.Plus(h) == m;
      AllHeadingsMembers(h);
      assert Adjacent(l, m);
    }
    if m !in locs && exists l :: l in locs && Adjacent(l, m) {
      var l :| l in locs && Adjacent(l, m);
      var h := m.Minus(l);
      AllHeadingsMembers(h);
      assert l.Plus(h) == m;
    }
  }

  /** `Region`: a set of locations that grows by `insert`. */
  class Region {
    var locations: set<Point>

    constructor ()
      ensures locations == {}
    {
      locations := {};
    }

    method Insert(l: Point)
      modifies this
      ensures locations == old(locations) + {l}
    {
      locations := locations + {l};
    }

    predicate Contains(l: Point)
      reads this
    {
      l in locations
    }

    /** `iter`: each member once, in some order. */
    method Iter() returns (r: seq<Point>)
      ensures forall l :: l in r <==> l in locations
      ensures NoDuplicates(r)
    {
      r := [];
      var rest := locations;
      while rest != {}
        invariant rest <= locations
        invariant forall l :: l in r <==> l in locations && l !in rest
        invariant NoDuplicates(r)
        decreases |rest|
      {
        var l :| l in rest;
        r := r + [l];
        rest := rest - {l};
      }
    }

    /** `Region::neighbors`: the locations outside the region adjacent to a
        member, each once. */
    function Neighbors(): (r: set<Point>)
      reads this
      ensures forall m :: m in r <==> m !in locations && exists l :: l in locations && Adjacent(l, m)
    {
      assert forall m :: m in Frontier(locations) <==> m !in locations && exists l :: l in locations && Adjacent(l, m) by {
        forall m ensures m in Frontier(locations) <==> m !in locations && exists l :: l in locations && Adjacent(l, m) {
          FrontierMeaning(locations, m);
        }
      }
      Frontier(locations)
    }

    function Len(): nat
      reads this
    {
      |locations|
    }
  }

  // ---- Faces ----

  /** A `Face`: the fence segment between two cells. A vertical face runs
      north-south and `start` is the cell to its right; a horizontal one
      runs east-west and `start` is the cell below it. */
  datatype Face = Face(vertical: bool, start: Point)

  /** The headings `Face::new` accepts (its two `assert!`s): one step along
      one axis. */
  predicate IsCardinal(h: Point) {
    (h.x == 0 || h.y == 0) && (Abs(h.x) == 1 || Abs(h.y) == 1)
  }

  /** `touching_locations`: the two cells on either side of the face. */
  function TouchingLocations(f: Face): (r: seq<Point>)
    ensures |r| == 2 && r[0] == f.start
    ensures ManhattanDistance(r[0], r[1]) == 1
  {
    [f.start, if f.vertical then f.start.Plus(Point(-1, 0)) else f.start.Plus(Point(0, -1))]
  }

  /** `Face::new`: the face crossed when stepping from `l` by `h`; it lies
      between exactly those two cells. */
  function NewFace(l: Point, h: Point): (f: Face)
    requires IsCardinal(h)
    ensures f.vertical <==> h.y == 0
    ensures {TouchingLocations(f)[0], TouchingLocations(f)[1]} == {l, l.Plus(h)}
  {
    if h.x == 0 then
      Face(false, if h.y == -1 then l else l.Plus(Point(0, 1)))
    else
      Face(true, if h.x == -1 then l else l.Plus(Point(1, 0)))
  }

  /** `Face::new` with its two `assert!`s: a heading that is not one step
      along one axis panics; any other gives the face between `l` and
      `l + h`. */
  function MakeFace(l: Point, h: Point): (r: Outcome<Face>)
    ensures r.Panic? <==> !IsCardinal(h)
    ensures r.Ok? ==> r.value == NewFace(l, h)
    ensures r.Ok? ==> {TouchingLocations(r.value)[0], TouchingLocations(r.value)[1]} == {l, l.Plus(h)}
  {
    if !(h.x == 0 || h.y == 0) then Panic
    else if !(Abs(h.x) == 1 || Abs(h.y) == 1) then Panic
    else Ok(NewFace(l, h))
  }

  /** The same face seen from the other side. */
  lemma FaceNormalization(l: Point, h: Point)
    requires IsCardinal(h)
    ensures IsCardinal(h.Negated())
    ensures NewFace(l, h) == NewFace(l.Plus(h), h.Negated())
  {
  }

  /** A face is determined by the pair of cells it separates. */
  lemma FaceIdentity(a: Point, h: Point, b: Point, k: Point)
    requires IsCardinal(h) && IsCardinal(k)
    ensures NewFace(a, h) == NewFace(b, k) <==> {a, a.Plus(h)} == {b, b.Plus(k)}
  {
    var f, g := NewFace(a, h), NewFace(b, k);
    if {a, a.Plus(h)} == {b, b.Plus(k)} {
      assert {TouchingLocations(f)[0], TouchingLocations(f)[1]} == {TouchingLocations(g)[0], TouchingLocations(g)[1]};
      assert TouchingLocations(f)[0] in {TouchingLocations(g)[0], TouchingLocations(g)[1]};
    }
  }

  /** `same_direction_neighbors`: the faces of the same orientation one step
      either way along the fence. */
  function SameDirectionNeighbors(f: Face): (r: seq<Face>)
    ensures |r| == 2 && r[0].vertical == f.vertical && r[1].vertical == f.vertical
  {
    var along := if f.vertical then Point(0, 1) else Point(1, 0);
    [Face(f.vertical, f.start.Plus(along)), Face(f.vertical, f.start.Minus(along))]
  }

  /** The fence neighbours of the face crossed from `l` by `h` are the faces
      crossed by `h` from the two cells beside `l` across `h`. */
  lemma FaceNeighbors(l: Point, h: Point)
    requires IsCardinal(h)
    ensures var across := Point(Abs(h.y), Abs(h.x));
      var r := SameDirectionNeighbors(NewFace(l, h));
      {r[0], r[1]} == {NewFace(l.Plus(across), h), NewFace(l.Minus(across), h)}
  {
  }
}
