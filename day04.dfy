// src/day04.rs: rolls ('@') on a grid; a roll is accessible when fewer than
// four of its eight neighbours are rolls. Part 1 counts the accessible
// rolls; part 2 removes them round after round until none is accessible.

module Day04 {
  import opened Base
  import opened Text
  import opened Grids

  // ---- The grid as a value: its row-major contents and dimensions ----

  /** `is_roll` at an on-grid location. */
  predicate RollAt(w: nat, h: nat, cs: seq<char>, l: Point)
    requires |cs| == w * h
  {
    0 <= l.x < w && 0 <= l.y < h && (LocationsAt(w, h, l); cs[RowMajor(w, l)] == '@')
  }

  /** How many of `locations` are on-grid rolls. */
  function RollsAmong(w: nat, h: nat, cs: seq<char>, locations: seq<Point>): (n: nat)
    requires |cs| == w * h
    ensures n <= |locations|
  {
    if locations == [] then 0
    else
      var last := locations[|locations| - 1];
      RollsAmong(w, h, cs, locations[..|locations| - 1]) + (if RollAt(w, h, cs, last) then 1 else 0)
  }

  /** `accessible`'s filter on the cell at `l`: a roll with fewer than four
      rolls among its on-grid neighbours. */
  predicate AccessibleAt(w: nat, h: nat, cs: seq<char>, l: Point)
    requires |cs| == w * h
  {
    RollAt(w, h, cs, l) && RollsAmong(w, h, cs, NeighborsOf(l)) < 4
  }

  /** For each position of `cs`, whether its cell is accessible. */
  function Mask(w: nat, h: nat, cs: seq<char>): (m: seq<bool>)
    requires |cs| == w * h
    ensures |m| == |cs|
  {
    var locations := Locations(w, h);
    seq(|cs|, i requires 0 <= i < |cs| => AccessibleAt(w, h, cs, locations[i]))
  }

  /** Only rolls are marked. */
  lemma MaskMarksRolls(w: nat, h: nat, cs: seq<char>)
    requires |cs| == w * h
    ensures forall i :: 0 <= i < |cs| && Mask(w, h, cs)[i] ==> cs[i] == '@'
  {
    forall i | 0 <= i < |cs| && Mask(w, h, cs)[i] ensures cs[i] == '@' {
      LocationsIndex(w, h, i);
    }
  }

  function Trues(m: seq<bool>): nat {
    if m == [] then 0 else Trues(m[..|m| - 1]) + if m[|m| - 1] then 1 else 0
  }

  /** The entries of `locations` where `m` holds, in order. */
  function Select(locations: seq<Point>, m: seq<bool>): (r: seq<Point>)
    requires |locations| == |m|
    ensures |r| == Trues(m)
    ensures forall p :: p in r <==> exists i :: 0 <= i < |m| && m[i] && locations[i] == p
  {
    if m == [] then []
    else
      var n := |m| - 1;
      assert forall i :: 0 <= i < n ==> locations[..n][i] == locations[i] && m[..n][i] == m[i];
      Select(locations[..n], m[..n]) + if m[n] then [locations[n]] else []
  }

  /** The locations `accessible(grid).map(location).collect_vec()` lists:
      the accessible cells, row-major. */
  function AccessibleLocations(w: nat, h: nat, cs: seq<char>): (r: seq<Point>)
    requires |cs| == w * h
    ensures |r| == Trues(Mask(w, h, cs))
  {
    Select(Locations(w, h), Mask(w, h, cs))
  }

  /** A location is listed exactly when it is on the grid and its cell is a
      roll with fewer than four neighbouring rolls. */
  lemma AccessibleMeaning(w: nat, h: nat, cs: seq<char>, l: Point)
    requires |cs| == w * h
    ensures l in AccessibleLocations(w, h, cs) <==> 0 <= l.x < w && 0 <= l.y < h && AccessibleAt(w, h, cs, l)
  {
    var locations := Locations(w, h);
    var m := Mask(w, h, cs);
    if l in AccessibleLocations(w, h, cs) {
      var i :| 0 <= i < |m| && m[i] && locations[i] == l;
    }
    if 0 <= l.x < w && 0 <= l.y < h && AccessibleAt(w, h, cs, l) {
      LocationsAt(w, h, l);
      var i := RowMajor(w, l);
      assert m[i] && locations[i] == l;
    }
  }

  /** `Cell`s of `g` for the accessible locations (`accessible`). */
  function Accessible(g: Grid<char>): (r: seq<Cell<char>>)
    reads g
    requires g.Valid()
    ensures |r| == Trues(Mask(g.width, g.height, g.contents))
    ensures forall i :: 0 <= i < |r| ==> r[i].grid == g && r[i].location == AccessibleLocations(g.width, g.height, g.contents)[i]
  {
    var locations := AccessibleLocations(g.width, g.height, g.contents);
    seq(|locations|, i requires 0 <= i < |locations| => Cell(g, locations[i]))
  }

  /** `part1`: the number of accessible cells of the grid read from the
      lines; `new_with_lines` panics on ragged lines. */
  method Part1(input: string) returns (r: Outcome<nat>)
    ensures var lines := Lines(input);
      r.Panic? <==> !Rectangular(lines)
    ensures var lines := Lines(input);
      r.Ok? ==> (|Slices.Concat(lines)| == LinesWidth(lines) * |lines|
        && r.value == Trues(Mask(LinesWidth(lines), |lines|, Slices.Concat(lines))))
  {
    var grid := NewWithLines(Lines(input));
    if grid.Panic? {
      return Panic;
    }
    ConcatRectangular(Lines(input));
    return Ok(|Accessible(grid.value)|);
  }

  // ---- Rounds of removal ----

  function Rolls(cs: seq<char>): nat {
    if cs == [] then 0 else Rolls(cs[..|cs| - 1]) + if cs[|cs| - 1] == '@' then 1 else 0
  }

  /** `cs` with a space wherever `m` holds. */
  function Clear(cs: seq<char>, m: seq<bool>): (r: seq<char>)
    requires |m| == |cs|
    ensures |r| == |cs|
    ensures forall i :: 0 <= i < |cs| ==> r[i] == if m[i] then ' ' else cs[i]
  {
    seq(|cs|, i requires 0 <= i < |cs| => if m[i] then ' ' else cs[i])
  }

  /** Clearing marked rolls removes exactly as many rolls as are marked. */
  lemma {:induction false} ClearCount(cs: seq<char>, m: seq<bool>)
    requires |m| == |cs|
    requires forall i :: 0 <= i < |m| && m[i] ==> cs[i] == '@'
    ensures Rolls(Clear(cs, m)) + Trues(m) == Rolls(cs)
  {
    if cs != [] {
      var n := |cs| - 1;
      assert Clear(cs, m)[..n] == Clear(cs[..n], m[..n]);
      ClearCount(cs[..n], m[..n]);
    }
  }

  /** One round of removal: every accessible roll becomes a space. The
      contents keep their size and lose exactly the accessible rolls. */
  function Round(w: nat, h: nat, cs: seq<char>): (r: seq<char>)
    requires |cs| == w * h
    ensures |r| == |cs|
    ensures Rolls(r) + Trues(Mask(w, h, cs)) == Rolls(cs)
  {
    MaskMarksRolls(w, h, cs);
    ClearCount(cs, Mask(w, h, cs));
    Clear(cs, Mask(w, h, cs))
  }

  /** `remove_accessible` on the grid contents `cs`: the rolls removed over
      all rounds and the contents left when nothing is accessible. */
  function RemoveAll(w: nat, h: nat, cs: seq<char>): (r: (nat, seq<char>))
    requires |cs| == w * h
    ensures |r.1| == |cs|
    decreases Rolls(cs)
  {
    var n := Trues(Mask(w, h, cs));
    if n == 0 then (0, cs)
    else
      var rest := RemoveAll(w, h, Round(w, h, cs));
      (n + rest.0, rest.1)
  }

  /** Removal ends with nothing accessible, and the count is the number of
      rolls that went: at most the rolls there were. */
  lemma {:induction false} RemoveAllMeaning(w: nat, h: nat, cs: seq<char>)
    requires |cs| == w * h
    ensures Trues(Mask(w, h, RemoveAll(w, h, cs).1)) == 0
    ensures RemoveAll(w, h, cs).0 + Rolls(RemoveAll(w, h, cs).1) == Rolls(cs)
    ensures RemoveAll(w, h, cs).0 <= Rolls(cs)
    decreases Rolls(cs)
  {
    if Trues(Mask(w, h, cs)) != 0 {
      RemoveAllMeaning(w, h, Round(w, h, cs));
    }
  }

  /** The `for loc in &to_take { grid.set(*loc, ' ') }` loop: every listed
      location becomes a space, every other cell keeps its contents. */
  method Blank(grid: Grid<char>, toTake: seq<Point>)
    requires grid.Valid()
    requires forall p :: p in toTake ==> grid.InBounds(p)
    modifies grid
    ensures grid.Valid()
    ensures forall k :: 0 <= k < |grid.contents| ==>
      grid.contents[k] == if Locations(grid.width, grid.height)[k] in toTake then ' ' else old(grid.contents)[k]
  {
    ghost var before := grid.contents;
    ghost var locations := Locations(grid.width, grid.height);
    var i := 0;
    while i < |toTake|
      invariant 0 <= i <= |toTake|
      invariant grid.Valid()
      invariant forall k :: 0 <= k < |before| ==> grid.contents[k] == if locations[k] in toTake[..i] then ' ' else before[k]
    {
      var l := toTake[i];
      assert l in toTake;
      LocationsAt(grid.width, grid.height, l);
      var blanked := grid.Set(l, ' ');
      forall k | 0 <= k < |before|
        ensures grid.contents[k] == if locations[k] in toTake[..i + 1] then ' ' else before[k]
      {
        LocationsIndex(grid.width, grid.height, k);
        assert toTake[..i + 1] == toTake[..i] + [l];
      }
      i := i + 1;
    }
    assert toTake[..i] == toTake;
  }

  /** Blanking the accessible locations clears exactly the marked cells. */
  lemma BlankIsClear(w: nat, h: nat, cs: seq<char>, after: seq<char>)
    requires |cs| == w * h && |after| == |cs|
    requires forall k :: 0 <= k < |cs| ==> after[k] == if Locations(w, h)[k] in AccessibleLocations(w, h, cs) then ' ' else cs[k]
    ensures after == Round(w, h, cs)
  {
    forall k | 0 <= k < |cs| ensures after[k] == Round(w, h, cs)[k] {
      LocationsIndex(w, h, k);
      AccessibleMeaning(w, h, cs, Locations(w, h)[k]);
    }
  }

  /** How `RemoveAll` takes one round off: nothing to remove, or the
      accessible rolls of this round plus the rounds that follow. */
  lemma RemoveAllStep(w: nat, h: nat, cs: seq<char>)
    requires |cs| == w * h
    ensures Trues(Mask(w, h, cs)) == 0 ==> RemoveAll(w, h, cs) == (0, cs)
    ensures Trues(Mask(w, h, cs)) != 0 ==> Rolls(Round(w, h, cs)) < Rolls(cs)
    ensures Trues(Mask(w, h, cs)) != 0 ==>
      RemoveAll(w, h, cs) == (Trues(Mask(w, h, cs)) + RemoveAll(w, h, Round(w, h, cs)).0, RemoveAll(w, h, Round(w, h, cs)).1)
  {
    var n := Trues(Mask(w, h, cs));
    if n != 0 {
      var rest := RemoveAll(w, h, Round(w, h, cs));
      assert RemoveAll(w, h, cs) == (n + rest.0, rest.1);
    }
  }

  /** The blanking loop of `remove_accessible` run on the accessible
      locations: one round of removal, in place. */
  method BlankAccessible(grid: Grid<char>, toTake: seq<Point>)
    requires grid.Valid() && toTake == AccessibleLocations(grid.width, grid.height, grid.contents)
    modifies grid
    ensures grid.Valid()
    ensures grid.contents == Round(grid.width, grid.height, old(grid.contents))
  {
    ghost var before := grid.contents;
    forall p | p in toTake ensures grid.InBounds(p) {
      AccessibleMeaning(grid.width, grid.height, before, p);
    }
    Blank(grid, toTake);
    BlankIsClear(grid.width, grid.height, before, grid.contents);
  }

  /** `remove_accessible`: collect the accessible locations, blank each one
      with `set`, and recurse until a round finds none. */
  method RemoveAccessible(grid: Grid<char>) returns (r: nat)
    requires grid.Valid()
    modifies grid
    ensures grid.Valid()
    ensures (r, grid.contents) == RemoveAll(grid.width, grid.height, old(grid.contents))
    decreases Rolls(grid.contents)
  {
    var w, h := grid.width, grid.height;
    ghost var before := grid.contents;
    var toTake := AccessibleLocations(w, h, grid.contents);
    RemoveAllStep(w, h, before);
    if |toTake| == 0 {
      return 0;
    }
    BlankAccessible(grid, toTake);
    ghost var next := grid.contents;
    var rest := RemoveAccessible(grid);
    assert (rest, grid.contents) == RemoveAll(w, h, next);
    assert RemoveAll(w, h, before) == (|toTake| + rest, grid.contents);
    return |toTake| + rest;
  }

  /** `part2`: the rolls removed from the grid read from the lines. */
  method Part2(input: string) returns (r: Outcome<nat>)
    ensures var lines := Lines(input);
      r.Panic? <==> !Rectangular(lines)
    ensures var lines := Lines(input);
      r.Ok? ==> (|Slices.Concat(lines)| == LinesWidth(lines) * |lines|
        && r.value == RemoveAll(LinesWidth(lines), |lines|, Slices.Concat(lines)).0)
  {
    var grid := NewWithLines(Lines(input));
    if grid.Panic? {
      return Panic;
    }
    ConcatRectangular(Lines(input));
    var n := RemoveAccessible(grid.value);
    return Ok(n);
  }
}
