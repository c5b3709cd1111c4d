// src/day09.rs: red tiles at 2-D points; part 1 is the largest rectangle
// (counted in tiles, both corners included) with two of them at opposite
// corners.

module Day09 {
  import opened Base
  import opened Text

  /** `(isize, isize)`. */
  datatype Tile = Tile(x: int, y: int)

  /** One line: `split(",")`, each piece `parse().unwrap()`, and
      `collect_tuple().unwrap()`, which panics unless there are exactly two
      pieces. */
  function ParseTile(line: string): (r: Outcome<Tile>)
    ensures r.Ok? <==> (|Split(line, ',')| == 2
      && ParseInt(Split(line, ',')[0]).Some? && ParseInt(Split(line, ',')[1]).Some?)
    ensures r.Ok? ==> r.value == Tile(ParseInt(Split(line, ',')[0]).value, ParseInt(Split(line, ',')[1]).value)
  {
    var c := Split(line, ',');
    if |c| != 2 then Panic
    else
      match (ParseInt(c[0]), ParseInt(c[1]))
      case (Some(x), Some(y)) => Ok(Tile(x, y))
      case _ => Panic
  }

  /** `((a.0 - b.0 + 1) * (a.1 - b.1 + 1)).abs()`, exactly as written: the
      `+ 1` is added to the signed difference, so when the two tiles lie
      on a falling diagonal neither order of the pair counts the tiles of
      their rectangle. Taken in the order where both differences are
      non-negative, it does give the intended area. */
  function AreaAsWritten(a: Tile, b: Tile): (r: nat)
    ensures a.x >= b.x && a.y >= b.y ==> r == Area(a, b)
  {
    Abs((a.x - b.x + 1) * (a.y - b.y + 1))
  }

  /** The number of tiles of the rectangle with corners `a` and `b`, both
      included: the intended area. */
  function Area(a: Tile, b: Tile): (r: nat)
    ensures r >= 1
  {
    (Abs(a.x - b.x) + 1) * (Abs(a.y - b.y) + 1)
  }

  /** The intended area does not depend on the order of the corners, and
      a tile alone spans one tile. */
  lemma AreaSymmetric(a: Tile, b: Tile)
    ensures Area(a, b) == Area(b, a)
    ensures Area(a, a) == 1
  {
  }

  /** The areas of `a` with every tile of `tiles`, in order. */
  function AreasWith(a: Tile, tiles: seq<Tile>, area: (Tile, Tile) -> nat): (r: seq<nat>)
    ensures |r| == |tiles| && forall k :: 0 <= k < |tiles| ==> r[k] == area(a, tiles[k])
  {
    seq(|tiles|, k requires 0 <= k < |tiles| => area(a, tiles[k]))
  }

  /** The largest element of a non-empty sequence: `Iterator::max`. */
  function MaxOf(s: seq<nat>): (m: nat)
    requires s != []
    ensures m in s && forall k :: 0 <= k < |s| ==> s[k] <= m
  {
    if |s| == 1 then s[0]
    else
      var rest := MaxOf(s[1..]);
      assert forall k :: 1 <= k < |s| ==> s[k] == s[1..][k - 1];
      if s[0] >= rest then s[0] else rest
  }

  /** The area of every ordered pair, `cartesian_product` order: first
      tile outer, from `i` on. */
  function Areas(tiles: seq<Tile>, i: nat, area: (Tile, Tile) -> nat): (r: seq<nat>)
    decreases |tiles| - i
  {
    if i >= |tiles| then [] else AreasWith(tiles[i], tiles, area) + Areas(tiles, i + 1, area)
  }

  /** The areas listed are exactly those of the ordered pairs whose first
      tile is at `i` or later. */
  lemma {:induction false} AreasMeaning(tiles: seq<Tile>, i: nat, area: (Tile, Tile) -> nat)
    ensures forall a :: a in Areas(tiles, i, area) <==>
      exists j, k :: i <= j < |tiles| && 0 <= k < |tiles| && a == area(tiles[j], tiles[k])
    decreases |tiles| - i
  {
    if i < |tiles| {
      AreasMeaning(tiles, i + 1, area);
      var row := AreasWith(tiles[i], tiles, area);
      forall a | a in row ensures exists k :: 0 <= k < |tiles| && a == area(tiles[i], tiles[k]) {
        var k :| 0 <= k < |row| && row[k] == a;
      }
      forall j, k | i <= j < |tiles| && 0 <= k < |tiles| ensures area(tiles[j], tiles[k]) in Areas(tiles, i, area) {
        if j == i {
          assert row[k] == area(tiles[j], tiles[k]);
        }
      }
    }
  }

  /** `part1` on parsed tiles: the largest area over all ordered pairs,
      self-pairs included; `max().unwrap()` panics when there are none. */
  function LargestArea(tiles: seq<Tile>, area: (Tile, Tile) -> nat): (r: Outcome<nat>)
    ensures r.Panic? <==> tiles == []
  {
    if tiles == [] then Panic
    else
      assert |AreasWith(tiles[0], tiles, area)| > 0;
      Ok(MaxOf(Areas(tiles, 0, area)))
  }

  /** `m` is the area of some ordered pair of `tiles` and no pair has a
      larger one. */
  predicate IsLargestArea(tiles: seq<Tile>, area: (Tile, Tile) -> nat, m: nat) {
    (exists j, k :: 0 <= j < |tiles| && 0 <= k < |tiles| && m == area(tiles[j], tiles[k]))
    && (forall j, k :: 0 <= j < |tiles| && 0 <= k < |tiles| ==> area(tiles[j], tiles[k]) <= m)
  }

  /** The answer is the area of some ordered pair and no pair has a larger
      one. */
  lemma LargestAreaMeaning(tiles: seq<Tile>, area: (Tile, Tile) -> nat)
    requires tiles != []
    ensures IsLargestArea(tiles, area, LargestArea(tiles, area).value)
  {
    var areas := Areas(tiles, 0, area);
    AreasMeaning(tiles, 0, area);
    var m := MaxOf(areas);
    forall j, k | 0 <= j < |tiles| && 0 <= k < |tiles| ensures area(tiles[j], tiles[k]) <= m {
      var a := area(tiles[j], tiles[k]);
      assert a in areas;
      var n :| 0 <= n < |areas| && areas[n] == a;
    }
  }

  /** With the written formula the answer is still at least 1, since each
      tile paired with itself gives 1. */
  lemma LargestAreaAsWrittenPositive(tiles: seq<Tile>)
    requires tiles != []
    ensures LargestArea(tiles, AreaAsWritten).value >= 1
  {
    LargestAreaMeaning(tiles, AreaAsWritten);
    assert AreaAsWritten(tiles[0], tiles[0]) == 1;
  }

  /** Tiles at (0,5) and (2,0) span a 3 by 6 rectangle of 18 tiles, but the
      written formula gives 6 for one order of the pair and 12 for the
      other, so the answer as written is 12. */
  lemma FallingDiagonal()
    ensures LargestArea([Tile(0, 5), Tile(2, 0)], AreaAsWritten) == Ok(12)
    ensures LargestArea([Tile(0, 5), Tile(2, 0)], Area) == Ok(18)
  {
    var tiles := [Tile(0, 5), Tile(2, 0)];
    assert AreaAsWritten(tiles[0], tiles[1]) == 6 && AreaAsWritten(tiles[1], tiles[0]) == 12;
    assert Areas(tiles, 2, AreaAsWritten) == [];
    var written := Areas(tiles, 0, AreaAsWritten);
    assert written == [1, 6, 12, 1];
    assert written[2] <= MaxOf(written);
    assert Areas(tiles, 2, Area) == [];
    var intended := Areas(tiles, 0, Area);
    assert intended == [1, 18, 18, 1];
    assert intended[1] <= MaxOf(intended);
  }

  /** The tiles of the input, one per line: panics as soon as a line does
      not parse. */
  function Tiles(input: string): (r: Outcome<seq<Tile>>)
    ensures r.Ok? <==> forall k :: 0 <= k < |Lines(input)| ==> ParseTile(Lines(input)[k]).Ok?
    ensures r.Ok? ==> |r.value| == |Lines(input)| && forall k :: 0 <= k < |r.value| ==> r.value[k] == ParseTile(Lines(input)[k]).value
  {
    var r := AllOk(Lines(input), ParseTile);
    assert r.Ok? ==> forall k :: 0 <= k < |Lines(input)| ==> ParseTile(Lines(input)[k]).Ok?;
    if r.Ok? then r
    else
      assert exists k :: 0 <= k < |Lines(input)| && !ParseTile(Lines(input)[k]).Ok?;
      r
  }

  /** `part1` with the given area formula: every line must parse, and
      `max().unwrap()` panics when there is no tile. */
  function LargestAreaOf(input: string, area: (Tile, Tile) -> nat): (r: Outcome<nat>)
    ensures r.Ok? <==> Lines(input) != [] && Tiles(input).Ok?
    ensures r.Ok? ==> IsLargestArea(Tiles(input).value, area, r.value)
  {
    var tiles := Tiles(input);
    if tiles.Panic? then Panic
    else
      var r := LargestArea(tiles.value, area);
      if r.Ok? then
        LargestAreaMeaning(tiles.value, area);
        r
      else r
  }

  /** `part1` as written: the largest value of the written formula over
      all ordered pairs of tiles, at least 1 from a tile paired with
      itself; the `as usize` of that non-negative maximum keeps its
      value. */
  function Part1(input: string): (r: Outcome<nat>)
    ensures r.Ok? <==> Lines(input) != [] && forall k :: 0 <= k < |Lines(input)| ==> ParseTile(Lines(input)[k]).Ok?
    ensures r.Ok? ==> IsLargestArea(Tiles(input).value, AreaAsWritten, r.value)
    ensures r.Ok? ==> r.value >= 1
  {
    var r := LargestAreaOf(input, AreaAsWritten);
    if r.Ok? then
      LargestAreaAsWrittenPositive(Tiles(input).value);
      r
    else r
  }

  /** `part1` with the intended area: the number of tiles of the largest
      rectangle with two tiles at opposite corners. */
  function Part1Intended(input: string): (r: Outcome<nat>)
    ensures r.Ok? <==> Lines(input) != [] && forall k :: 0 <= k < |Lines(input)| ==> ParseTile(Lines(input)[k]).Ok?
    ensures r.Ok? ==> IsLargestArea(Tiles(input).value, Area, r.value)
    ensures r.Ok? ==> r.value >= 1
  {
    LargestAreaOf(input, Area)
  }
}
