// src/day12.rs: presents of given shapes must go under trees in regions of
// given sizes. The input is the shapes, one blank-line separated section
// each, then a section of requests "WxH: n0 n1 ...", one count per shape.
// Part 1 settles each request by two bounds and counts the ones that fit.

module Day12 {
  import opened Base
  import opened Text

  /** The number of '#' cells in one line of a shape. */
  function Cells(line: string): (n: nat)
    ensures n <= |line|
  {
    multiset(line)['#']
  }

  /** The size of one shape: the '#' cells of its section's lines after
      the first, which holds the shape's index. */
  function ShapeSize(section: string): nat {
    var lines := Lines(section);
    if lines == [] then 0
    else Sum(seq(|lines| - 1, k requires 0 <= k < |lines| - 1 => Cells(lines[k + 1])))
  }

  /** A shape drawn in at most three rows of at most three characters has
      at most 9 cells: it fits the 3 by 3 box the second bound allows
      for each present. */
  lemma BoxedShape(section: string)
    requires |Lines(section)| <= 4
    requires forall k :: 1 <= k < |Lines(section)| ==> |Lines(section)[k]| <= 3
    ensures ShapeSize(section) <= 9
  {
    var lines := Lines(section);
    if lines != [] {
      var cells := seq(|lines| - 1, k requires 0 <= k < |lines| - 1 => Cells(lines[k + 1]));
      SumAtMost(cells, 3);
    }
  }

  /** One request: the region's width and height and how many presents of
      each shape go in it. */
  datatype Request = Request(width: nat, height: nat, needs: seq<nat>)

  /** "WxH: n0 n1 ...": exactly one ':', exactly one 'x' before it with a
      number on each side, and the counts after it separated by
      whitespace. */
  function ParseRequest(line: string): (r: Outcome<Request>)
    ensures r.Ok? <==> (|Split(line, ':')| == 2 && |Split(Split(line, ':')[0], 'x')| == 2
        && ParseNat(Split(Split(line, ':')[0], 'x')[0]).Some? && ParseNat(Split(Split(line, ':')[0], 'x')[1]).Some?
        && forall k :: 0 <= k < |Words(Trim(Split(line, ':')[1]), IsWhitespace)| ==> ParseNat(Words(Trim(Split(line, ':')[1]), IsWhitespace)[k]).Some?)
    ensures r.Ok? ==> (r.value.width == ParseNat(Split(Split(line, ':')[0], 'x')[0]).value
        && r.value.height == ParseNat(Split(Split(line, ':')[0], 'x')[1]).value
        && |r.value.needs| == |Words(Trim(Split(line, ':')[1]), IsWhitespace)|
        && forall k :: 0 <= k < |r.value.needs| ==> r.value.needs[k] == ParseNat(Words(Trim(Split(line, ':')[1]), IsWhitespace)[k]).value)
  {
    var parts := Split(line, ':');
    if |parts| != 2 then Panic
    else
      var dims := Split(parts[0], 'x');
      if |dims| != 2 || ParseNat(dims[0]).None? || ParseNat(dims[1]).None? then Panic
      else
        match UnwrapNats(Words(Trim(parts[1]), IsWhitespace))
        case Ok(needs) => Ok(Request(ParseNat(dims[0]).value, ParseNat(dims[1]).value, needs))
        case Panic => Panic
  }

  /** `total_filled`: the cells all the presents cover, pairing each count
      with its shape's size; `zip` stops at the shorter list. */
  function Filled(needs: seq<nat>, sizes: seq<nat>): nat {
    if needs == [] || sizes == [] then 0
    else needs[0] * sizes[0] + Filled(needs[1..], sizes[1..])
  }

  /** `total_space`: a 3 by 3 box for every present. */
  function Space(needs: seq<nat>): nat {
    if needs == [] then 0 else needs[0] * 9 + Space(needs[1..])
  }

  lemma MulAtMost(a: nat, b: nat, c: nat)
    requires b <= c
    ensures a * b <= a * c
  {
  }

  /** With every shape inside its 3 by 3 box, the cells the presents cover
      never exceed the boxes they are given. */
  lemma {:induction false} FilledWithinSpace(needs: seq<nat>, sizes: seq<nat>)
    requires forall k :: 0 <= k < |sizes| ==> sizes[k] <= 9
    ensures Filled(needs, sizes) <= Space(needs)
  {
    if needs != [] && sizes != [] {
      FilledWithinSpace(needs[1..], sizes[1..]);
      MulAtMost(needs[0], sizes[0], 9);
    } else if needs != [] {
      FilledWithinSpace(needs[1..], sizes);
    }
  }

  /** One request: 0 when the presents have more cells than the region
      (they cannot fit), 1 when their boxes fit side by side (they surely
      fit), and `panic!("unknown")` in between. */
  function Score(request: Request, sizes: seq<nat>): (r: Outcome<nat>)
    ensures var area := request.width * request.height;
      (r == Ok(0) <==> Filled(request.needs, sizes) > area)
      && (r == Ok(1) <==> Filled(request.needs, sizes) <= area && Space(request.needs) <= area)
      && (r.Panic? <==> Filled(request.needs, sizes) <= area < Space(request.needs))
  {
    var area := request.width * request.height;
    if Filled(request.needs, sizes) > area then Ok(0)
    else if Space(request.needs) <= area then Ok(1)
    else Panic
  }

  /** When every shape fits its box, a fitting request has room for all of
      its presents' cells, and a rejected one has no room for the boxes
      either: the two bounds never disagree. */
  lemma ScoreConsistent(request: Request, sizes: seq<nat>)
    requires forall k :: 0 <= k < |sizes| ==> sizes[k] <= 9
    ensures Score(request, sizes) == Ok(1) ==> Filled(request.needs, sizes) <= request.width * request.height
    ensures Score(request, sizes) == Ok(0) ==> Space(request.needs) > request.width * request.height
  {
    FilledWithinSpace(request.needs, sizes);
  }

  /** One request line, parsed and settled. */
  function Judge(sizes: seq<nat>, line: string): (r: Outcome<nat>)
    ensures r.Ok? ==> r.value <= 1
  {
    match ParseRequest(line)
    case Ok(request) => Score(request, sizes)
    case Panic => Panic
  }

  /** The shape sizes of all sections but the last. */
  function Sizes(sections: seq<string>): (r: seq<nat>)
    requires |sections| >= 1
    ensures |r| == |sections| - 1
    ensures forall k :: 0 <= k < |r| ==> r[k] == ShapeSize(sections[k])
  {
    seq(|sections| - 1, k requires 0 <= k < |sections| - 1 => ShapeSize(sections[k]))
  }

  /** Each request line judged against the shape sizes. */
  function Judges(sizes: seq<nat>, lines: seq<string>): (r: seq<Outcome<nat>>)
    ensures |r| == |lines|
    ensures forall k :: 0 <= k < |lines| ==> r[k] == Judge(sizes, lines[k])
  {
    seq(|lines|, k requires 0 <= k < |lines| => Judge(sizes, lines[k]))
  }

  /** Every request line parses and is decided one way or the other. */
  predicate AllDecided(sizes: seq<nat>, lines: seq<string>) {
    forall k :: 0 <= k < |lines| ==> Judge(sizes, lines[k]).Ok?
  }

  /** The requests of the last section settled one by one; the answer
      is the number that fit. */
  function SettleAll(sizes: seq<nat>, lines: seq<string>): (r: Outcome<nat>)
    ensures r.Ok? <==> AllDecided(sizes, lines)
    ensures r.Ok? ==> r.value == |set k | 0 <= k < |lines| && Judges(sizes, lines)[k] == Ok(1)|
    ensures r.Ok? ==> r.value <= |lines|
  {
    match AllOk(lines, line => Judge(sizes, line))
    case Ok(scores) =>
      SumAtMost(scores, 1);
      CountOfOnes(lines, Judges(sizes, lines), scores);
      Ok(Sum(scores))
    case Panic => Panic
  }

  /** The shape sizes: one per blank-line separated section but the last. */
  function ShapeSizes(input: string): (r: seq<nat>)
    ensures |r| == |SplitBlankLines(input)| - 1
  {
    Sizes(SplitBlankLines(input))
  }

  /** The request lines: the lines of the last section. */
  function Requests(input: string): seq<string> {
    var sections := SplitBlankLines(input);
    Lines(sections[|sections| - 1])
  }

  /** `part1`: the input split on blank lines, the shape sizes from all
      sections but the last, the requests from the last. */
  function Part1(input: string): (r: Outcome<nat>)
    ensures r.Ok? <==> AllDecided(ShapeSizes(input), Requests(input))
    ensures r.Ok? ==> r.value == |set k | 0 <= k < |Requests(input)| && Judges(ShapeSizes(input), Requests(input))[k] == Ok(1)|
    ensures r.Ok? ==> r.value <= |Requests(input)|
  {
    SettleAll(ShapeSizes(input), Requests(input))
  }
}
