// src/day01.rs: a dial showing -99..99 starts at 50 and is turned left or
// right by each line of the input; part 1 counts how often it comes to rest
// on 0.

module Day01 {
  import opened Base
  import opened Text

  /** Rust's `% 100` on a signed integer truncates: the remainder takes the
      sign of the dividend and differs from it by a multiple of 100. */
  function Rem100(a: int): (r: int)
    ensures -100 < r < 100
    ensures (a - r) % 100 == 0
    ensures a >= 0 ==> r >= 0
    ensures a <= 0 ==> r <= 0
  {
    if a >= 0 then a % 100 else -((-a) % 100)
  }

  /** One line: `split_at(1)` (which panics on an empty line), then "L"
      for a negative or "R" for a positive turn by the `isize` that
      follows (the source multiplies it by -1 or 1). Any other letter and
      an amount that does not parse panic. */
  function Rotation(line: string): (r: Outcome<int>)
    ensures r.Ok? <==> |line| >= 1 && (line[0] == 'L' || line[0] == 'R') && ParseInt(line[1..]).Some?
    ensures r.Ok? && line[0] == 'L' ==> r.value == -ParseInt(line[1..]).value
    ensures r.Ok? && line[0] == 'R' ==> r.value == ParseInt(line[1..]).value
  {
    if |line| < 1 then Panic
    else
      var amount := ParseInt(line[1..]);
      if amount.None? then Panic
      else if line[0] == 'L' then Ok(-amount.value)
      else if line[0] == 'R' then Ok(amount.value)
      else Panic
  }

  predicate AllWellFormed(lines: seq<string>) {
    forall k :: 0 <= k < |lines| ==> Rotation(lines[k]).Ok?
  }

  /** The turns of all lines, or a panic if one line is malformed. */
  function Rotations(lines: seq<string>): (r: Outcome<seq<int>>)
    ensures r.Ok? <==> AllWellFormed(lines)
    ensures r.Ok? ==> |r.value| == |lines|
    ensures r.Ok? ==> forall k :: 0 <= k < |lines| ==> r.value[k] == Rotation(lines[k]).value
  {
    if lines == [] then Ok([])
    else
      var front := lines[..|lines| - 1];
      assert forall k :: 0 <= k < |front| ==> front[k] == lines[k];
      match (Rotations(front), Rotation(lines[|lines| - 1]))
      case (Ok(turns), Ok(turn)) => Ok(turns + [turn])
      case _ => Panic
  }

  /** Where the dial rests after the turns `moves`, from `start`. */
  function Dial(start: int, moves: seq<int>): int {
    if moves == [] then start
    else Rem100(Dial(start, moves[..|moves| - 1]) + moves[|moves| - 1])
  }

  /** How many of the turns leave the dial at 0. */
  function Zeros(start: int, moves: seq<int>): nat {
    if moves == [] then 0
    else Zeros(start, moves[..|moves| - 1]) + (if Dial(start, moves) == 0 then 1 else 0)
  }

  function Total(moves: seq<int>): int {
    if moves == [] then 0 else Total(moves[..|moves| - 1]) + moves[|moves| - 1]
  }

  /** After at least one turn the dial shows a value in -99..99 that
      differs from the start plus all turns by a multiple of 100. */
  lemma {:induction false} DialCongruent(start: int, moves: seq<int>)
    ensures (Dial(start, moves) - start - Total(moves)) % 100 == 0
    ensures moves != [] ==> -100 < Dial(start, moves) < 100
  {
    if moves != [] {
      var front := moves[..|moves| - 1];
      var x := moves[|moves| - 1];
      DialCongruent(start, front);
      var d := Dial(start, front);
      var e := Dial(start, moves);
      assert (d + x - e) % 100 == 0;
      var a := (d - start - Total(front)) / 100;
      var b := (d + x - e) / 100;
      assert e - start - Total(moves) == (a - b) * 100;
    }
  }

  /** The dial rests on 0 exactly when 50 plus the turns so far is a
      multiple of 100. */
  lemma DialZero(moves: seq<int>)
    ensures Dial(50, moves) == 0 <==> (50 + Total(moves)) % 100 == 0
  {
    DialCongruent(50, moves);
    if moves != [] {
      ZeroModulo(Dial(50, moves), 50 + Total(moves));
    }
  }

  lemma ZeroModulo(e: int, s: int)
    requires -100 < e < 100 && (e - s) % 100 == 0
    ensures e == 0 <==> s % 100 == 0
  {
    var k := (e - s) / 100;
    assert e - s == 100 * k;
    if s % 100 == 0 {
      var j := s / 100;
      assert e == 100 * (k + j);
    }
  }

  /** How many of the running totals of the turns bring 50 to a multiple of
      100. */
  function MultiplesOfHundred(moves: seq<int>): nat {
    if moves == [] then 0
    else MultiplesOfHundred(moves[..|moves| - 1]) + (if (50 + Total(moves)) % 100 == 0 then 1 else 0)
  }

  /** The answer counts the prefixes of the turns whose sum brings 50 to a
      multiple of 100. */
  lemma {:induction false} ZerosAreMultiples(moves: seq<int>)
    ensures Zeros(50, moves) == MultiplesOfHundred(moves)
  {
    if moves != [] {
      ZerosAreMultiples(moves[..|moves| - 1]);
      DialZero(moves);
    }
  }

  lemma MalformedPanics(lines: seq<string>, i: nat)
    requires i < |lines| && Rotation(lines[i]).Panic?
    ensures Rotations(lines).Panic?
  {
    assert !AllWellFormed(lines);
  }

  lemma RotationsStep(lines: seq<string>, i: nat)
    requires i < |lines| && Rotations(lines[..i]).Ok? && Rotation(lines[i]).Ok?
    ensures Rotations(lines[..i + 1]) == Ok(Rotations(lines[..i]).value + [Rotation(lines[i]).value])
  {
    assert lines[..i + 1][..i] == lines[..i];
  }

  lemma DialStep(start: int, moves: seq<int>, x: int)
    ensures Dial(start, moves + [x]) == Rem100(Dial(start, moves) + x)
    ensures Zeros(start, moves + [x]) == Zeros(start, moves) + if Dial(start, moves + [x]) == 0 then 1 else 0
  {
    assert (moves + [x])[..|moves|] == moves;
  }

  /** The lazy `map` and `filter(..).count()` of `part1` over the lines:
      start at 50, apply each line's turn with truncating `% 100` and count
      the lines after which the dial shows 0. */
  method CountZeros(lines: seq<string>) returns (r: Outcome<nat>)
    ensures Rotations(lines).Panic? ==> r.Panic?
    ensures Rotations(lines).Ok? ==> r == Ok(Zeros(50, Rotations(lines).value))
  {
    var now := 50;
    var count := 0;
    var i := 0;
    ghost var moves: seq<int> := [];
    while i < |lines|
      invariant 0 <= i <= |lines|
      invariant Rotations(lines[..i]) == Ok(moves)
      invariant now == Dial(50, moves) && count == Zeros(50, moves)
    {
      var turn := Rotation(lines[i]);
      if turn.Panic? {
        MalformedPanics(lines, i);
        return Panic;
      }
      RotationsStep(lines, i);
      DialStep(50, moves, turn.value);
      now := Rem100(now + turn.value);
      if now == 0 {
        count := count + 1;
      }
      moves := moves + [turn.value];
      i := i + 1;
    }
    assert lines[..i] == lines;
    return Ok(count);
  }

  /** `part1`. */
  method Part1(input: string) returns (r: Outcome<nat>)
    ensures Rotations(Lines(input)).Panic? ==> r.Panic?
    ensures Rotations(Lines(input)).Ok? ==> r == Ok(Zeros(50, Rotations(Lines(input)).value))
  {
    r := CountZeros(Lines(input));
  }
}
