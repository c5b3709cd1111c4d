// src/day03.rs: in each line of digits pick two digits, in order, that
// read as the largest two-digit number; part 1 sums those numbers.

module Day03 {
  import opened Base
  import opened Text

  /** `a.cmp(b).then(tie)` on characters (ASCII characters compare by
      code). */
  function CompareThen(a: char, b: char, tie: Ordering): Ordering {
    CompareInt(a as int, b as int).Then(tie)
  }

  /** Itertools `position_max_by` on a non-empty slice. It folds with std
      `max_by`, which keeps the element seen so far only when the comparator
      calls it `Greater` than the new one. With `tie` = `Less` (as written)
      equal maxima resolve to the LAST one; with `Greater` to the first. */
  function PositionMaxBy(s: seq<char>, tie: Ordering): (i: nat)
    requires |s| > 0
    ensures i < |s|
    ensures forall k :: 0 <= k < |s| ==> s[k] <= s[i]
    ensures tie != Greater ==> forall k :: i < k < |s| ==> s[k] < s[i]
    ensures tie == Greater ==> forall k :: 0 <= k < i ==> s[k] < s[i]
  {
    if |s| == 1 then 0
    else
      var kept := PositionMaxBy(s[..|s| - 1], tie);
      if CompareThen(s[kept], s[|s| - 1], tie) == Greater then kept else |s| - 1
  }

  /** `largest_index`: `unwrap` panics on an empty slice. */
  function LargestIndex(haystack: seq<char>, tie: Ordering): (r: Outcome<nat>)
    ensures r.Panic? <==> haystack == []
    ensures r.Ok? ==> r.value < |haystack| && forall k :: 0 <= k < |haystack| ==> haystack[k] <= haystack[r.value]
  {
    if haystack == [] then Panic else Ok(PositionMaxBy(haystack, tie))
  }

  /** `digit_to_val`: `to_digit(10).unwrap()` panics on anything but a
      decimal digit. */
  function DigitToVal(c: char): (r: Outcome<nat>)
    ensures r.Ok? <==> IsDigit(c)
    ensures r.Ok? ==> r.value <= 9 && r.value == c as int - '0' as int
  {
    if IsDigit(c) then Ok(DigitValue(c)) else Panic
  }

  /** The two positions `largest_joltage` picks: the largest of all but the
      last character, then the largest after it. */
  function Picks(haystack: seq<char>, tie: Ordering): (p: (nat, nat))
    requires |haystack| >= 2
    ensures p.0 < |haystack| - 1 && p.0 < p.1 < |haystack|
    ensures forall k :: 0 <= k < |haystack| - 1 ==> haystack[k] <= haystack[p.0]
    ensures forall k :: p.0 < k < |haystack| ==> haystack[k] <= haystack[p.1]
  {
    var front := haystack[..|haystack| - 1];
    var first := PositionMaxBy(front, tie);
    assert forall k :: 0 <= k < |haystack| - 1 ==> haystack[k] == front[k];
    var rest := haystack[first + 1..];
    var second := PositionMaxBy(rest, tie);
    assert forall k :: first < k < |haystack| ==> haystack[k] == rest[k - first - 1];
    (first, second + first + 1)
  }

  /** `largest_joltage` with the given tie rule: ten times the first picked
      digit plus the second. A line shorter than two characters panics
      (`len() - 1` underflows, or `largest_index` of an empty slice), and so
      does a picked character that is not a digit. */
  function Joltage(haystack: seq<char>, tie: Ordering): (r: Outcome<nat>)
    ensures |haystack| < 2 ==> r.Panic?
    ensures r.Ok? ==> r.value <= 99
    ensures |haystack| >= 2 && AllDigits(haystack) ==>
      r.Ok? && r.value == PairValue(haystack, Picks(haystack, tie).0, Picks(haystack, tie).1)
  {
    if |haystack| < 2 then Panic
    else
      var (first, second) := Picks(haystack, tie);
      match (DigitToVal(haystack[first]), DigitToVal(haystack[second]))
      case (Ok(tens), Ok(ones)) => Ok(tens * 10 + ones)
      case _ => Panic
  }

  /** `largest_joltage` as written: `then(Ordering::Less)` keeps the last of
      equal maxima. On a line of digits it still reads two of them in
      order. */
  function LargestJoltageAsWritten(haystack: seq<char>): (r: Outcome<nat>)
    ensures |haystack| < 2 ==> r.Panic?
    ensures |haystack| >= 2 && AllDigits(haystack) ==>
      r.Ok? && exists i, j :: 0 <= i < j < |haystack| && r.value == PairValue(haystack, i, j)
  {
    Joltage(haystack, Less)
  }

  /** `largest_joltage` with the first of equal maxima, as the comment on
      `largest_index` intends (`then(Ordering::Greater)`): on a line of
      digits no two digits in order read more. */
  function LargestJoltage(haystack: seq<char>): (r: Outcome<nat>)
    ensures |haystack| < 2 ==> r.Panic?
    ensures |haystack| >= 2 && AllDigits(haystack) ==>
      r.Ok? && forall i, j :: 0 <= i < j < |haystack| ==> PairValue(haystack, i, j) <= r.value
  {
    if |haystack| >= 2 && AllDigits(haystack) then
      LargestJoltageOptimal(haystack);
      Joltage(haystack, Greater)
    else
      Joltage(haystack, Greater)
  }

  /** The number read from the digits at positions `i` and `j`. */
  function PairValue(haystack: seq<char>, i: nat, j: nat): nat
    requires i < j < |haystack| && AllDigits(haystack)
  {
    10 * DigitValue(haystack[i]) + DigitValue(haystack[j])
  }

  /** With the first of equal maxima, a line of at least two digits gives
      the largest number any two of its digits, in order, can read. */
  lemma LargestJoltageOptimal(haystack: seq<char>)
    requires |haystack| >= 2 && AllDigits(haystack)
    ensures Joltage(haystack, Greater).Ok?
    ensures forall i, j :: 0 <= i < j < |haystack| ==> PairValue(haystack, i, j) <= Joltage(haystack, Greater).value
  {
    var (b, n) := Picks(haystack, Greater);
    forall i, j | 0 <= i < j < |haystack|
      ensures PairValue(haystack, i, j) <= PairValue(haystack, b, n)
    {
      if haystack[i] < haystack[b] {
        assert DigitValue(haystack[i]) + 1 <= DigitValue(haystack[b]);
      } else {
        FirstMaxBefore(haystack, b, i);
        assert haystack[j] <= haystack[n];
      }
    }
  }

  /** A position holding the first largest character of all but the last
      is no later than any other position holding that character. */
  lemma FirstMaxBefore(haystack: seq<char>, b: nat, i: nat)
    requires |haystack| >= 2 && b == Picks(haystack, Greater).0
    requires i < |haystack| - 1 && haystack[i] == haystack[b]
    ensures b <= i
  {
    var front := haystack[..|haystack| - 1];
    assert b == PositionMaxBy(front, Greater);
  }

  /** The line "991": as written the second 9 is picked first, leaving only
      the 1, so the answer is 91 although 99 can be read. */
  lemma LastMaximumMisses()
    ensures LargestJoltageAsWritten("991") == Ok(91)
    ensures LargestJoltage("991") == Ok(99)
  {
    var s := "991";
    assert s[..2] == "99";
    assert PositionMaxBy("9", Less) == 0;
    assert PositionMaxBy("99", Less) == 1;
    assert s[2..] == "1";
    assert PositionMaxBy("1", Less) == 0;
    assert Picks(s, Less) == (1, 2);
    assert PositionMaxBy("99", Greater) == 0;
    assert s[1..] == "91";
    assert PositionMaxBy("9", Greater) == 0;
    assert PositionMaxBy("91", Greater) == 0;
    assert Picks(s, Greater) == (0, 1);
  }

  /** `as_ascii()`: every character below 128. */
  predicate IsAscii(line: string) {
    forall k :: 0 <= k < |line| ==> line[k] as int < 128
  }

  /** A line `largest_joltage` reads without panicking: two or more
      decimal digits. */
  predicate Readable(line: string) {
    |line| >= 2 && AllDigits(line)
  }

  /** One line of `part1` with the given tie rule: `as_ascii().unwrap()`
      panics on a non-ASCII line. */
  function LineJoltage(line: string, tie: Ordering): (r: Outcome<nat>)
    ensures !IsAscii(line) ==> r.Panic?
    ensures Readable(line) ==> r.Ok? && r.value == Joltage(line, tie).value
    ensures r.Ok? ==> r.value <= 99
  {
    if !IsAscii(line) then Panic else Joltage(line, tie)
  }

  /** The joltage of every line, in order (0 stands for a line that
      panics, which the sum never reaches). */
  function Joltages(lines: seq<string>, tie: Ordering): (r: seq<nat>)
    ensures |r| == |lines|
    ensures forall k :: 0 <= k < |lines| && LineJoltage(lines[k], tie).Ok? ==> r[k] == LineJoltage(lines[k], tie).value
  {
    seq(|lines|, k requires 0 <= k < |lines| => if LineJoltage(lines[k], tie).Ok? then LineJoltage(lines[k], tie).value else 0)
  }

  /** The sum over lines: each line's joltage is computed, a panic on any
      line panics, and otherwise the joltages are added up. */
  function SumJoltages(lines: seq<string>, tie: Ordering): (r: Outcome<nat>)
    ensures r.Panic? <==> exists k :: 0 <= k < |lines| && LineJoltage(lines[k], tie).Panic?
    ensures r.Ok? ==> forall k :: 0 <= k < |lines| ==> LineJoltage(lines[k], tie).Ok?
    ensures r.Ok? ==> r.value == Sum(Joltages(lines, tie))
    ensures r.Ok? ==> r.value <= 99 * |lines|
  {
    match AllOk(lines, line => LineJoltage(line, tie))
    case Ok(values) =>
      assert values == Joltages(lines, tie);
      SumAtMost(values, 99);
      Ok(Sum(values))
    case Panic =>
      assert exists k :: 0 <= k < |lines| && LineJoltage(lines[k], tie).Panic?;
      Panic
  }

  /** `part1` as written, keeping the last of equal maxima: it succeeds
      when every line is two or more digits, and panics on a line that is
      not ASCII or shorter than two characters. */
  function Part1(input: string): (r: Outcome<nat>)
    ensures (forall k :: 0 <= k < |Lines(input)| ==> Readable(Lines(input)[k])) ==> r.Ok?
    ensures (exists k :: 0 <= k < |Lines(input)| && (|Lines(input)[k]| < 2 || !IsAscii(Lines(input)[k]))) ==> r.Panic?
    ensures r.Ok? ==> forall k :: 0 <= k < |Lines(input)| ==> LineJoltage(Lines(input)[k], Less).Ok?
    ensures r.Ok? ==> r.value == Sum(Joltages(Lines(input), Less))
    ensures r.Ok? ==> r.value <= 99 * |Lines(input)|
  {
    SumJoltages(Lines(input), Less)
  }

  /** `part1` with the first of equal maxima, as the comment on
      `largest_index` intends. */
  function Part1Intended(input: string): (r: Outcome<nat>)
    ensures (forall k :: 0 <= k < |Lines(input)| ==> Readable(Lines(input)[k])) ==> r.Ok?
    ensures (exists k :: 0 <= k < |Lines(input)| && (|Lines(input)[k]| < 2 || !IsAscii(Lines(input)[k]))) ==> r.Panic?
    ensures r.Ok? ==> forall k :: 0 <= k < |Lines(input)| ==> LineJoltage(Lines(input)[k], Greater).Ok?
    ensures r.Ok? ==> r.value == Sum(Joltages(Lines(input), Greater))
    ensures r.Ok? ==> r.value <= 99 * |Lines(input)|
  {
    SumJoltages(Lines(input), Greater)
  }

  /** On lines of digits the written tie rule never reads more than the
      intended one, line by line and so in the sum. */
  lemma {:induction false} SumsCompare(lines: seq<string>)
    requires forall k :: 0 <= k < |lines| ==> Readable(lines[k])
    ensures SumJoltages(lines, Less).Ok? && SumJoltages(lines, Greater).Ok?
    ensures SumJoltages(lines, Less).value <= SumJoltages(lines, Greater).value
  {
    JoltagesCompare(lines);
  }

  /** The same, joltage by joltage. */
  lemma JoltagesCompare(lines: seq<string>)
    requires forall k :: 0 <= k < |lines| ==> Readable(lines[k])
    ensures Sum(Joltages(lines, Less)) <= Sum(Joltages(lines, Greater))
  {
    forall k | 0 <= k < |lines|
      ensures Joltages(lines, Less)[k] <= Joltages(lines, Greater)[k]
    {
      LineCompare(lines[k]);
    }
    SumMonotone(Joltages(lines, Less), Joltages(lines, Greater));
  }

  /** On one line of digits the written tie rule reads no more than the
      intended one. */
  lemma LineCompare(line: string)
    requires Readable(line)
    ensures LineJoltage(line, Less).Ok? && LineJoltage(line, Greater).Ok?
    ensures LineJoltage(line, Less).value <= LineJoltage(line, Greater).value
  {
    assert LargestJoltageAsWritten(line).Ok?;
    assert LargestJoltage(line).Ok?;
  }

  /** Part 1 as written never exceeds the intended answer on input whose
      every line is two or more digits. */
  lemma Part1Compare(input: string)
    requires forall k :: 0 <= k < |Lines(input)| ==> Readable(Lines(input)[k])
    ensures Part1(input).Ok? && Part1Intended(input).Ok?
    ensures Part1(input).value <= Part1Intended(input).value
  {
    SumsCompare(Lines(input));
  }
}
