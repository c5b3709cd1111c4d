// src/day02.rs: sum the "invalid" numbers in comma-separated inclusive
// ranges, where a number is invalid when its decimal digits are one block
// written twice (part 1) or one block written two or more times (part 2).

module Day02 {
  import opened Base
  import opened Text
  import opened Slices

  /** `Itertools::all_equal`: no two elements differ (true when empty). */
  predicate AllEqual<T(==)>(s: seq<T>) {
    forall i :: 0 <= i < |s| ==> s[i] == s[0]
  }

  /** `two_repeated`: the first half of the digits equals the second half;
      for an odd digit count the halves differ in length. */
  predicate TwoRepeated(value: nat) {
    var digits := Decimal(value);
    digits[..|digits| / 2] == digits[|digits| / 2..]
  }

  /** `any_repeated`: for some block length from 1 to half the digit count,
      the digits cut into blocks of that length give equal blocks. */
  predicate AnyRepeated(value: nat) {
    var digits := Decimal(value);
    exists length | 1 <= length <= |digits| / 2 :: AllEqual(Chunks(digits, length))
  }

  /** `s` is its first `k` elements over and over. */
  ghost predicate Periodic<T>(s: seq<T>, k: nat) {
    forall i :: k <= i < |s| ==> s[i] == s[i - k]
  }

  /** `two_repeated` holds exactly for an even number of digits whose two
      halves are the same block. */
  lemma TwoRepeatedMeaning(value: nat)
    ensures var digits := Decimal(value);
      TwoRepeated(value) <==> |digits| % 2 == 0 && digits[..|digits| / 2] == digits[|digits| / 2..]
  {
  }

  /** Cutting into blocks of length `k` gives equal blocks exactly when `k`
      divides the length and the sequence repeats with period `k`. */
  lemma {:induction false} AllEqualChunks<T>(s: seq<T>, k: nat)
    requires 1 <= k <= |s|
    ensures AllEqual(Chunks(s, k)) <==> MultipleOf(|s|, k) && Periodic(s, k)
    decreases |s|
  {
    var chunks := Chunks(s, k);
    if |s| == k {
      assert chunks == [s];
      assert MultipleOf(|s| - k, k);
    } else if |s| < 2 * k {
      assert chunks == [s[..k]] + Chunks(s[k..], k);
      assert Chunks(s[k..], k) == [s[k..]];
      assert chunks[1] != chunks[0] by {
        assert |chunks[1]| < k == |chunks[0]|;
      }
      assert !MultipleOf(|s| - k, k);
    } else {
      var rest := s[k..];
      assert chunks == [s[..k]] + Chunks(rest, k);
      AllEqualChunks(rest, k);
      FirstChunk(rest, k);
      AllEqualCons(s[..k], Chunks(rest, k));
      PeriodicCons(s, k);
    }
  }

  /** `n` is a multiple of `k`. */
  predicate MultipleOf(n: nat, k: nat)
    requires k >= 1
    decreases n
  {
    n == 0 || (n >= k && MultipleOf(n - k, k))
  }

  /** The first block is the first `k` elements. */
  lemma FirstChunk<T>(s: seq<T>, k: nat)
    requires 1 <= k <= |s|
    ensures |Chunks(s, k)| > 0 && Chunks(s, k)[0] == s[..k]
  {
    if |s| > k {
      assert Chunks(s, k) == [s[..k]] + Chunks(s[k..], k);
    }
  }

  lemma AllEqualCons<T>(x: T, t: seq<T>)
    requires t != []
    ensures AllEqual([x] + t) <==> x == t[0] && AllEqual(t)
  {
    var s := [x] + t;
    if AllEqual(s) {
      forall i | 0 <= i < |t| ensures t[i] == t[0] {
        assert t[i] == s[i + 1] && t[0] == s[1];
      }
      assert s[0] == x && s[1] == t[0];
    }
    if x == t[0] && AllEqual(t) {
      forall i | 0 <= i < |s| ensures s[i] == s[0] {
        if i > 0 {
          assert s[i] == t[i - 1] && s[0] == x;
        }
      }
    }
  }

  /** Period `k` means the second block repeats the first and the rest has
      period `k`. */
  lemma PeriodicCons<T>(s: seq<T>, k: nat)
    requires 1 <= k && 2 * k <= |s|
    ensures Periodic(s, k) <==> s[..k] == s[k..][..k] && Periodic(s[k..], k)
  {
    var rest := s[k..];
    if Periodic(s, k) {
      forall i | 0 <= i < k ensures s[..k][i] == rest[..k][i] {
        assert rest[i] == s[k + i];
      }
      forall i | k <= i < |rest| ensures rest[i] == rest[i - k] {
        assert rest[i] == s[k + i];
      }
    }
    if s[..k] == rest[..k] && Periodic(rest, k) {
      forall i | k <= i < |s| ensures s[i] == s[i - k] {
        if i < 2 * k {
          assert s[i] == rest[..k][i - k] && s[i - k] == s[..k][i - k];
        } else {
          assert s[i] == rest[i - k] && s[i - k] == rest[i - 2 * k];
        }
      }
    }
  }

  /** `any_repeated` holds exactly for digits that are one block of at most
      half their length written two or more times. */
  lemma AnyRepeatedMeaning(value: nat)
    ensures var digits := Decimal(value);
      AnyRepeated(value) <==> exists length | 1 <= length <= |digits| / 2 :: MultipleOf(|digits|, length) && Periodic(digits, length)
  {
    var digits := Decimal(value);
    forall length | 1 <= length <= |digits| / 2
      ensures AllEqual(Chunks(digits, length)) <==> MultipleOf(|digits|, length) && Periodic(digits, length)
    {
      AllEqualChunks(digits, length);
    }
  }

  /** A single digit is never a repetition. */
  lemma SingleDigitNotRepeated(value: nat)
    requires value < 10
    ensures !TwoRepeated(value) && !AnyRepeated(value)
  {
    assert |Decimal(value)| == 1;
  }

  /** One block written twice is a repetition with the block as long as
      half the digits. */
  lemma TwoImpliesAny(value: nat)
    requires TwoRepeated(value)
    ensures AnyRepeated(value)
  {
    var digits := Decimal(value);
    var half := |digits| / 2;
    assert |digits| == 2 * half;
    assert half >= 1;
    var chunks := Chunks(digits, half);
    assert chunks == [digits[..half]] + Chunks(digits[half..], half);
    assert Chunks(digits[half..], half) == [digits[half..]];
    assert AllEqual(chunks);
  }

  /** `(low..=high).filter(invalid).sum()`. */
  function SumInRange(low: nat, high: nat, invalid: nat -> bool): nat
    decreases high
  {
    if high < low then 0
    else (if high == low then 0 else SumInRange(low, high - 1, invalid)) + (if invalid(high) then high else 0)
  }

  /** One range token: exactly two `-`-separated pieces
      (`collect_tuple().unwrap()`), each a `usize`, or a panic. */
  function RangeSum(token: string, invalid: nat -> bool): (r: Outcome<nat>)
    ensures r.Panic? <==> |Split(token, '-')| != 2 || ParseNat(Split(token, '-')[0]).None? || ParseNat(Split(token, '-')[1]).None?
    ensures r.Ok? ==> r.value == SumInRange(ParseNat(Split(token, '-')[0]).value, ParseNat(Split(token, '-')[1]).value, invalid)
  {
    var pieces := Split(token, '-');
    if |pieces| != 2 then Panic
    else
      match (ParseNat(pieces[0]), ParseNat(pieces[1]))
      case (Some(low), Some(high)) => Ok(SumInRange(low, high, invalid))
      case _ => Panic
  }

  /** The sum of each range token, in order, when none panics. */
  function RangeSums(tokens: seq<string>, invalid: nat -> bool): (r: seq<nat>)
    requires forall k :: 0 <= k < |tokens| ==> RangeSum(tokens[k], invalid).Ok?
    ensures |r| == |tokens| && forall k :: 0 <= k < |tokens| ==> r[k] == RangeSum(tokens[k], invalid).value
  {
    seq(|tokens|, k requires 0 <= k < |tokens| => RangeSum(tokens[k], invalid).value)
  }

  /** The token sums add up as the first token's sum plus the rest's. */
  lemma RangeSumsFirst(tokens: seq<string>, invalid: nat -> bool)
    requires tokens != [] && forall k :: 0 <= k < |tokens| ==> RangeSum(tokens[k], invalid).Ok?
    ensures Sum(RangeSums(tokens, invalid)) == RangeSum(tokens[0], invalid).value + Sum(RangeSums(tokens[1..], invalid))
  {
    var first := RangeSum(tokens[0], invalid).value;
    var rest := RangeSums(tokens[1..], invalid);
    assert RangeSums(tokens, invalid) == [first] + rest;
    SumAppend([first], rest);
    assert Sum([first]) == Sum([]) + first;
  }

  /** The sum over a list of range tokens; a panic in any token panics,
      otherwise the answer adds up every token's sum. */
  function SumTokens(tokens: seq<string>, invalid: nat -> bool): (r: Outcome<nat>)
    ensures r.Panic? <==> exists k :: 0 <= k < |tokens| && RangeSum(tokens[k], invalid).Panic?
    ensures r.Ok? ==> r.value == Sum(RangeSums(tokens, invalid))
  {
    if tokens == [] then Ok(0)
    else
      match (RangeSum(tokens[0], invalid), SumTokens(tokens[1..], invalid))
      case (Ok(a), Ok(b)) =>
        RangeSumsFirst(tokens, invalid);
        Ok(a + b)
      case (Panic, _) => Panic
      case (_, Panic) =>
        assert exists k :: 0 <= k < |tokens[1..]| && RangeSum(tokens[1..][k], invalid).Panic?;
        Panic
  }

  /** `sum_invalid`: the ranges are the comma-separated tokens of the
      input; it panics when one of them does, and otherwise adds up, range
      by range, the numbers `invalid` marks. */
  function SumInvalid(input: string, invalid: nat -> bool): (r: Outcome<nat>)
    ensures r.Panic? ==> exists k :: 0 <= k < |Split(input, ',')| && RangeSum(Split(input, ',')[k], invalid).Panic?
    ensures r.Ok? ==> forall k :: 0 <= k < |Split(input, ',')| ==> RangeSum(Split(input, ',')[k], invalid).Ok?
    ensures r.Ok? ==> r.value == Sum(RangeSums(Split(input, ','), invalid))
  {
    SumTokens(Split(input, ','), invalid)
  }

  /** `part1`: the sum over all ranges of the numbers written as one block
      twice. */
  function Part1(input: string): (r: Outcome<nat>)
    ensures r.Panic? ==> exists k :: 0 <= k < |Split(input, ',')| && RangeSum(Split(input, ',')[k], TwoRepeated).Panic?
    ensures r.Ok? ==> forall k :: 0 <= k < |Split(input, ',')| ==> RangeSum(Split(input, ',')[k], TwoRepeated).Ok?
    ensures r.Ok? ==> r.value == Sum(RangeSums(Split(input, ','), TwoRepeated))
  {
    SumInvalid(input, TwoRepeated)
  }

  /** `part2`: the sum over all ranges of the numbers written as one block
      two or more times. */
  function Part2(input: string): (r: Outcome<nat>)
    ensures r.Panic? ==> exists k :: 0 <= k < |Split(input, ',')| && RangeSum(Split(input, ',')[k], AnyRepeated).Panic?
    ensures r.Ok? ==> forall k :: 0 <= k < |Split(input, ',')| ==> RangeSum(Split(input, ',')[k], AnyRepeated).Ok?
    ensures r.Ok? ==> r.value == Sum(RangeSums(Split(input, ','), AnyRepeated))
  {
    SumInvalid(input, AnyRepeated)
  }

  /** The numbers part 1 adds are among those part 2 adds. */
  lemma {:induction false} SumInRangeMonotone(low: nat, high: nat)
    ensures SumInRange(low, high, TwoRepeated) <= SumInRange(low, high, AnyRepeated)
    decreases high
  {
    if high > low {
      SumInRangeMonotone(low, high - 1);
    }
    if high >= low && TwoRepeated(high) {
      TwoImpliesAny(high);
    }
  }

  lemma {:induction false} SumTokensMonotone(tokens: seq<string>)
    requires SumTokens(tokens, TwoRepeated).Ok?
    ensures SumTokens(tokens, AnyRepeated).Ok?
    ensures SumTokens(tokens, TwoRepeated).value <= SumTokens(tokens, AnyRepeated).value
  {
    if tokens != [] {
      SumTokensMonotone(tokens[1..]);
      var pieces := Split(tokens[0], '-');
      SumInRangeMonotone(ParseNat(pieces[0]).value, ParseNat(pieces[1]).value);
    }
  }

  /** Both parts panic on the same inputs, and part 1's answer is at most
      part 2's. */
  lemma PartsCompare(input: string)
    ensures Part1(input).Panic? <==> Part2(input).Panic?
    ensures Part1(input).Ok? ==> Part1(input).value <= Part2(input).value
  {
    if Part1(input).Ok? {
      SumTokensMonotone(Split(input, ','));
    }
  }
}
