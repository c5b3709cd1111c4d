// The parts of Rust's `str` API that the puzzle solutions use: line and
// separator splitting, trimming, decimal parsing and `to_string` on numbers.
// Strings are sequences of `char`; every parser here returns `None` where the
// Rust one returns `Err`.

module Text {
  import opened Base

  /** Position of the first `c` in `s`, or `|s|` when there is none. */
  function Find(s: string, c: char): (i: nat)
    ensures i <= |s|
    ensures i < |s| ==> s[i] == c
    ensures forall k :: 0 <= k < i ==> s[k] != c
  {
    if s == [] then 0
    else if s[0] == c then 0
    else 1 + Find(s[1..], c)
  }

  /** `str::split(c)` for a single-character pattern: always at least one
      piece; an empty input gives one empty piece. */
  function Split(s: string, sep: char): (r: seq<string>)
    ensures |r| >= 1
    ensures forall k :: 0 <= k < |r| ==> sep !in r[k]
    decreases |s|
  {
    var i := Find(s, sep);
    if i == |s| then [s]
    else [s[..i]] + Split(s[i + 1..], sep)
  }

  /** The separator-joined string that `Split` takes apart. */
  function Join(pieces: seq<string>, sep: char): string
    requires |pieces| >= 1
  {
    if |pieces| == 1 then pieces[0]
    else pieces[0] + [sep] + Join(pieces[1..], sep)
  }

  lemma {:induction false} SplitJoin(pieces: seq<string>, sep: char)
    requires |pieces| >= 1
    requires forall k :: 0 <= k < |pieces| ==> sep !in pieces[k]
    ensures Split(Join(pieces, sep), sep) == pieces
  {
    var s := Join(pieces, sep);
    if |pieces| == 1 {
      assert Find(s, sep) == |s|;
    } else {
      var p := pieces[0];
      assert s == p + [sep] + Join(pieces[1..], sep);
      FindPast(p, sep, Join(pieces[1..], sep));
      assert s[|p| + 1..] == Join(pieces[1..], sep);
      SplitJoin(pieces[1..], sep);
      assert s[..|p|] == p;
    }
  }

  lemma FindPast(p: string, sep: char, rest: string)
    requires sep !in p
    ensures Find(p + [sep] + rest, sep) == |p|
  {
    var s := p + [sep] + rest;
    assert forall k :: 0 <= k < |p| ==> s[k] == p[k];
    assert s[|p|] == sep;
  }

  /** A line feed at `i` followed by another: the separator "\n\n". */
  predicate BlankLineAt(s: string, i: nat) {
    i + 1 < |s| && s[i] == '\n' && s[i + 1] == '\n'
  }

  /** Position of the first "\n\n" in `s`, or `|s|` when there is none. */
  function FindBlankLine(s: string): (i: nat)
    ensures i <= |s|
    ensures i < |s| ==> BlankLineAt(s, i)
    ensures forall k :: 0 <= k < i ==> !BlankLineAt(s, k)
  {
    if |s| < 2 then |s|
    else if BlankLineAt(s, 0) then 0
    else
      var i := FindBlankLine(s[1..]);
      assert forall k :: 1 <= k < i + 1 ==> (BlankLineAt(s, k) <==> BlankLineAt(s[1..], k - 1));
      1 + i
  }

  /** The pieces joined with "\n\n" between them. */
  function JoinBlankLines(pieces: seq<string>): string
    requires |pieces| >= 1
  {
    if |pieces| == 1 then pieces[0]
    else pieces[0] + "\n\n" + JoinBlankLines(pieces[1..])
  }

  /** `str::split("\n\n")`: the text between separators found left to
      right; putting the separators back gives the text again, no piece
      but the last can hold a separator, and none but the last ends in a
      line feed (so each separator is the leftmost one left). */
  function SplitBlankLines(s: string): (r: seq<string>)
    ensures |r| >= 1
    ensures JoinBlankLines(r) == s
    ensures forall k, j :: 0 <= k < |r| - 1 ==> !BlankLineAt(r[k], j)
    ensures forall k :: 0 <= k < |r| - 1 ==> r[k] == "" || r[k][|r[k]| - 1] != '\n'
    decreases |s|
  {
    var i := FindBlankLine(s);
    if i == |s| then [s]
    else
      var rest := SplitBlankLines(s[i + 2..]);
      var r := [s[..i]] + rest;
      assert r[1..] == rest;
      assert s == s[..i] + "\n\n" + s[i + 2..];
      forall j ensures !BlankLineAt(s[..i], j) {
        if BlankLineAt(s[..i], j) {
          assert BlankLineAt(s, j);
        }
      }
      assert i > 0 ==> !BlankLineAt(s, i - 1);
      assert forall k :: 1 <= k < |r| ==> r[k] == rest[k - 1];
      r
  }

  /** Rust's `str::lines`: split after each line feed, drop the line feed and
      one carriage return right before it; a final line feed does not start
      an empty line. */
  function Lines(s: string): (r: seq<string>)
    ensures forall k :: 0 <= k < |r| ==> '\n' !in r[k]
    decreases |s|
  {
    if s == [] then []
    else
      var i := Find(s, '\n');
      if i == |s| then [s]
      else [StripCarriageReturn(s[..i])] + Lines(s[i + 1..])
  }

  function StripCarriageReturn(line: string): (r: string)
    ensures r == line || (line == r + ['\r'])
  {
    if |line| > 0 && line[|line| - 1] == '\r' then line[..|line| - 1] else line
  }

  /** Every line followed by a line feed: the text `writeln!` produces. */
  function Unlines(lines: seq<string>): string {
    if lines == [] then [] else lines[0] + ['\n'] + Unlines(lines[1..])
  }

  lemma {:induction false} LinesUnlines(lines: seq<string>)
    requires forall k :: 0 <= k < |lines| ==> '\n' !in lines[k]
    requires forall k :: 0 <= k < |lines| ==> lines[k] == [] || lines[k][|lines[k]| - 1] != '\r'
    ensures Lines(Unlines(lines)) == lines
  {
    if lines != [] {
      var p := lines[0];
      var s := Unlines(lines);
      assert s == p + ['\n'] + Unlines(lines[1..]);
      FindPast(p, '\n', Unlines(lines[1..]));
      assert s[..|p|] == p;
      assert s[|p| + 1..] == Unlines(lines[1..]);
      LinesUnlines(lines[1..]);
    }
  }

  /** Rust's `char::is_whitespace` (the Unicode White_Space property). */
  predicate IsWhitespace(c: char) {
    var n := c as int;
    (9 <= n <= 13) || n == 32 || n == 0x85 || n == 0xA0 || n == 0x1680
    || (0x2000 <= n <= 0x200A) || n == 0x2028 || n == 0x2029 || n == 0x202F
    || n == 0x205F || n == 0x3000
  }

  /** Rust's `u8::is_ascii_whitespace`, used by `split_ascii_whitespace`. */
  predicate IsAsciiWhitespace(c: char) {
    c == ' ' || c == '\t' || c == '\n' || c == '\r' || c as int == 12
  }

  /** `str::trim_start_matches` for a predicate on characters. */
  function TrimStart(s: string, strip: char -> bool): (r: string)
    ensures |r| <= |s| && r == s[|s| - |r|..]
    ensures r == [] || !strip(r[0])
    ensures forall k :: 0 <= k < |s| - |r| ==> strip(s[k])
  {
    if s != [] && strip(s[0]) then TrimStart(s[1..], strip) else s
  }

  /** `str::trim_end_matches` for a predicate on characters. */
  function TrimEnd(s: string, strip: char -> bool): (r: string)
    ensures |r| <= |s| && r == s[..|r|]
    ensures r == [] || !strip(r[|r| - 1])
    ensures forall k :: |r| <= k < |s| ==> strip(s[k])
  {
    if s != [] && strip(s[|s| - 1]) then TrimEnd(s[..|s| - 1], strip) else s
  }

  /** `str::trim`. */
  function Trim(s: string): string {
    TrimEnd(TrimStart(s, IsWhitespace), IsWhitespace)
  }

  /** `str::trim_matches` with a set of characters. */
  function TrimMatches(s: string, chars: set<char>): string {
    TrimEnd(TrimStart(s, c => c in chars), c => c in chars)
  }

  /** `str::split_whitespace` (or `split_ascii_whitespace` with the ASCII
      predicate): the maximal runs of non-whitespace characters. */
  function Words(s: string, space: char -> bool): (r: seq<string>)
    decreases |s|
  {
    var t := TrimStart(s, space);
    if t == [] then []
    else
      var n := WordLength(t, space);
      assert n > 0;
      var rest := Words(t[n..], space);
      [t[..n]] + rest
  }

  /** Length of the run of non-whitespace characters at the front of `s`. */
  function WordLength(s: string, space: char -> bool): (n: nat)
    ensures n <= |s|
    ensures s != [] && !space(s[0]) ==> n > 0
    ensures forall k :: 0 <= k < n ==> !space(s[k])
    ensures n < |s| ==> space(s[n])
  {
    if s == [] || space(s[0]) then 0 else 1 + WordLength(s[1..], space)
  }

  predicate IsDigit(c: char) {
    '0' <= c <= '9'
  }

  function DigitValue(c: char): (d: nat)
    requires IsDigit(c)
    ensures d <= 9
  {
    c as int - '0' as int
  }

  /** Value of a non-empty run of decimal digits. */
  function DigitsValue(s: string): nat
    requires forall k :: 0 <= k < |s| ==> IsDigit(s[k])
  {
    if s == [] then 0 else 10 * DigitsValue(s[..|s| - 1]) + DigitValue(s[|s| - 1])
  }

  predicate AllDigits(s: string) {
    s != [] && forall k :: 0 <= k < |s| ==> IsDigit(s[k])
  }

  /** `str::parse::<usize>()`: an optional `+` followed by at least one
      decimal digit and nothing else. */
  function ParseNat(s: string): (r: Option<nat>)
    ensures r.Some? <==> AllDigits(s) || (|s| >= 1 && s[0] == '+' && AllDigits(s[1..]))
  {
    if AllDigits(s) then Some(DigitsValue(s))
    else if |s| >= 1 && s[0] == '+' && AllDigits(s[1..]) then Some(DigitsValue(s[1..]))
    else None
  }

  /** `parse::<usize>().unwrap()`: a word that is not a number panics. */
  function UnwrapNat(s: string): (r: Outcome<nat>)
    ensures r.Ok? <==> ParseNat(s).Some?
    ensures r.Ok? ==> r.value == ParseNat(s).value
  {
    if ParseNat(s).Some? then Ok(ParseNat(s).value) else Panic
  }

  /** Each word parsed with `parse::<usize>().unwrap()`, in order; the
      first word that is not a number panics. */
  function UnwrapNats(words: seq<string>): (r: Outcome<seq<nat>>)
    ensures r.Ok? <==> forall k :: 0 <= k < |words| ==> ParseNat(words[k]).Some?
    ensures r.Ok? ==> |r.value| == |words|
    ensures r.Ok? ==> forall k :: 0 <= k < |words| ==> r.value[k] == ParseNat(words[k]).value
  {
    var r := AllOk(words, UnwrapNat);
    if r.Ok? then r
    else
      assert exists k :: 0 <= k < |words| && UnwrapNat(words[k]).Panic?;
      r
  }

  /** `str::parse::<isize>()`: like `ParseNat`, with a leading `-` allowed. */
  function ParseInt(s: string): (r: Option<int>)
    ensures r.Some? <==> ParseNat(s).Some? || (|s| >= 1 && s[0] == '-' && AllDigits(s[1..]))
  {
    if ParseNat(s).Some? then Some(ParseNat(s).value as int)
    else if |s| >= 1 && s[0] == '-' && AllDigits(s[1..]) then Some(-(DigitsValue(s[1..]) as int))
    else None
  }

  /** `to_string` on an unsigned integer: decimal digits, no leading zero. */
  function Decimal(n: nat): (r: string)
    ensures AllDigits(r)
    ensures DigitsValue(r) == n
    ensures |r| > 1 ==> r[0] != '0'
  {
    var d := n % 10;
    var c := ('0' as int + d) as char;
    if n < 10 then [c]
    else
      var front := Decimal(n / 10);
      assert (front + [c])[..|front + [c]| - 1] == front;
      front + [c]
  }

  lemma ParseDecimal(n: nat)
    ensures ParseNat(Decimal(n)) == Some(n)
  {
  }
}
