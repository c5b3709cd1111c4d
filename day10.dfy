// src/day10.rs: each machine has indicator lights, buttons that each act
// on a list of positions, and joltage counters. Part 1 finds the fewest
// presses that turn the lights from all off to the wanted pattern, where a
// press toggles its positions; part 2 the fewest presses that raise the
// counters from zero to the wanted joltages, where a press adds one to its
// positions. Both searches are `min_distance_to` over press sequences.

module Day10 {
  import opened Base
  import opened Text
  import opened GraphWalks
  import opened GraphShortest

  /** `Machine`: the wanted lights, the buttons, the wanted joltages. */
  datatype Machine = Machine(lights: seq<bool>, buttons: seq<seq<nat>>, joltage: seq<nat>)

  // ---- Parsing ----

  /** One light: '.' is off, '#' is on, anything else panics. */
  function ParseLight(c: char): (r: Outcome<bool>)
    ensures r.Ok? <==> c == '.' || c == '#'
    ensures r.Ok? ==> (r.value <==> c == '#')
  {
    if c == '.' then Ok(false) else if c == '#' then Ok(true) else Panic
  }

  /** `parse::<u16>().unwrap()`: a value past 65535 panics too. */
  function ParseJoltage(s: string): (r: Outcome<nat>)
    ensures r.Ok? <==> ParseNat(s).Some? && ParseNat(s).value < 0x1_0000
    ensures r.Ok? ==> r.value == ParseNat(s).value
  {
    if ParseNat(s).Some? && ParseNat(s).value < 0x1_0000 then Ok(ParseNat(s).value) else Panic
  }

  /** The joltages "{a,b,...}": the braces trimmed, the values split on
      ','; a value that is not a number or is past 65535 panics. */
  function ParseJoltages(piece: string): (r: Outcome<seq<nat>>)
    ensures r.Ok? <==> forall i :: 0 <= i < |Split(TrimMatches(piece, {'{', '}'}), ',')| ==>
      ParseJoltage(Split(TrimMatches(piece, {'{', '}'}), ',')[i]).Ok?
    ensures r.Ok? ==> |r.value| == |Split(TrimMatches(piece, {'{', '}'}), ',')|
    ensures r.Ok? ==> forall i :: 0 <= i < |r.value| ==>
      ParseNat(Split(TrimMatches(piece, {'{', '}'}), ',')[i]) == Some(r.value[i]) && r.value[i] < 0x1_0000
  {
    var r := AllOk(Split(TrimMatches(piece, {'{', '}'}), ','), ParseJoltage);
    if r.Ok? then r
    else
      assert exists i :: (0 <= i < |Split(TrimMatches(piece, {'{', '}'}), ',')|
        && ParseJoltage(Split(TrimMatches(piece, {'{', '}'}), ',')[i]).Panic?);
      r
  }

  /** One button "(i,j,...)": the brackets trimmed, the indices split on
      ','. */
  function ParseButton(piece: string): Outcome<seq<nat>> {
    UnwrapNats(Split(TrimMatches(piece, {'(', ')'}), ','))
  }

  predicate StartsWithParen(piece: string) {
    |piece| >= 1 && piece[0] == '('
  }

  /** `take_while_ref(|p| p.starts_with('('))`: the length of the run of
      pieces that start with '(', leaving the first other piece in place. */
  function LeadingButtons(pieces: seq<string>): (n: nat)
    ensures n <= |pieces|
    ensures forall k :: 0 <= k < n ==> StartsWithParen(pieces[k])
    ensures n < |pieces| ==> !StartsWithParen(pieces[n])
  {
    if pieces == [] || !StartsWithParen(pieces[0]) then 0
    else
      var n := LeadingButtons(pieces[1..]);
      assert forall k :: 1 <= k < n + 1 ==> pieces[k] == pieces[1..][k - 1];
      1 + n
  }

  /** `parse_line`: the pieces split on ' '; the first is the bracketed
      lights; then the run of buttons; then the braced joltages, whose
      absence panics (`next().unwrap()`). Pieces after it are ignored. */
  function ParseLine(line: string): Outcome<Machine>
  {
    var pieces := Split(line, ' ');
    var lights := AllOk(TrimMatches(pieces[0], {'[', ']'}), ParseLight);
    var rest := pieces[1..];
    var n := LeadingButtons(rest);
    var buttons := AllOk(rest[..n], ParseButton);
    if lights.Panic? || buttons.Panic? || n == |rest| then Panic
    else
      var joltage := ParseJoltages(rest[n]);
      if joltage.Panic? then Panic
      else Ok(Machine(lights.value, buttons.value, joltage.value))
  }

  /** A line parses when its lights hold only '.' and '#', its buttons and
      joltages parse, and a joltage piece follows the buttons; the lights
      are on exactly at the '#' characters. */
  lemma ParseLineMeaning(line: string)
    ensures var pieces := Split(line, ' ');
      var n := LeadingButtons(pieces[1..]);
      ParseLine(line).Ok? <==> (AllOk(TrimMatches(pieces[0], {'[', ']'}), ParseLight).Ok?
        && AllOk(pieces[1..][..n], ParseButton).Ok?
        && n < |pieces| - 1
        && ParseJoltages(pieces[1 + n]).Ok?)
    ensures var pieces := Split(line, ' ');
      var r := ParseLine(line);
      r.Ok? ==> (|r.value.buttons| == LeadingButtons(pieces[1..])
        && |r.value.lights| == |TrimMatches(pieces[0], {'[', ']'})|
        && forall i :: 0 <= i < |r.value.lights| ==> (r.value.lights[i] <==> TrimMatches(pieces[0], {'[', ']'})[i] == '#'))
  {
  }

  /** A parsed button lists the numbers between the commas of its piece. */
  lemma ButtonMeaning(piece: string, button: seq<nat>)
    requires ParseButton(piece) == Ok(button)
    ensures |button| == |Split(TrimMatches(piece, {'(', ')'}), ',')|
    ensures forall i :: 0 <= i < |button| ==> ParseNat(Split(TrimMatches(piece, {'(', ')'}), ',')[i]) == Some(button[i])
  {
  }

  /** Button `b` of a parsed line is the piece after the lights and `b`
      other buttons, parsed. */
  lemma ButtonAt(line: string, b: nat)
    requires ParseLine(line).Ok? && b < |ParseLine(line).value.buttons|
    ensures 1 + b < |Split(line, ' ')|
    ensures ParseButton(Split(line, ' ')[1 + b]) == Ok(ParseLine(line).value.buttons[b])
    ensures |ParseLine(line).value.buttons[b]| == |Split(TrimMatches(Split(line, ' ')[1 + b], {'(', ')'}), ',')|
    ensures forall i :: 0 <= i < |ParseLine(line).value.buttons[b]| ==>
      ParseNat(Split(TrimMatches(Split(line, ' ')[1 + b], {'(', ')'}), ',')[i]) == Some(ParseLine(line).value.buttons[b][i])
  {
    var pieces := Split(line, ' ');
    var rest := pieces[1..];
    var n := LeadingButtons(rest);
    assert AllOk(rest[..n], ParseButton) == Ok(ParseLine(line).value.buttons);
    assert rest[..n][b] == pieces[1 + b];
    ButtonMeaning(pieces[1 + b], ParseLine(line).value.buttons[b]);
  }

  /** Each button of a parsed line holds the numbers between the commas of
      its piece, once the brackets are trimmed. */
  lemma ParseLineButtons(line: string)
    ensures ParseLine(line).Ok? ==> forall b :: 0 <= b < |ParseLine(line).value.buttons| ==>
      (1 + b < |Split(line, ' ')|
       && |ParseLine(line).value.buttons[b]| == |Split(TrimMatches(Split(line, ' ')[1 + b], {'(', ')'}), ',')|
       && forall i :: 0 <= i < |ParseLine(line).value.buttons[b]| ==>
         ParseNat(Split(TrimMatches(Split(line, ' ')[1 + b], {'(', ')'}), ',')[i]) == Some(ParseLine(line).value.buttons[b][i]))
  {
    if ParseLine(line).Ok? {
      forall b | 0 <= b < |ParseLine(line).value.buttons| {
        ButtonAt(line, b);
      }
    }
  }

  /** The joltages of a parsed line are the numbers between the commas of
      the piece after the buttons, once the braces are trimmed. */
  lemma ParseLineJoltage(line: string)
    ensures ParseLine(line).Ok? ==>
      var pieces := Split(line, ' ');
      var n := LeadingButtons(pieces[1..]);
      1 + n < |pieces| && ParseJoltages(pieces[1 + n]) == Ok(ParseLine(line).value.joltage)
    ensures ParseLine(line).Ok? ==>
      var piece := Split(line, ' ')[1 + LeadingButtons(Split(line, ' ')[1..])];
      |ParseLine(line).value.joltage| == |Split(TrimMatches(piece, {'{', '}'}), ',')|
      && forall i :: 0 <= i < |ParseLine(line).value.joltage| ==>
        ParseNat(Split(TrimMatches(piece, {'{', '}'}), ',')[i]) == Some(ParseLine(line).value.joltage[i])
  {
  }

  // ---- Pressing buttons ----

  /** How often `i` is listed among the indices of a button. */
  function Occurrences(indexes: seq<nat>, i: nat): nat {
    multiset(indexes)[i]
  }

  /** The lights after one press: each position toggled once per listing
      of it, so a position listed twice ends as it began. */
  function Flipped(v: seq<bool>, indexes: seq<nat>): (r: seq<bool>)
    ensures |r| == |v|
    ensures forall i :: 0 <= i < |v| ==> (r[i] <==> (v[i] != (Occurrences(indexes, i) % 2 == 1)))
  {
    seq(|v|, i requires 0 <= i < |v| => v[i] != (Occurrences(indexes, i) % 2 == 1))
  }

  /** The counters after one press: one more per listing of the position. */
  function Bumped(v: seq<nat>, indexes: seq<nat>): (r: seq<nat>)
    ensures |r| == |v|
    ensures forall i :: 0 <= i < |v| ==> r[i] == v[i] + Occurrences(indexes, i)
  {
    seq(|v|, i requires 0 <= i < |v| => v[i] + Occurrences(indexes, i))
  }

  /** Every listed index is a position of the state; indexing past the end
      panics. */
  predicate Fits(indexes: seq<nat>, n: nat) {
    forall k :: 0 <= k < |indexes| ==> indexes[k] < n
  }

  predicate AllFit(buttons: seq<seq<nat>>, n: nat) {
    forall b :: 0 <= b < |buttons| ==> Fits(buttons[b], n)
  }

  lemma OccurrencesStep(indexes: seq<nat>, k: nat)
    requires k < |indexes|
    ensures forall i :: Occurrences(indexes[..k + 1], i) == Occurrences(indexes[..k], i) + if i == indexes[k] then 1 else 0
  {
    assert indexes[..k + 1] == indexes[..k] + [indexes[k]];
  }

  /** The part 1 edge closure for one button: `v.clone()`, then each listed
      index negated in turn; an index past the end panics. */
  method PressLights(v: seq<bool>, indexes: seq<nat>) returns (r: Outcome<seq<bool>>)
    ensures r.Ok? <==> Fits(indexes, |v|)
    ensures r.Ok? ==> r.value == Flipped(v, indexes)
  {
    var next := new bool[|v|](i requires 0 <= i < |v| => v[i]);
    assert next[..] == Flipped(v, indexes[..0]);
    for k := 0 to |indexes|
      invariant Fits(indexes[..k], |v|)
      invariant next[..] == Flipped(v, indexes[..k])
    {
      var index := indexes[k];
      if index >= next.Length {
        return Panic;
      }
      OccurrencesStep(indexes, k);
      next[index] := !next[index];
      assert Fits(indexes[..k + 1], |v|) by {
        assert forall j :: 0 <= j < k ==> indexes[..k + 1][j] == indexes[..k][j];
      }
    }
    assert indexes[..|indexes|] == indexes;
    return Ok(next[..]);
  }

  /** The part 2 edge closure for one button: `v.clone()`, then one added
      to each listed index in turn; an index past the end panics. */
  method PressCounters(v: seq<nat>, indexes: seq<nat>) returns (r: Outcome<seq<nat>>)
    ensures r.Ok? <==> Fits(indexes, |v|)
    ensures r.Ok? ==> r.value == Bumped(v, indexes)
  {
    var next := new nat[|v|](i requires 0 <= i < |v| => v[i]);
    assert next[..] == Bumped(v, indexes[..0]);
    for k := 0 to |indexes|
      invariant Fits(indexes[..k], |v|)
      invariant next[..] == Bumped(v, indexes[..k])
    {
      var index := indexes[k];
      if index >= next.Length {
        return Panic;
      }
      OccurrencesStep(indexes, k);
      next[index] := next[index] + 1;
      assert Fits(indexes[..k + 1], |v|) by {
        assert forall j :: 0 <= j < k ==> indexes[..k + 1][j] == indexes[..k][j];
      }
    }
    assert indexes[..|indexes|] == indexes;
    return Ok(next[..]);
  }

  /** Pressing a button twice leaves the lights as they were. */
  lemma FlipTwice(v: seq<bool>, indexes: seq<nat>)
    ensures Flipped(Flipped(v, indexes), indexes) == v
  {
  }

  /** The order of two presses does not matter for the counters. */
  lemma BumpCommutes(v: seq<nat>, a: seq<nat>, b: seq<nat>)
    ensures Bumped(Bumped(v, a), b) == Bumped(Bumped(v, b), a)
  {
  }

  // ---- The searches ----

  /** The part 1 edges: one per button, the toggled lights at cost 1. */
  function LightEdges(buttons: seq<seq<nat>>): seq<bool> -> seq<(seq<bool>, nat)> {
    v => seq(|buttons|, b requires 0 <= b < |buttons| => (Flipped(v, buttons[b]), 1))
  }

  /** `zip(..).all(|(next, goal)| next <= goal)`: no counter passes its
      target, comparing only as far as the shorter of the two. */
  predicate Within(v: seq<nat>, goal: seq<nat>) {
    forall i :: 0 <= i < |v| && i < |goal| ==> v[i] <= goal[i]
  }

  /** The part 2 edges: one per button, the raised counters at cost 1,
      dropping those that pass a target. */
  function CounterEdges(buttons: seq<seq<nat>>, goal: seq<nat>, v: seq<nat>): seq<(seq<nat>, nat)> {
    if buttons == [] then []
    else
      var rest := CounterEdges(buttons[..|buttons| - 1], goal, v);
      var next := Bumped(v, buttons[|buttons| - 1]);
      if Within(next, goal) then rest + [(next, 1)] else rest
  }

  /** The part 2 successors are exactly the presses of some button that
      pass no target, each at cost 1. */
  lemma {:induction false} CounterEdgesMeaning(buttons: seq<seq<nat>>, goal: seq<nat>, v: seq<nat>)
    ensures forall e :: e in CounterEdges(buttons, goal, v) <==>
      e.1 == 1 && Within(e.0, goal) && exists b :: 0 <= b < |buttons| && e.0 == Bumped(v, buttons[b])
  {
    if buttons != [] {
      var last := |buttons| - 1;
      CounterEdgesMeaning(buttons[..last], goal, v);
      assert forall b :: 0 <= b < last ==> buttons[..last][b] == buttons[b];
    }
  }

  /** The part 2 edge function, with the machine's buttons and targets. */
  function CounterGraph(buttons: seq<seq<nat>>, goal: seq<nat>): seq<nat> -> seq<(seq<nat>, nat)> {
    v => CounterEdges(buttons, goal, v)
  }

  /** Every light pattern of length `n`: a finite set closed under the part
      1 edges. */
  ghost function Patterns(n: nat): (r: set<seq<bool>>)
    ensures forall v :: v in r <==> |v| == n
  {
    if n == 0 then {[]}
    else
      var shorter := Patterns(n - 1);
      var r := (set v | v in shorter :: v + [false]) + (set v | v in shorter :: v + [true]);
      forall v | |v| == n ensures v in r {
        assert v[..n - 1] in shorter;
        if v[n - 1] {
          assert v == v[..n - 1] + [true];
        } else {
          assert v == v[..n - 1] + [false];
        }
      }
      r
  }

  /** Every counter state within the targets: a finite set closed under the
      part 2 edges. */
  ghost function Boxes(goal: seq<nat>): (r: set<seq<nat>>)
    ensures forall v :: v in r <==> |v| == |goal| && forall i :: 0 <= i < |v| ==> v[i] <= goal[i]
  {
    if goal == [] then {[]}
    else
      var n := |goal| - 1;
      var shorter := Boxes(goal[..n]);
      var r := set v, x | v in shorter && 0 <= x <= goal[n] :: v + [x];
      forall v | |v| == |goal| && (forall i :: 0 <= i < |v| ==> v[i] <= goal[i]) ensures v in r {
        assert v == v[..n] + [v[n]];
        assert forall i :: 0 <= i < n ==> v[..n][i] == v[i] && goal[..n][i] == goal[i];
        assert v[..n] in shorter;
      }
      r
  }

  lemma PatternsClosed(buttons: seq<seq<nat>>, n: nat)
    ensures ClosedUnder(Unweighted(LightEdges(buttons)), Patterns(n))
  {
    forall u, w | u in Patterns(n) && w in Unweighted(LightEdges(buttons))(u) ensures w in Patterns(n) {
      var es := LightEdges(buttons)(u);
      var k :| 0 <= k < |Targets(es)| && Targets(es)[k] == w;
    }
  }

  lemma BoxesClosed(buttons: seq<seq<nat>>, goal: seq<nat>)
    ensures ClosedUnder(Unweighted(CounterGraph(buttons, goal)), Boxes(goal))
  {
    var edges := CounterGraph(buttons, goal);
    forall u, w | u in Boxes(goal) && w in Unweighted(edges)(u) ensures w in Boxes(goal) {
      var es := edges(u);
      var k :| 0 <= k < |Targets(es)| && Targets(es)[k] == w;
      CounterEdgesMeaning(buttons, goal, u);
      assert es[k] in es;
    }
  }

  /** All lights off. */
  function Dark(n: nat): (r: seq<bool>)
    ensures |r| == n && forall i :: 0 <= i < n ==> !r[i]
  {
    seq(n, i => false)
  }

  /** All counters zero. */
  function Zeros(n: nat): (r: seq<nat>)
    ensures |r| == n && forall i :: 0 <= i < n ==> r[i] == 0
  {
    seq(n, i => 0)
  }

  /** `d` presses is the fewest that light `m`'s pattern from all off. */
  ghost predicate FewestLights(m: Machine, d: nat) {
    IsMinDistance(LightEdges(m.buttons), Dark(|m.lights|), m.lights, d)
  }

  /** `d` presses is the fewest that raise `m`'s counters from zero to the
      targets. */
  ghost predicate FewestCounters(m: Machine, d: nat) {
    IsMinDistance(CounterGraph(m.buttons, m.joltage), Zeros(|m.joltage|), m.joltage, d)
  }

  /** Part 1 is solvable for `m`: the search does not panic on a button,
      and some press sequence reaches the lights. */
  ghost predicate LightsSolvable(m: Machine) {
    (Dark(|m.lights|) == m.lights || AllFit(m.buttons, |m.lights|))
    && exists d :: FewestLights(m, d)
  }

  /** Part 2 is solvable for `m`, likewise. */
  ghost predicate CountersSolvable(m: Machine) {
    (Zeros(|m.joltage|) == m.joltage || AllFit(m.buttons, |m.joltage|))
    && exists d :: FewestCounters(m, d)
  }

  /** One machine of `part1`: `min_distance_to` from all lights off to the
      wanted lights, `unwrap`ped. Unless the start is already the goal, the
      start is expanded with every button, so a button listing a position
      past the end panics. */
  method FewestLightPresses(m: Machine) returns (r: Outcome<nat>)
    ensures r.Ok? <==> LightsSolvable(m)
    ensures r.Ok? ==> FewestLights(m, r.value)
  {
    var start := Dark(|m.lights|);
    if start != m.lights && !AllFit(m.buttons, |m.lights|) {
      return Panic;
    }
    PatternsClosed(m.buttons, |m.lights|);
    var goal := (v, _) => v == m.lights;
    var d := MinDistanceTo(start, goal, LightEdges(m.buttons), Patterns(|m.lights|));
    if d.None? {
      forall n: nat ensures !FewestLights(m, n) {
        assert goal(m.lights, n);
      }
      return Panic;
    }
    ghost var v :| IsMinDistance(LightEdges(m.buttons), start, v, d.value) && goal(v, d.value);
    assert FewestLights(m, d.value);
    return Ok(d.value);
  }

  /** One machine of `part2`: `min_distance_to` from all counters zero to
      the wanted joltages, over presses that pass no target. */
  method FewestCounterPresses(m: Machine) returns (r: Outcome<nat>)
    ensures r.Ok? <==> CountersSolvable(m)
    ensures r.Ok? ==> FewestCounters(m, r.value)
  {
    var start := Zeros(|m.joltage|);
    if start != m.joltage && !AllFit(m.buttons, |m.joltage|) {
      return Panic;
    }
    BoxesClosed(m.buttons, m.joltage);
    var goal := (v, _) => v == m.joltage;
    var d := MinDistanceTo(start, goal, CounterGraph(m.buttons, m.joltage), Boxes(m.joltage));
    if d.None? {
      forall n: nat ensures !FewestCounters(m, n) {
        assert goal(m.joltage, n);
      }
      return Panic;
    }
    ghost var v :| IsMinDistance(CounterGraph(m.buttons, m.joltage), start, v, d.value) && goal(v, d.value);
    assert FewestCounters(m, d.value);
    return Ok(d.value);
  }

  ghost predicate AllLightsSolvable(machines: seq<Machine>) {
    forall k :: 0 <= k < |machines| ==> LightsSolvable(machines[k])
  }

  ghost predicate AllCountersSolvable(machines: seq<Machine>) {
    forall k :: 0 <= k < |machines| ==> CountersSolvable(machines[k])
  }

  /** Every machine of `machines` is solvable and `presses` holds the
      fewest presses of each. */
  ghost predicate LightsAnswered(machines: seq<Machine>, presses: seq<nat>) {
    |presses| == |machines|
    && forall k :: 0 <= k < |machines| ==> LightsSolvable(machines[k]) && FewestLights(machines[k], presses[k])
  }

  lemma LightsAnsweredStep(machines: seq<Machine>, presses: seq<nat>, k: nat, d: nat)
    requires k < |machines| && LightsAnswered(machines[..k], presses)
    requires LightsSolvable(machines[k]) && FewestLights(machines[k], d)
    ensures LightsAnswered(machines[..k + 1], presses + [d])
  {
    assert forall j :: 0 <= j < k ==> machines[..k + 1][j] == machines[..k][j];
  }

  /** `part1` on the parsed machines: every machine is solvable, and the
      answer is the sum of the fewest presses per machine. */
  method SumLightPresses(machines: seq<Machine>) returns (r: Outcome<nat>, ghost presses: seq<nat>)
    ensures r.Ok? <==> AllLightsSolvable(machines)
    ensures r.Ok? ==> (|presses| == |machines| && r.value == Sum(presses)
      && forall k :: 0 <= k < |machines| ==> FewestLights(machines[k], presses[k]))
  {
    var total: nat := 0;
    presses := [];
    for k := 0 to |machines|
      invariant |presses| == k && total == Sum(presses)
      invariant LightsAnswered(machines[..k], presses)
    {
      var d := FewestLightPresses(machines[k]);
      if d.Panic? {
        return Panic, presses;
      }
      LightsAnsweredStep(machines, presses, k, d.value);
      assert (presses + [d.value])[..k] == presses;
      presses := presses + [d.value];
      total := total + d.value;
    }
    assert machines[..|machines|] == machines;
    return Ok(total), presses;
  }

  /** Every machine of `machines` is solvable and `presses` holds the
      fewest presses of each. */
  ghost predicate CountersAnswered(machines: seq<Machine>, presses: seq<nat>) {
    |presses| == |machines|
    && forall k :: 0 <= k < |machines| ==> CountersSolvable(machines[k]) && FewestCounters(machines[k], presses[k])
  }

  lemma CountersAnsweredStep(machines: seq<Machine>, presses: seq<nat>, k: nat, d: nat)
    requires k < |machines| && CountersAnswered(machines[..k], presses)
    requires CountersSolvable(machines[k]) && FewestCounters(machines[k], d)
    ensures CountersAnswered(machines[..k + 1], presses + [d])
  {
    assert forall j :: 0 <= j < k ==> machines[..k + 1][j] == machines[..k][j];
  }

  /** `part2` on the parsed machines, likewise. */
  method SumCounterPresses(machines: seq<Machine>) returns (r: Outcome<nat>, ghost presses: seq<nat>)
    ensures r.Ok? <==> AllCountersSolvable(machines)
    ensures r.Ok? ==> (|presses| == |machines| && r.value == Sum(presses)
      && forall k :: 0 <= k < |machines| ==> FewestCounters(machines[k], presses[k]))
  {
    var total: nat := 0;
    presses := [];
    for k := 0 to |machines|
      invariant |presses| == k && total == Sum(presses)
      invariant CountersAnswered(machines[..k], presses)
    {
      var d := FewestCounterPresses(machines[k]);
      if d.Panic? {
        return Panic, presses;
      }
      CountersAnsweredStep(machines, presses, k, d.value);
      assert (presses + [d.value])[..k] == presses;
      presses := presses + [d.value];
      total := total + d.value;
    }
    assert machines[..|machines|] == machines;
    return Ok(total), presses;
  }

  /** `part1`: a line that does not parse panics; otherwise the sum over
      the machines. */
  method Part1(input: string) returns (r: Outcome<nat>, ghost presses: seq<nat>)
    ensures AllOk(Lines(input), ParseLine).Panic? ==> r.Panic?
    ensures AllOk(Lines(input), ParseLine).Ok? ==> var machines := AllOk(Lines(input), ParseLine).value;
      (r.Ok? <==> AllLightsSolvable(machines))
      && (r.Ok? ==> (|presses| == |machines| && r.value == Sum(presses)
        && forall k :: 0 <= k < |machines| ==> FewestLights(machines[k], presses[k])))
  {
    var machines := AllOk(Lines(input), ParseLine);
    if machines.Panic? {
      return Panic, [];
    }
    r, presses := SumLightPresses(machines.value);
  }

  /** `part2`, likewise. */
  method Part2(input: string) returns (r: Outcome<nat>, ghost presses: seq<nat>)
    ensures AllOk(Lines(input), ParseLine).Panic? ==> r.Panic?
    ensures AllOk(Lines(input), ParseLine).Ok? ==> var machines := AllOk(Lines(input), ParseLine).value;
      (r.Ok? <==> AllCountersSolvable(machines))
      && (r.Ok? ==> (|presses| == |machines| && r.value == Sum(presses)
        && forall k :: 0 <= k < |machines| ==> FewestCounters(machines[k], presses[k])))
  {
    var machines := AllOk(Lines(input), ParseLine);
    if machines.Panic? {
      return Panic, [];
    }
    r, presses := SumCounterPresses(machines.value);
  }
}
