// src/day11.rs: devices and the devices their outputs feed, one device per
// line; part 1 counts the paths from "you" to "out".

module Day11 {
  import opened Base
  import opened Text
  import opened GraphWalks
  import opened GraphPaths

  /** One line "src: a b c": `split(':')` must give exactly two pieces
      (`collect_tuple().unwrap()`); the targets are the second piece,
      trimmed and split on single spaces. */
  function ParseEntry(line: string): (r: Outcome<(string, seq<string>)>)
    ensures r.Ok? <==> |Split(line, ':')| == 2
    ensures r.Ok? ==> r.value == (Split(line, ':')[0], Split(Trim(Split(line, ':')[1]), ' '))
    ensures r.Ok? ==> ':' !in r.value.0 && |r.value.1| >= 1
  {
    var parts := Split(line, ':');
    if |parts| != 2 then Panic else Ok((parts[0], Split(Trim(parts[1]), ' ')))
  }

  /** `collect` into a `HashMap`: entries inserted in order, so a later
      line for the same device replaces an earlier one. */
  function Adjacency(entries: seq<(string, seq<string>)>): (m: map<string, seq<string>>)
    ensures m.Keys == set k | 0 <= k < |entries| :: entries[k].0
  {
    if entries == [] then map[]
    else
      var last := |entries| - 1;
      var m := Adjacency(entries[..last]);
      assert forall k :: 0 <= k < last ==> entries[..last][k] == entries[k];
      m[entries[last].0 := entries[last].1]
  }

  /** The targets of a device are those of the last line naming it. */
  lemma {:induction false} AdjacencyLastWins(entries: seq<(string, seq<string>)>, k: nat)
    requires k < |entries|
    requires forall j :: k < j < |entries| ==> entries[j].0 != entries[k].0
    ensures Adjacency(entries)[entries[k].0] == entries[k].1
  {
    var last := |entries| - 1;
    if k < last {
      AdjacencyLastWins(entries[..last], k);
    }
  }

  /** The edge closure of `part1`: a device without a line has no
      outputs (`unwrap_or(vec![])`). */
  function Successors(adjacency: map<string, seq<string>>): string -> seq<string> {
    node => if node in adjacency then adjacency[node] else []
  }

  /** The whole input as a map; any line without exactly one ':' panics. */
  function Devices(input: string): (r: Outcome<map<string, seq<string>>>)
    ensures r.Ok? <==> forall k :: 0 <= k < |Lines(input)| ==> ParseEntry(Lines(input)[k]).Ok?
  {
    match AllOk(Lines(input), ParseEntry)
    case Ok(entries) => Ok(Adjacency(entries))
    case Panic => Panic
  }

  /** `all_paths("you", "out", ..).count()` with each path yielded once:
      the number of walks from "you" that stop at their first "out". The
      ghost `universe` and `rank` witness that what "you" reaches is
      finite and free of cycles; on a cycle the source never returns. */
  method CountFromYou(adjacency: map<string, seq<string>>, ghost universe: set<string>, ghost rank: string -> nat)
    returns (count: nat, ghost paths: seq<seq<string>>)
    requires Ranked(Successors(adjacency), universe, rank) && "you" in universe
    ensures count == |paths| && paths == PathsFrom(Successors(adjacency), universe, rank, "out", "you")
    ensures forall p :: p in paths <==> WalkToEnd(Successors(adjacency), p, "you", "out")
    ensures DistinctSuccessors(Successors(adjacency), universe) ==> NoDuplicates(paths)
  {
    var edges := Successors(adjacency);
    count, paths := CountPaths("you", "out", edges, universe, rank);
    forall p ensures p in paths <==> WalkToEnd(edges, p, "you", "out") {
      if p in paths {
        PathsFromSound(edges, universe, rank, "out", "you", p);
      }
      if WalkToEnd(edges, p, "you", "out") {
        PathsFromComplete(edges, universe, rank, "out", "you", p);
      }
    }
    if DistinctSuccessors(edges, universe) {
      PathsFromDistinct(edges, universe, rank, "out", "you");
    }
  }

  /** `.count()` over the iterator as written, cut off after `fuel` pulls:
      since a pull that finds "out" leaves it on the stack, the count runs
      up to the cut-off as soon as there is any path at all, and the source
      never returns; only with no path does it end, at 0. */
  method CountFromYouAsWritten(adjacency: map<string, seq<string>>, ghost universe: set<string>, ghost rank: string -> nat, fuel: nat)
    returns (count: nat)
    requires Ranked(Successors(adjacency), universe, rank) && "you" in universe
    ensures count == if PathsFrom(Successors(adjacency), universe, rank, "out", "you") == [] then 0 else fuel
  {
    var cursor := new AllPaths("you", "out", Successors(adjacency), universe, rank);
    cursor.StartPending();
    ghost var paths := cursor.Pending();
    count := 0;
    while count < fuel
      invariant cursor.Valid() && cursor.Pending() == paths
      invariant count <= fuel && (paths == [] ==> count == 0)
      decreases fuel - count
    {
      var r := cursor.Next();
      if r.None? {
        return;
      }
      count := count + 1;
    }
  }

  /** `part1` as written, its `.count()` cut off after `fuel` pulls: a
      malformed line panics; with no walk from "you" to "out" the answer
      is 0, and with one the count runs up to the cut-off, as the source
      never returns. */
  method Part1(input: string, ghost universe: set<string>, ghost rank: string -> nat, fuel: nat)
    returns (r: Outcome<nat>)
    requires Devices(input).Ok? ==> Ranked(Successors(Devices(input).value), universe, rank) && "you" in universe
    ensures r.Ok? <==> Devices(input).Ok?
    ensures r.Ok? ==> r.value == if exists p :: WalkToEnd(Successors(Devices(input).value), p, "you", "out") then fuel else 0
  {
    var devices := Devices(input);
    if devices.Panic? {
      return Panic;
    }
    var count := CountFromYouAsWritten(devices.value, universe, rank, fuel);
    ghost var edges := Successors(devices.value);
    ghost var paths := PathsFrom(edges, universe, rank, "out", "you");
    if paths == [] {
      forall p | WalkToEnd(edges, p, "you", "out") ensures false {
        PathsFromComplete(edges, universe, rank, "out", "you", p);
      }
    } else {
      PathsFromSound(edges, universe, rank, "out", "you", paths[0]);
    }
    r := Ok(count);
  }

  /** `part1` with each path yielded once: a malformed line panics;
      otherwise the number of walks from "you" that stop at their first
      "out". */
  method Part1Intended(input: string, ghost universe: set<string>, ghost rank: string -> nat)
    returns (r: Outcome<nat>, ghost paths: seq<seq<string>>)
    requires Devices(input).Ok? ==> Ranked(Successors(Devices(input).value), universe, rank) && "you" in universe
    ensures r.Ok? <==> Devices(input).Ok?
    ensures r.Ok? ==> (r.value == |paths|
      && forall p :: p in paths <==> WalkToEnd(Successors(Devices(input).value), p, "you", "out"))
  {
    var devices := Devices(input);
    if devices.Panic? {
      return Panic, [];
    }
    var count: nat;
    count, paths := CountFromYou(devices.value, universe, rank);
    r := Ok(count);
  }

  // "you" feeds a and b, both of which feed "out".
  function SampleDevices(): map<string, seq<string>> {
    map["you" := ["a", "b"], "a" := ["out"], "b" := ["out"]]
  }

  function SampleRank(node: string): nat {
    if node == "you" then 2 else if node == "out" then 0 else 1
  }

  /** On the small sample the intended count is 2, and the count as
      written reaches any cut-off. */
  method Sample(fuel: nat) returns (count: nat, written: nat)
    ensures count == 2 && written == fuel
  {
    var edges := Successors(SampleDevices());
    ghost var universe := {"you", "a", "b", "out"};
    assert Ranked(edges, universe, SampleRank);
    ghost var ends := Through(edges, universe, SampleRank, "out", ["out"], 1);
    assert ends == [["out"]];
    assert PathsFrom(edges, universe, SampleRank, "out", "a") == Prefixed(["a"], ends);
    assert PathsFrom(edges, universe, SampleRank, "out", "b") == Prefixed(["b"], ends);
    ghost var both := Through(edges, universe, SampleRank, "out", ["a", "b"], 2);
    assert |both| == 2 by {
      assert both == PathsFrom(edges, universe, SampleRank, "out", "b") + Through(edges, universe, SampleRank, "out", ["a"], 2);
      assert Through(edges, universe, SampleRank, "out", ["a"], 2)
        == PathsFrom(edges, universe, SampleRank, "out", "a") + Through(edges, universe, SampleRank, "out", [], 2);
    }
    assert PathsFrom(edges, universe, SampleRank, "out", "you") == Prefixed(["you"], both);
    ghost var paths;
    count, paths := CountFromYou(SampleDevices(), universe, SampleRank);
    written := CountFromYouAsWritten(SampleDevices(), universe, SampleRank, fuel);
  }
}
