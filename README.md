# aoc2025 in Dafny

A model of jder/aoc2025, a set of Advent of Code 2025 solutions in Rust,
with proofs about it. The model covers two shared libraries and the twelve
puzzle days:

- **Graph searches** (`src/graph.rs`):
  - the lazy depth-first `find`;
  - Dijkstra's `min_distances` and `min_distance_to`;
  - `all_pairs_min_distances` over its flat `DistanceStorage`;
  - the lazy `all_paths`;
  - `flood_fill_from`.

  Each iterator is a class with a `Next` method. Each search is proved
  against a specification of reachability, walks or shortest distances.
  Termination is carried by ghost parameters: a finite vertex set closed
  under the edges, and for `all_paths` also a rank that falls along every
  edge.
- **Grids** (`src/grid.rs`):
  - the row-major `Grid` class, with `set` updating it in place;
  - `Cell` values and neighbours;
  - the `walk` iterator;
  - `Region`, a set of locations;
  - `Face`, the side of a cell, with its normalisation.
- **Days 01–12** (`src/dayNN.rs`): each day's parsing and part 1, and
  part 2 where the source has one. A Rust panic is an explicit `Panic`
  outcome. Loops that update state are methods, and each method is proved
  against a function of its inputs.

| file | module | models |
|---|---|---|
| base.dfy | Base | `Option`, panics (`Outcome`), `Ordering`, sums and products |
| text.dfy | Text | the `str` methods the days use: `lines`, `split`, `trim`, `split_whitespace`, `parse` |
| slices.dfy, sorting.dfy | Slices, Sorting | `chunks`, `concat`, a stable `sorted()`, `rev()` |
| graph_walks.dfy | GraphWalks | walks, reachability and closed vertex sets shared by the searches |
| graph_find.dfy, graph_shortest.dfy, graph_allpairs.dfy, graph_paths.dfy, graph_flood.dfy | GraphFind, GraphShortest, GraphAllPairs, GraphPaths, GraphFlood | `src/graph.rs` |
| graph_shortest_state.dfy, graph_regions.dfy | GraphShortestState, GraphRegions | the loop invariants of `min_distances_inner` and `flood_fill_from` |
| grid.dfy | Grids | `src/grid.rs` |
| day01.dfy … day12.dfy | Day01 … Day12 | `src/day01.rs` … `src/day12.rs` |

## Model

| member | source | states |
|---|---|---|
| GraphFind.Find.constructor | src/graph.rs:19-20 | a fresh search has visited nothing and holds only the start in its queue |
| GraphFind.Find.Step | src/graph.rs:23-28 | one turn pops the last queued vertex; a vertex already visited changes nothing else, a new one is marked visited and all its successors are queued behind the rest |
| GraphFind.Find.Exhausted | src/graph.rs:22-34 | once the queue is empty the visited set is exactly the set of vertices reachable from the start |
| GraphFind.Find.Search | src/graph.rs:23-34 | the loop stops at the first new vertex that satisfies the predicate, having expanded only non-matching vertices before it, and otherwise runs until the queue is empty without yielding |
| GraphFind.Find.Next | src/graph.rs:22-35 | a pull yields a vertex that satisfies the predicate and was neither visited nor yielded before; the vertices it expands extend the expansion log in the order they are popped, the yielded vertex is the last of them and no earlier one matches; `None` comes only with an empty queue, after expanding only non-matching vertices, and then the vertices yielded so far are exactly the reachable ones that satisfy the predicate |
| GraphFind.ExampleFind | src/graph.rs:10-36 | searching A→B,C; B→C; C→D from A for C yields C once and then `None` |
| GraphShortest.PopMin | src/graph.rs:54-56 | the entry taken from the min-heap carries the least distance of all queued entries |
| GraphShortest.SettleMin | src/graph.rs:56-62 | the least queued entry of a vertex not yet settled is that vertex's least walk cost (the step that makes Dijkstra's algorithm correct) |
| GraphShortest.MinDistancesInner | src/graph.rs:45-72 | every recorded distance is the least walk cost to its vertex; without a stop exactly the reachable vertices are recorded and none satisfies the stop condition; after a stop at distance d some recorded vertex satisfies it at d, and every vertex with a least distance below d is recorded and does not satisfy it |
| GraphShortest.MinDistances | src/graph.rs:38-43 | the map's keys are exactly the vertices reachable from the start, and each value is the least walk cost to that key |
| GraphShortest.MinDistanceTo | src/graph.rs:74-92 | `Some(d)`: some vertex meets the goal at its least distance d and no vertex meets it at a smaller least distance; `None`: no vertex meets the goal at its least distance |
| GraphShortest.ExampleDistance | src/graph.rs:74-92 | on A→B (1), B→C (2), A→C (5), C→D (1) the least distance from A to D is 4 |
| GraphAllPairs.IndexMap | src/graph.rs:103-104 | exactly the listed vertices are numbered, each by a position that holds it |
| GraphAllPairs.IndexMapLast | src/graph.rs:104 | a vertex listed more than once is numbered by its last position |
| GraphAllPairs.IndexMapDistinct | src/graph.rs:103-105 | with no vertex listed twice, every vertex is numbered by its own position and the matrix side is the number of vertices |
| GraphAllPairs.DistanceStorage.constructor | src/graph.rs:103-107 | the new storage numbers the vertices as `IndexMap` does and holds no distance |
| GraphAllPairs.DistanceStorage.Index | src/graph.rs:109-113 | the lookup panics exactly when either vertex is not numbered |
| GraphAllPairs.DistanceStorage.Get | src/graph.rs:115-117 | panics on a vertex that is not numbered or a position past the end; otherwise returns the stored entry |
| GraphAllPairs.DistanceStorage.Set | src/graph.rs:119-124 | returns what `get` returned before, stores the distance at that one position and changes nothing else |
| GraphAllPairs.DistanceStorage.SetByIndex | src/graph.rs:138-143 | returns the previous entry, stores the distance at row-major position s·n+e and changes nothing else |
| GraphAllPairs.DistanceStorage.GetIsByIndex | src/graph.rs:109-117 | looking a pair up by vertex is looking it up by the two vertex numbers |
| GraphAllPairs.DistanceStorage.Iter | src/graph.rs:145-152 | panics unless every pair of numbered vertices has a distance; then yields exactly the triples (start, end, stored distance) |
| GraphAllPairs.Improve | src/graph.rs:180-182 | the relaxed entry is at most the current one and at most the route through the middle vertex, and it is one of the two |
| GraphAllPairs.PathsStable | src/graph.rs:171-185 | round k leaves row k and column k unchanged, so updating the matrix in place reads the values the recurrence needs |
| GraphAllPairs.PathsSound | src/graph.rs:171-185 | every distance the recurrence produces is the cost of an actual walk whose inner vertices are below the round |
| GraphAllPairs.PathsOptimal | src/graph.rs:171-185 | no walk with inner vertices below the round is cheaper than the recurrence's distance, and every such walk makes the distance exist |
| GraphAllPairs.AllRoundsMeaning | src/graph.rs:171-185 | after all rounds an entry exists exactly when a walk of at least one edge joins the two vertices, and it is the least cost of such a walk |
| GraphAllPairs.Seed | src/graph.rs:162-169 | seeding keeps the matrix length and every entry already set |
| GraphAllPairs.SeedsCleanlyStep | src/graph.rs:162-169 | seeding the first edge into a free entry leaves the rest able to seed cleanly exactly when the whole list could |
| GraphAllPairs.SeedMeaning | src/graph.rs:162-169 | seeding succeeds exactly when every edge has both ends numbered, lands inside the matrix on an entry not yet set, and no two edges land on the same entry (otherwise a lookup panics or the `assert!` fails); then each edge's entry holds its distance and every other entry is unchanged |
| GraphAllPairs.TriplesMeaning | src/graph.rs:162-168 | a start's triples are exactly its edges, each prefixed with the start |
| GraphAllPairs.EdgeListMeaning | src/graph.rs:162-168 | the seeding loop visits exactly the triples (start, next, distance) whose start is listed and has that edge |
| GraphAllPairs.SeedOfEntries | src/graph.rs:155-169 | with no vertex listed twice, a seeded entry (i, j) holds distance d exactly when the i-th vertex has an edge of distance d to the j-th |
| GraphAllPairs.CleanSeedInside | src/graph.rs:162-168 | when seeding succeeds, every edge of a listed vertex leads to a listed vertex |
| GraphAllPairs.CleanSeedUnrepeated | src/graph.rs:162-168 | when seeding succeeds, no (start, next) pair occurs twice among the edges |
| GraphAllPairs.FittingEdgesSeed | src/graph.rs:162-168 | with distinct vertices, edges that stay among them and no repeated pair, seeding succeeds |
| GraphAllPairs.SeedOfPanics | src/graph.rs:155-169 | with no vertex listed twice, seeding panics exactly when an edge leads to an unlisted vertex or some (start, next) pair occurs twice |
| GraphAllPairs.SeedEdges | src/graph.rs:162-169 | the seeding loop succeeds exactly when `SeedOf` does and leaves the matrix `SeedOf` describes |
| GraphAllPairs.RelaxAll | src/graph.rs:171-185 | after the three nested loops every entry holds the recurrence after all rounds, and no known distance has grown |
| GraphAllPairs.AllPairsMinDistances | src/graph.rs:155-188 | panics exactly when seeding does, which with distinct vertices is when an edge leaves the vertices or a pair of vertices has two edges; otherwise every entry holds the least cost of a walk of at least one edge between the two vertices over the seeded matrix |
| GraphFlood.Expand | src/graph.rs:236-247 | the new region starts at its seed, lists no vertex twice and holds exactly the vertices the seed reaches that were not visited before; the visited set grows by exactly the region |
| GraphFlood.FloodFillFrom | src/graph.rs:221-254 | the regions are non-empty, free of repeats and pairwise disjoint; each starts at the first seed not covered by an earlier region and holds exactly what that seed newly reaches; together they hold exactly what the seeds reach |
| GraphFlood.NextSeed | src/graph.rs:232-252 | one turn of the loop over the seeds keeps the loop invariant for one more seed and keeps the visited set inside the closed vertex set |
| GraphRegions.OpenRegion | src/graph.rs:236-250 | a seed not yet visited opens the region of what it newly reaches, and the loop invariant holds for one more seed |
| GraphRegions.SkipSeed | src/graph.rs:233-235 | a seed already visited opens no region, and the loop invariant holds for one more seed |
| GraphPaths.PathsFromSound | src/graph.rs:190-219 | every path the enumeration reaches is a walk from the start that meets the end only at its last vertex |
| GraphPaths.PathsFromComplete | src/graph.rs:190-219 | every walk from the start that meets the end only at its last vertex is reached by the enumeration |
| GraphPaths.PathsFromDistinct | src/graph.rs:190-219 | when no vertex lists a successor twice, no path is reached twice |
| GraphPaths.AllPaths.constructor | src/graph.rs:194-195 | the iterator starts with one frame: the start and all of its successors |
| GraphPaths.AllPaths.StartPending | src/graph.rs:194-195 | a fresh iterator still has every path from the start to find |
| GraphPaths.AllPaths.PathAtEnd | src/graph.rs:198-206 | when the top frame holds the end, the frame vertices form a walk from start to end that meets the end only at the top |
| GraphPaths.AllPaths.Advance | src/graph.rs:209-214 | one step pushes the last remaining alternative of the top frame with its successors, or pops an exhausted frame; the paths still to find are unchanged and the remaining work decreases |
| GraphPaths.AllPaths.Next | src/graph.rs:196-218 | as written: a pull yields the frame vertices followed by the end once more, and leaves the stack unchanged, so the next pull yields the same path again; `None` only after the stack empties |
| GraphPaths.AllPaths.NextOnce | src/graph.rs:196-218 | corrected pull: yields the first path still to find, once, and removes it from the paths still to find |
| GraphPaths.CountPaths | src/graph.rs:190-219 | pulling the corrected iterator until `None` counts exactly the paths from start to end |
| GraphPaths.ExampleRepeats | src/graph.rs:197-206 | on the one-edge graph y→o the iterator as written yields [y, o, o], then the same path again |
| GraphPaths.ExampleOnce | src/graph.rs:197-206 | on the same graph the corrected iterator yields [y, o] and then `None` |
| Grids.Locations | src/grid.rs:64-68 | the locations `cells` visits: w·h of them, all inside the grid |
| Grids.LocationsAt | src/grid.rs:25-33 | an in-bounds location sits at its row-major position y·w+x among the visited locations |
| Grids.LocationsIndex | src/grid.rs:64-68 | the k-th visited location has row-major position k |
| Grids.Grid.New | src/grid.rs:14-23 | a grid of the given dimensions whose every element is the given one |
| Grids.Grid.FromContents | src/grid.rs:86-90 | a grid of the given dimensions over the given row-major contents |
| Grids.Grid.Index | src/grid.rs:25-33 | the position of an in-bounds location is below width·height and is where `cells` visits it |
| Grids.Grid.Locate | src/grid.rs:25-33 | `index` panics exactly when the location is outside the grid; otherwise the position is below width·height and is where `cells` visits the location |
| Grids.Grid.IndexInjective | src/grid.rs:25-33 | distinct in-bounds locations have distinct positions |
| Grids.Grid.CellAt | src/grid.rs:36-49 | a cell exactly for the in-bounds locations, on this grid at that location |
| Grids.Grid.Set | src/grid.rs:51-54 | panics exactly outside the grid, leaving the grid unchanged; otherwise the element at the location becomes the value and every other location keeps its element |
| Grids.Grid.Cells | src/grid.rs:64-73 | one cell per location of the grid, row by row: the cell of a location comes at its index |
| Grids.Grid.Map | src/grid.rs:75-91 | a fresh grid of the same dimensions whose element at each location is `f` of that location's cell |
| Grids.Grid.MapRow | src/grid.rs:78-83 | one pass of the inner loop appends `f` of each cell of the row and keeps the rows before |
| Grids.ConcatRectangular | src/grid.rs:100-112 | lines of equal length concatenate to width·height characters |
| Grids.NewWithLines | src/grid.rs:95-119 | panics exactly when some line's length differs from the first's; otherwise the lines concatenated, as wide as the first line (0 without lines) and one row per line |
| Grids.DisplayRoundTrip | src/grid.rs:122-132 | displaying a non-empty grid without line breaks and reading it back with `new_with_lines` gives the same width, height and contents |
| Grids.AllHeadings | src/grid.rs:137-141 | eight headings |
| Grids.AllHeadingsMembers | src/grid.rs:137-141 | the headings are exactly the non-zero offsets with both coordinates in {-1, 0, 1} |
| Grids.AllHeadingsOrdered | src/grid.rs:137-141 | the headings come with dy outermost, then dx, both rising |
| Grids.NeighborsOf | src/grid.rs:143-145 | the location plus each of the eight headings, in order |
| Grids.NeighborsAdjacent | src/grid.rs:137-145 | the neighbours of a location are exactly the other locations at most one step away in each direction |
| Grids.CardinalNeighborsOf | src/grid.rs:147-158 | the location plus north, east, south and west, in that order |
| Grids.CardinalNeighborsAtDistanceOne | src/grid.rs:147-158 | the cardinal neighbours of a location are exactly the locations at Manhattan distance 1 |
| Grids.Cell.Offset | src/grid.rs:179-181 | the cell (dx, dy) away on the same grid, exactly when that location is in bounds |
| Grids.Cell.Neighbors | src/grid.rs:183-186 | only on-grid cells adjacent to this one, and every on-grid adjacent cell |
| Grids.Cell.CardinalNeighbors | src/grid.rs:188-191 | only on-grid cells one step away, and every such cell |
| Grids.CellNeighborsAdjacent | src/grid.rs:183-186 | a cell is among another's neighbours exactly when it is on the same grid, in bounds and adjacent |
| Grids.CompareMeaning | src/grid.rs:238-246 | with distinct grids at distinct addresses, the order says `Equal` exactly for equal cells and is antisymmetric |
| Grids.CompareTransitive | src/grid.rs:238-246 | the order on cells is transitive |
| Grids.Walk.constructor | src/grid.rs:195-211 | a walk starts at the given cell with the given step, owing the start cell exactly when inclusive |
| Grids.Walk.Next | src/grid.rs:196-205 | an inclusive walk first yields its start cell; afterwards each pull yields the next cell one step further on while it is on the grid, and `None` (with nothing changed) once it would leave |
| Grids.WalkEnds | src/grid.rs:193-205 | with a non-zero step a walk from an on-grid cell stays on the grid for fewer than width + height steps, so it ends |
| Grids.Region.constructor | src/grid.rs:267-271 | a new region is empty |
| Grids.Region.Insert | src/grid.rs:273-275 | the region gains exactly the location |
| Grids.Region.Iter | src/grid.rs:281-283 | every member exactly once |
| Grids.FrontierMeaning | src/grid.rs:285-292 | a location is in the frontier of a set exactly when it is outside the set and adjacent to a member |
| Grids.Region.Neighbors | src/grid.rs:285-292 | exactly the locations outside the region adjacent to some member |
| Grids.TouchingLocations | src/grid.rs:340-349 | the face's start cell and the cell across it, one step apart |
| Grids.NewFace | src/grid.rs:313-337 | for a unit cardinal heading, a face is vertical exactly for a horizontal step, and lies between the location and the location one step on |
| Grids.MakeFace | src/grid.rs:309-338 | `Face::new` panics exactly when the heading is not one step along one axis; otherwise it is the face between the location and the location one step on |
| Grids.FaceNormalization | src/grid.rs:376-384 | stepping back from the far cell gives the same face |
| Grids.FaceIdentity | src/grid.rs:309-349 | two steps cross the same face exactly when they join the same pair of cells |
| Grids.SameDirectionNeighbors | src/grid.rs:351-368 | two faces of the same orientation, one step either way along the fence |
| Grids.FaceNeighbors | src/grid.rs:386-412 | the fence neighbours of the face crossed from a location are the faces crossed the same way from the two cells beside it |
| Day01.Rem100 | src/day01.rs:15 | Rust's truncating `% 100`: the result lies strictly between -100 and 100, differs from the operand by a multiple of 100 and keeps the operand's sign |
| Day01.Rotation | src/day01.rs:9-14 | a line is accepted exactly when it starts with 'L' or 'R' followed by an integer; 'L' gives the negated amount, 'R' the amount; anything else panics |
| Day01.Rotations | src/day01.rs:8-14 | the turns of all lines are produced exactly when every line is well formed, one turn per line in order |
| Day01.DialCongruent | src/day01.rs:15 | after the turns, the dial differs from the start plus all turns by a multiple of 100 and, after at least one turn, lies in -99..99 |
| Day01.DialZero | src/day01.rs:15-19 | the dial rests on 0 exactly when 50 plus the sum of the turns so far is a multiple of 100 |
| Day01.ZerosAreMultiples | src/day01.rs:15-19 | the count of zeros equals the number of prefixes of the turns whose sum brings 50 to a multiple of 100 |
| Day01.DialStep | src/day01.rs:15-19 | one more turn moves the dial by the truncating remainder and adds one to the count exactly when it lands on 0 |
| Day01.CountZeros | src/day01.rs:7-19 | the loop panics exactly when some line is malformed and otherwise returns the number of turns after which the dial, started at 50, shows 0 |
| Day01.MalformedPanics | src/day01.rs:9-14 | one malformed line makes the whole list of turns panic |
| Day01.Part1 | src/day01.rs:6-20 | part 1 on the input's lines: a panic on a malformed line, otherwise the count of zeros from 50 |
| Day02.TwoRepeatedMeaning | src/day02.rs:4-7 | `two_repeated` holds exactly when the decimal digits have even length and both halves are the same block |
| Day02.AllEqualChunks | src/day02.rs:12 | cutting digits into blocks of length k gives all-equal blocks exactly when k divides the length and the digits repeat with period k |
| Day02.AnyRepeatedMeaning | src/day02.rs:9-13 | `any_repeated` holds exactly when the digits are one block, at most half their length, written two or more times |
| Day02.SingleDigitNotRepeated | src/day02.rs:4-13 | a single-digit number is never a repetition under either rule |
| Day02.TwoImpliesAny | src/day02.rs:4-13 | every number part 1 finds invalid is also invalid for part 2 |
| Day02.RangeSum | src/day02.rs:18-24 | a range token panics exactly when it is not two `-`-separated numbers; otherwise it gives the sum of the invalid numbers from low to high inclusive |
| Day02.SumTokens | src/day02.rs:15-26 | the sum over all tokens panics exactly when some token panics, and otherwise adds up every token's range sum |
| Day02.RangeSumsFirst | src/day02.rs:15-26 | the token sums add up as the first token's sum plus the sum of the rest |
| Day02.SumInvalid | src/day02.rs:15-26 | a panic comes from some range token; otherwise every token parses and the answer adds up, range by range, the numbers the rule marks |
| Day02.Part1 | src/day02.rs:28-30 | the sum over every comma-separated range of the numbers written as one block twice, or a panic from a malformed range |
| Day02.Part2 | src/day02.rs:32-34 | the sum over every comma-separated range of the numbers written as one block two or more times, or a panic from a malformed range |
| Day02.SumInRangeMonotone | src/day02.rs:23 | within one range part 1's sum is at most part 2's |
| Day02.SumTokensMonotone | src/day02.rs:15-26 | when part 1's sum exists so does part 2's, and it is at least as large |
| Day02.PartsCompare | src/day02.rs:28-34 | both parts panic on the same inputs and part 1's answer never exceeds part 2's |
| Day03.PositionMaxBy | src/day03.rs:8-10 | `position_max_by` returns a position holding a largest element; with the written tie rule nothing after it is as large, with the reversed rule nothing before it is |
| Day03.LargestIndex | src/day03.rs:6-12 | panics exactly on an empty slice, otherwise returns a valid position of a largest character |
| Day03.DigitToVal | src/day03.rs:14-16 | accepts exactly the decimal digits and gives their value 0..9 |
| Day03.Picks | src/day03.rs:19-20 | the first pick is a largest character among all but the last, the second a largest character after the first |
| Day03.Joltage | src/day03.rs:18-23 | a line shorter than two panics; an answer is at most 99; a line of two or more digits reads the two picked digits |
| Day03.LargestJoltageAsWritten | src/day03.rs:6-23 | as written, a line shorter than two panics and a line of two or more digits reads two of its digits in order |
| Day03.LargestJoltage | src/day03.rs:6-23 | with the first of equal maxima, a line of two or more digits reads a number no pair of its digits in order exceeds |
| Day03.LargestJoltageOptimal | src/day03.rs:7-23 | taking the first of equal maxima, a line of at least two digits yields the largest two-digit number readable from two of its digits in order |
| Day03.FirstMaxBefore | src/day03.rs:7 | the first largest position comes no later than any other position holding the same character |
| Day03.LastMaximumMisses | src/day03.rs:10 | on "991" the written tie rule gives 91 while the intended one gives 99 |
| Day03.SumJoltages | src/day03.rs:26-29 | the sum panics exactly when some line panics; otherwise every line succeeds and the answer is the sum of the lines' joltages, at most 99 per line |
| Day03.LineJoltage | src/day03.rs:28 | a non-ASCII line panics; a line of two or more digits gives the joltage of the tie rule, at most 99 |
| Day03.Part1 | src/day03.rs:25-30 | as written: succeeds when every line is two or more digits, panics on a line that is too short or not ASCII, and is the sum of the lines' joltages under the last-maximum rule, at most 99 per line |
| Day03.Part1Intended | src/day03.rs:25-30 | with the first of equal maxima: succeeds when every line is two or more digits, panics on a line that is too short or not ASCII, and is the sum of the lines' joltages under the first-maximum rule, at most 99 per line |
| Day03.SumsCompare | src/day03.rs:7-29 | on lines of digits both tie rules succeed and the written one never sums to more |
| Day03.Part1Compare | src/day03.rs:7-30 | on input whose every line is two or more digits, part 1 as written never exceeds the intended answer |
| Day04.RollsAmong | src/day04.rs:10 | the number of rolls among a list of neighbour locations is at most the list's length |
| Day04.Mask | src/day04.rs:8-11 | one accessibility flag per cell of the grid |
| Day04.MaskMarksRolls | src/day04.rs:4-10 | only cells holding a roll '@' are ever accessible |
| Day04.Select | src/day04.rs:9-10 | the filtered locations are exactly the flagged ones, in order, one per flag |
| Day04.AccessibleLocations | src/day04.rs:8-11 | as many locations are listed as there are accessible cells |
| Day04.AccessibleMeaning | src/day04.rs:8-11 | a location is listed exactly when it is on the grid and holds a roll with fewer than four rolls among its on-grid neighbours |
| Day04.Accessible | src/day04.rs:8-11 | the cells yielded belong to the grid and sit at the accessible locations, in row-major order |
| Day04.Part1 | src/day04.rs:13-15 | panics exactly when the lines are ragged; otherwise counts the accessible cells of the grid they form |
| Day04.Clear | src/day04.rs:22-24 | clearing keeps the length and puts a space exactly at the flagged positions |
| Day04.ClearCount | src/day04.rs:22-25 | clearing the flagged rolls removes exactly as many rolls as are flagged |
| Day04.Round | src/day04.rs:18-24 | one round keeps the grid's size and removes exactly as many rolls as were accessible |
| Day04.RemoveAll | src/day04.rs:17-27 | removal keeps the grid's size |
| Day04.RemoveAllStep | src/day04.rs:17-27 | with nothing accessible removal counts 0 and changes nothing; otherwise a round removes at least one roll and the count is the round's plus that of the rest |
| Day04.RemoveAllMeaning | src/day04.rs:17-27 | removal ends with no accessible cell, and the count plus the rolls left equals the rolls at the start |
| Day04.Blank | src/day04.rs:22-24 | every listed location becomes a space and every other cell keeps its contents |
| Day04.BlankIsClear | src/day04.rs:18-24 | blanking the accessible locations clears exactly the accessible cells |
| Day04.BlankAccessible | src/day04.rs:22-24 | setting each listed location to a space in place leaves the contents one round of removal describes |
| Day04.RemoveAccessible | src/day04.rs:17-27 | the in-place rounds of removal return the count and leave the grid contents that the removal function describes |
| Day04.Part2 | src/day04.rs:29-31 | panics exactly when the lines are ragged; otherwise returns the number of rolls removed over all rounds |
| Day05.Range.Ids | src/day05.rs:8 | the ids of an inclusive range are exactly those between its start and end |
| Day05.Union | src/day05.rs:36-39 | a union exists exactly when each range reaches the other, and spans from the smaller start to the larger end |
| Day05.OverlapMeaning | src/day05.rs:37 | non-empty ranges pass the union guard exactly when they share an id |
| Day05.UnionMeaning | src/day05.rs:36-39 | the union is symmetric, holds both ranges and, for non-empty ranges, holds nothing else |
| Day05.TouchingNotJoined | src/day05.rs:37 | `1..=2` and `3..=4` touch but are not joined |
| Day05.Part1 | src/day05.rs:27-34 | the number of fresh candidates is at most the number of candidates |
| Day05.Part1Counts | src/day05.rs:30-33 | the answer is the number of candidate positions whose id lies in some range |
| Day05.CoveredMeaning | src/day05.rs:32 | an id is covered exactly when some range contains it |
| Day05.CoveredAppend | src/day05.rs:44-60 | the ids covered by two lists together are those of each |
| Day05.Sweep | src/day05.rs:48-55 | the filter keeps no more ranges than it was given |
| Day05.SweepApart | src/day05.rs:48-55 | a range apart from the growing range and from all ranges still to come stays apart from the final range |
| Day05.SweepMeaning | src/day05.rs:48-55 | the kept ranges are non-empty, disjoint and apart from the grown range, and together with it cover the ids of the accumulator plus the new range |
| Day05.SweepKeeps | src/day05.rs:48-55 | every kept range is one of the accumulator's |
| Day05.AbsorbMeaning | src/day05.rs:44-60 | one fold step keeps the accumulator non-empty and disjoint and adds exactly the new range's ids |
| Day05.Merge | src/day05.rs:44-60 | the fold's closure, filtering in place while the range grows and then pushing it, computes the fold step |
| Day05.Lengths | src/day05.rs:62-65 | the sum of lengths panics exactly when some range is empty |
| Day05.IdsSize | src/day05.rs:64 | a non-empty range holds end - start + 1 ids |
| Day05.LengthsCount | src/day05.rs:62-65 | the lengths of disjoint non-empty ranges add up to the number of ids they cover |
| Day05.Part2 | src/day05.rs:41-66 | with no empty range in the input, the answer is the number of distinct ids some range holds |
| Day06.ParseOp | src/day06.rs:20-24 | an operator token is accepted exactly when it is "+" or "*", and "+" means addition |
| Day06.ReduceMeaning | src/day06.rs:27 | reducing with `+` is the sum and with `*` the product |
| Day06.NumberRows | src/day06.rs:8-9 | the number rows are the lines before the first one starting with an operator |
| Day06.Number | src/day06.rs:12 | a word is accepted exactly when it is a decimal number, and gives its value |
| Day06.Column | src/day06.rs:27 | the column holds the entry at `col` of every row, in row order |
| Day06.ColumnValue | src/day06.rs:27 | a column panics exactly when there is no row or some row is too short; otherwise it is the sum or product of its entries |
| Day06.Enumerate | src/day06.rs:26 | each operator is paired with its column index |
| Day06.ColumnValues | src/day06.rs:26-27 | when no column panics there is one value per operator, the column's value |
| Day06.ColumnValuesPanic | src/day06.rs:26-27 | the columns panic exactly when there is an operator and either no number row or a row shorter than the operator count |
| Day06.Part1 | src/day06.rs:6-29 | part 1 succeeds exactly when an operator line follows the number rows, every number and operator parses and every column can be reduced; the answer is the sum of the column values, each column's numbers reduced with its operator |
| Day06.OpPositions | src/day06.rs:40-46 | every operator character of the line is listed once with its position and kind, left to right |
| Day06.ColumnText | src/day06.rs:52 | the column text panics exactly when a row is too short, and otherwise reads that column top to bottom |
| Day06.TrimEmpty | src/day06.rs:53 | a column trims to nothing exactly when it is all whitespace |
| Day06.TakeColumnsMeaning | src/day06.rs:51-53 | the columns taken are consecutive non-blank columns from the operator's position, no further than the width |
| Day06.TakeColumnsStop | src/day06.rs:51-53 | taking stops before the width only at a blank column |
| Day06.TakeColumnsWide | src/day06.rs:51-52 | with every row as wide as the width, reading columns never panics |
| Day06.TrimAll | src/day06.rs:54 | every column is trimmed, one result per column |
| Day06.Problem | src/day06.rs:50-57 | a problem succeeds only with at least one column, every trimmed column a number, and its value is their reduction with the operator |
| Day06.ProblemValues | src/day06.rs:50-58 | when no problem panics there is one value per operator character, that problem's value |
| Day06.Part2 | src/day06.rs:31-59 | part 2 succeeds exactly when there is at least one number row, an operator line follows, and every problem succeeds; the answer is the sum of the problems' values, one per operator character |
| Day07.FirstStart | src/day07.rs:34-36 | the cell found holds 'S' and no earlier cell in row-major order does; none is found only when no cell holds 'S' |
| Day07.Moved | src/day07.rs:13 | the moved beams are exactly the on-grid cells one row below a beam |
| Day07.Hits | src/day07.rs:16 | the hits are exactly the beams that, moved one row down, stay on the grid and land on a splitter '^' |
| Day07.Step | src/day07.rs:13-26 | one row panics exactly when a hit splitter is on the grid's left or right edge, and otherwise counts one split per hit splitter |
| Day07.Shift | src/day07.rs:19-20 | shifting moves every point by the offset and adds nothing else |
| Day07.StepMembers | src/day07.rs:13-26 | a beam of the next row is a moved beam that missed, or the cell left or right of a hit splitter |
| Day07.StepInRow | src/day07.rs:13-26 | the next row's beams are all on the grid, one row further down |
| Day07.SplittersIn | src/day07.rs:16 | the splitters of a row are exactly its on-grid '^' cells |
| Day07.HitsInRow | src/day07.rs:13-17 | the splitters hit lie in the next row, so they are counted against that row's splitters |
| Day07.CountSplits | src/day07.rs:6-29 | no beams give 0, and since merged beams hit each splitter at most once the count is at most the splitters below the row |
| Day07.Splits | src/day07.rs:31-40 | with no 'S' the answer is 0, and it never exceeds the number of splitters in the grid |
| Day07.SplittersFromMonotone | src/day07.rs:6-29 | fewer rows hold no more splitters |
| Day07.Part1 | src/day07.rs:31-40 | ragged lines panic; otherwise the answer is the splits from the first 'S' of the grid made of the lines, which is 0 without an 'S' |
| Day07.Timelines | src/day07.rs:42-60 | every cell has at least one timeline and at most two to the power of the rows left |
| Day07.CountTimelines | src/day07.rs:42-60 | the cached recursion returns the uncached timeline count, 1 for no cell, and the cache only gains entries, each correct |
| Day07.TimelinesFromStart | src/day07.rs:65-68 | the timelines from the first 'S' with an empty cache, or 1 when there is no 'S' |
| Day07.Part2 | src/day07.rs:62-69 | panics exactly on ragged lines; otherwise the answer is the timelines from the first 'S' of the grid made of the lines, or 1 without an 'S', and always at least 1 |
| Day08.PairLeTotal | src/day08.rs:41 | the tuple order on (distance, i0, i1) is a total order |
| Day08.ParsePoint | src/day08.rs:27-32 | a line is accepted exactly when it has three comma-separated integers, which become the coordinates |
| Day08.Row | src/day08.rs:36-40 | the pairs for one first index list every later index once, in order, with its squared distance |
| Day08.CandidatesMeaning | src/day08.rs:36-40 | the candidates are exactly the index pairs a < b with their squared distance |
| Day08.Parse | src/day08.rs:23-45 | parsing succeeds exactly when every line does, and every pair names two distinct points, the lower first |
| Day08.SortedPairs | src/day08.rs:36-42 | after sorting, every pair is measured and every pair a < b is present |
| Day08.ParseMeaning | src/day08.rs:23-45 | one point per line, the pairs sorted ascending, and they are exactly the pairs a < b with their squared distance |
| Day08.Identity | src/day08.rs:51 | every box starts labelled with its own index |
| Day08.Relabel | src/day08.rs:12-19 | the absorbed label becomes the kept one and every other label stays |
| Day08.Count | src/day08.rs:15-17 | a label count never exceeds the number of boxes |
| Day08.Join | src/day08.rs:9-21 | the in-place loop relabels the larger label to the smaller and returns the size of the merged circuit |
| Day08.RelabelCanonical | src/day08.rs:9-21 | joining two distinct circuits keeps every label the least index of its circuit, and the merged circuit holds the boxes of both |
| Day08.CountRelabel | src/day08.rs:12-20 | after relabelling, the kept label counts the boxes of both labels |
| Day08.Connect | src/day08.rs:53-57 | one pair keeps the labels canonical and their number unchanged |
| Day08.Circuits | src/day08.rs:51-58 | the labels after any number of pairs stay canonical, one per box |
| Day08.ConnectPair | src/day08.rs:52-57 | one pass of the loop turns the labels after i pairs into those after i + 1, and reports whether that pair completes one circuit |
| Day08.Sizes | src/day08.rs:60-63 | every circuit size listed is positive |
| Day08.LargestThree | src/day08.rs:60-68 | panics exactly when there are no circuits |
| Day08.LargestThreeMeaning | src/day08.rs:63-66 | the sizes taken are a permutation of all sizes in decreasing order, so the first three are the largest |
| Day08.ConnectFirst | src/day08.rs:51-58 | the join loop over the first `limit` pairs leaves the labels after that many pairs |
| Day08.Part1Parsed | src/day08.rs:47-68 | 10 pairs for the sample and 1000 otherwise, then the product of the three largest circuit sizes |
| Day08.Part1 | src/day08.rs:47-69 | a malformed line panics; otherwise the product of the largest circuits after the first joins |
| Day08.CountAll | src/day08.rs:79 | a label counts every box exactly when every box carries it |
| Day08.JoinCompletes | src/day08.rs:76-79 | a pair completes one circuit exactly when its boxes were apart and the merged circuit holds all boxes |
| Day08.CompletesOnce | src/day08.rs:75-83 | once one circuit holds everything later pairs change nothing, so at most one pair completes it |
| Day08.StaysOne | src/day08.rs:75-83 | a single circuit stays single under later pairs |
| Day08.NotYetCompleted | src/day08.rs:75-83 | while the boxes are not one circuit no earlier pair completed one |
| Day08.FindCompleting | src/day08.rs:75-83 | the loop finds a pair exactly when some pair completes one circuit, and the one it returns does |
| Day08.Part2Parsed | src/day08.rs:71-85 | panics exactly when no pair completes one circuit; otherwise the wrapped product of the x coordinates of the completing pair |
| Day08.Part2 | src/day08.rs:71-85 | a malformed line panics; otherwise the answer exists exactly when some pair completes one circuit, and is the wrapped product of that pair's x coordinates |
| Day09.ParseTile | src/day09.rs:7-12 | a line is accepted exactly when it is two comma-separated integers, which become the tile's coordinates |
| Day09.AreaAsWritten | src/day09.rs:17 | for the order in which both differences are non-negative, the written formula gives the intended area |
| Day09.Area | src/day09.rs:17 | the intended area counts both corners' rows and columns, so it is at least 1 |
| Day09.AreaSymmetric | src/day09.rs:17 | the intended area does not depend on the order of the corners, and a tile alone spans one tile |
| Day09.AreasWith | src/day09.rs:14-17 | one area per tile, paired with the fixed first tile, in order |
| Day09.MaxOf | src/day09.rs:18 | the maximum is an element of the list and no element exceeds it |
| Day09.AreasMeaning | src/day09.rs:14-17 | the areas listed are exactly those of the ordered pairs whose first tile is at the given index or later |
| Day09.LargestArea | src/day09.rs:14-19 | panics exactly when there are no tiles |
| Day09.LargestAreaMeaning | src/day09.rs:14-19 | the answer is the area of some ordered pair of tiles and no pair has a larger one |
| Day09.LargestAreaAsWrittenPositive | src/day09.rs:14-19 | even with the written formula the answer is at least 1, from a tile paired with itself |
| Day09.FallingDiagonal | src/day09.rs:17 | tiles (0,5) and (2,0) give 12 with the written formula but 18 tiles with the intended one |
| Day09.Part1 | src/day09.rs:4-20 | as written: succeeds exactly when there is a line and every line parses; the answer is the largest value of the written formula over all ordered pairs of tiles, and at least 1 |
| Day09.Tiles | src/day09.rs:5-13 | the tiles are one per line, each the line's parse, and their parsing panics exactly when some line does not parse |
| Day09.LargestAreaOf | src/day09.rs:4-20 | succeeds exactly when there is a line and every line parses; the answer is the area of some ordered pair of tiles and no pair has a larger one |
| Day09.Part1Intended | src/day09.rs:4-20 | with the intended area: succeeds exactly when there is a line and every line parses; the answer is the largest number of tiles of a rectangle with two tiles at opposite corners |
| Day10.ParseLight | src/day10.rs:26-30 | a light character is accepted exactly when it is '.' or '#', and '#' means on |
| Day10.ParseJoltage | src/day10.rs:49 | a joltage is accepted exactly when it is a decimal number below 65536 |
| Day10.LeadingButtons | src/day10.rs:33-34 | the buttons are the run of pieces starting with '(' and the next piece does not start with it |
| Day10.ParseJoltages | src/day10.rs:44-50 | the joltage piece is accepted exactly when every comma-separated value is a number below 65536, and then holds those values in order |
| Day10.ParseLineMeaning | src/day10.rs:17-56 | a line is accepted exactly when its lights, its leading '(' pieces and the piece after them parse; a parsed line has one light per bracketed character, on exactly at '#', and one button per leading '(' piece |
| Day10.ButtonMeaning | src/day10.rs:35-41 | a parsed button holds the numbers between the commas of its piece, in order |
| Day10.ParseLineButtons | src/day10.rs:33-42 | button b of a parsed line holds, in order, the numbers between the commas of the piece after the lights and b earlier buttons |
| Day10.ParseLineJoltage | src/day10.rs:44-50 | the joltages of a parsed line are, in order, the numbers between the commas of the piece after the buttons |
| Day10.Flipped | src/day10.rs:72-75 | one press toggles each light once per listing of its position and keeps the length |
| Day10.Bumped | src/day10.rs:102-105 | one press raises each counter by the number of listings of its position and keeps the length |
| Day10.OccurrencesStep | src/day10.rs:73-74 | each further listed index adds one occurrence of that position and no other |
| Day10.PressLights | src/day10.rs:72-76 | the in-place toggling loop panics exactly when an index is past the end and otherwise gives the flipped lights |
| Day10.PressCounters | src/day10.rs:102-106 | the in-place increment loop panics exactly when an index is past the end and otherwise gives the raised counters |
| Day10.FlipTwice | src/day10.rs:72-75 | pressing a button twice leaves the lights as they were |
| Day10.BumpCommutes | src/day10.rs:102-105 | the order of two presses does not change the counters |
| Day10.CounterEdgesMeaning | src/day10.rs:98-113 | the part 2 successors are exactly the presses of some button that pass no target, each at cost 1 |
| Day10.Patterns | src/day10.rs:63-79 | the light patterns considered are exactly those of the machine's length |
| Day10.Boxes | src/day10.rs:93-113 | the counter states considered are exactly those of the right length within every target |
| Day10.PatternsClosed | src/day10.rs:67-79 | pressing any button on a pattern gives a pattern of the same length |
| Day10.BoxesClosed | src/day10.rs:97-113 | the filtered presses never leave the states within the targets |
| Day10.Dark | src/day10.rs:63 | the start has every light off, one per wanted light |
| Day10.Zeros | src/day10.rs:93 | the start has every counter at zero, one per target |
| Day10.FewestLightPresses | src/day10.rs:62-81 | a machine's search succeeds exactly when it is solvable, and the answer is the fewest presses that light the wanted pattern |
| Day10.FewestCounterPresses | src/day10.rs:92-116 | a machine's search succeeds exactly when it is solvable, and the answer is the fewest presses that reach the wanted joltages |
| Day10.SumLightPresses | src/day10.rs:58-84 | the sum succeeds exactly when every machine is solvable, and adds the fewest presses of each |
| Day10.SumCounterPresses | src/day10.rs:86-119 | the sum succeeds exactly when every machine is solvable, and adds the fewest presses of each |
| Day10.Part1 | src/day10.rs:58-84 | a line that does not parse panics; otherwise the sum of the fewest light presses over the machines |
| Day10.Part2 | src/day10.rs:86-119 | a line that does not parse panics; otherwise the sum of the fewest counter presses over the machines |
| Day11.ParseEntry | src/day11.rs:9-10 | a line is accepted exactly when it has one ':'; the source is the part before it and the targets the trimmed rest split on spaces |
| Day11.Adjacency | src/day11.rs:6-13 | the map's keys are exactly the sources of the lines |
| Day11.AdjacencyLastWins | src/day11.rs:6-13 | a device's targets are those of the last line naming it |
| Day11.Devices | src/day11.rs:6-13 | parsing succeeds exactly when every line has exactly one ':' |
| Day11.CountFromYou | src/day11.rs:15-18 | the count is the number of walks from "you" that stop at their first "out", each listed once when outputs are distinct |
| Day11.CountFromYouAsWritten | src/day11.rs:15-18 | with the written iterator the count reaches any cut-off as soon as one path exists, and is 0 only when none does |
| Day11.Part1 | src/day11.rs:5-19 | as written: a malformed line panics; otherwise the answer is 0 when no walk leads from "you" to "out", and the cut-off when one does, since the source never returns |
| Day11.Part1Intended | src/day11.rs:5-19 | with each path yielded once: a malformed line panics; otherwise the answer is the number of walks from "you" to "out" |
| Day11.Sample | src/day11.rs:15-18 | on a small diamond the intended count is 2 while the written count reaches any cut-off |
| Day12.Cells | src/day12.rs:13 | the '#' cells of a line are at most its length |
| Day12.BoxedShape | src/day12.rs:9-14 | a shape drawn within three rows of three characters has at most 9 cells |
| Text.UnwrapNat | src/day12.rs:22 | `parse::<usize>().unwrap()` succeeds exactly on a decimal number and gives its value |
| Text.UnwrapNats | src/day12.rs:25-29 | every word parsed in order: succeeds exactly when every word is a number, and then holds each word's value at its position |
| Day12.ParseRequest | src/day12.rs:18-30 | a request line is accepted exactly when it has one ':', a 'WxH' before it with two numbers and numeric counts after it; then the width, height and every count are those numbers, in order |
| Day12.FilledWithinSpace | src/day12.rs:35-40 | when every shape fits its 3 by 3 box, the cells covered never exceed the boxes given |
| Day12.Score | src/day12.rs:35-50 | a request scores 0 exactly when its cells exceed the area, 1 exactly when its boxes fit, and panics in between |
| Day12.ScoreConsistent | src/day12.rs:35-50 | with every shape in its box, a fitting request has room for its cells and a rejected one has no room for its boxes |
| Day12.Judge | src/day12.rs:18-50 | each request scores at most 1 |
| Day12.Sizes | src/day12.rs:7-16 | one shape size per section but the last |
| Day12.ShapeSizes | src/day12.rs:5-16 | one shape size per blank-line separated section of the input but the last |
| Day12.SettleAll | src/day12.rs:33-52 | the sum succeeds exactly when every request line parses and is decided, and is then the number of request lines that score 1, at most the number of requests |
| Day12.Part1 | src/day12.rs:4-53 | succeeds exactly when every request of the last section parses and is decided, and is then the number of those requests that score 1 against the shape sizes of the other sections |
| Text.SplitBlankLines | src/day12.rs:5 | splitting on "\n\n" gives at least one section, joining the sections back gives the input, and no section but the last holds "\n\n" or ends in a line feed, so each cut is at the leftmost separator |
| Text.ParseDecimal | src/day02.rs:5 | the decimal text of a number parses back to the number |
| Sorting.SortSorted | src/day08.rs:41 | sorting under a total order gives a sorted permutation |
| Slices.ChunksAt | src/day02.rs:12 | element i of chunk k is element k·w + i of the whole |
| Slices.ConcatChunks | src/day02.rs:12 | the chunks, put back together, give the whole |

## Left out

- `src/main.rs` is not part of this model: it reads input files, picks the sample or real input, times and prints. Each part takes the input text (and `is_sample` where it is used) as a parameter.
- Integer widths are not modelled. `usize`, `u64` and `u16` values are unbounded naturals, and `isize` values are unbounded integers. Overflow is therefore absent from the model, which affects:
  - the `u64` distances of the graph searches;
  - the `u64::MAX` placeholder of `all_pairs_min_distances`;
  - the `u16` joltage increments of day 10, though parsing still rejects a joltage above 65535;
  - the `usize` products of days 08 and 12.

  The one exception is the `as usize` cast of day 08's `isize` product, which is modelled as wrap-around modulo 2^64.
- Hash maps and hash sets are modelled as Dafny maps and sets. Their iteration order is not modelled: every answer the source reads from one is independent of that order, and the contracts state only order-independent facts.
- `Cell` equality, hashing and ordering in `src/grid.rs` use the grid's address. The model takes an address function as a parameter (`Grids.CompareMeaning` assumes it injective).
- Day 05's `chumsky` parser is not modelled. Day 05's parts take the parsed ranges and candidates.
- The parts that are `todo!()` in the source are not modelled, because they have no behaviour: part 2 of days 01, 03, 09, 11 and 12.
- Day 10's part 2 prints each line; the printing is left out. Whether its search finishes in reasonable time is also left out: the source comment says it does not.
- Characters are Dafny `char`s with no encoding. `as_ascii`, `from_utf8` and byte indexing are modelled on characters, assuming ASCII input where the source does.
- Panics are not ordered: when two different panics could occur, the model says only that the result is a panic. For example, day 10 parses all lines before solving any machine, while the source interleaves the two.
- Day11.Part1, Day11.Part1Intended, Day11.CountFromYou and Day11.CountFromYouAsWritten require a ghost finite vertex set and rank, witnessing that what "you" reaches is finite and acyclic. On a cycle the source never returns, and the model does not describe that case. Day11.Part1 and Day11.CountFromYouAsWritten also take a fuel bound standing for the pulls of an iterator that never ends.
- GraphFind.Find.constructor, GraphShortest.MinDistances, GraphShortest.MinDistanceTo, GraphFlood.FloodFillFrom and GraphPaths.AllPaths.constructor require a ghost finite vertex set closed under the edge function (and, for `AllPaths`, a rank that decreases along edges). The source needs neither. On a graph whose reachable part is infinite, `find` can still yield matching vertices and `min_distance_to` can still reach its goal, while `min_distances` and `flood_fill_from` run forever; on a cyclic graph `all_paths` can still yield paths before it loops. The model does not describe these cases.
- GraphAllPairs.AllPairsMinDistances: `GraphAllPairs.SeedOfEntries` ties every seeded entry to an edge of the graph, but the minimum over walks is stated over the seeded matrix, not restated as a minimum over walks of the edge function.
- Grids.Grid.Index: a specification function that requires the location inside the grid; the out-of-bounds `assert!` of `index` is modelled by `Grids.Grid.Locate` and `Grids.Grid.Set`, which panic there.
- Grids.Grid.Map: the mapping function is a total Dafny function on cells. A Rust `FnMut` that keeps state between calls is not modelled.
- Day07.Splits: states the answer without an 'S' and the bound by the number of splitters, not a closed form of the count.
- Day05.Part2: states the answer only when no input range is empty. With an empty range (start above end) the `usize` subtraction may underflow, which `Day05.Lengths` models as a panic.
- Day03.Joltage: states the bound 99, the panic on short lines and the pair of digits it reads. That pair is the best only for the intended tie rule (`Day03.LargestJoltageOptimal`); for the written rule `Day03.LastMaximumMisses` shows a line where it is not.

## Findings

| source | as written | input that shows it | evidently intended | confidence | as-written member | corrected member |
|---|---|---|---|---|---|---|
| src/graph.rs:197-206 | `all_paths` yields a path when its last vertex is the end but leaves that path on the stack, so the next pull yields it again | graph y→o, start y, end o: every pull yields [y, o, o] (the stack's path with the end vertex appended again by `.chain(iter::once(node))`) and the iterator never ends | each path from start to end yielded once with the end vertex once, then `None`; `NextOnce` pops the end after yielding and does not append it twice | high (not executed) | GraphPaths.AllPaths.Next, GraphPaths.ExampleRepeats, Day11.CountFromYouAsWritten, Day11.Part1 | GraphPaths.AllPaths.NextOnce, GraphPaths.ExampleOnce, GraphPaths.CountPaths, Day11.CountFromYou, Day11.Part1Intended |
| src/day03.rs:7-10 | `position_max_by` with `.then(Ordering::Less)` keeps the LAST of equal maxima, against the comment "first largest" | line "991": the second 9 is picked first, leaving 1, so the answer is 91 | the first largest, giving 99, the largest two-digit number readable in order | high (not executed) | Day03.LargestJoltageAsWritten, Day03.LastMaximumMisses, Day03.Part1 | Day03.LargestJoltage, Day03.LargestJoltageOptimal, Day03.Part1Intended, Day03.Part1Compare |
| src/day09.rs:17 | `((a.0 - b.0 + 1) * (a.1 - b.1 + 1)).abs()` adds 1 to the signed differences, so for corners on a falling diagonal neither order counts the rectangle's tiles | tiles "0,5" and "2,0": the pairs give 6 and 12, so the answer is 12 | (abs(dx) + 1) · (abs(dy) + 1) = 18 tiles | high (not executed) | Day09.AreaAsWritten, Day09.FallingDiagonal, Day09.Part1 | Day09.Area, Day09.LargestAreaMeaning, Day09.Part1Intended |
