# Advent of Code 2022 solutions, modelled in Dafny

This project models the puzzle solutions of the `aoc-2022` Rust crate and
proves properties of them. Each solution is a day module with a
`generator` that reads the puzzle input and `part_1`/`part_2` functions
that compute the answers. The model has one Dafny module per source file:

- `Bfs` (`bfs.dfy`) models `src/bfs.rs`, the shared breadth-first search with a FIFO
  frontier and cost relaxation.
  There are two variants: `LinearBfs`, whose cells are a vector indexed
  by key, and `HashMapBfs`, whose cells are a map. Each variant is a
  class whose fields are the cells (cost and parent per reached key)
  and the frontier. Its methods `AddRoot`, `ConsiderNext`, `AddEdge` and
  `PathTo` are proved against the same state the source updates.
- `Day1` … `Day11` and `Day13` … `Day25` (`day01.dfy` … `day25.dfy`)
  model the day kernels.
  - Pure code becomes functions with lemmas.
  - Loops become methods proved against specification functions.
  - Objects updated in place (crate stacks, ropes, monkeys, the falling
    rock arena, the valves route, the board walker, the elves, the
    flood fill) become classes or methods over the search classes.
- `Common` (`common.dfy`) holds shared helpers:
  - `Option`, sums, maxima and a stable insertion sort that stands for
    the library sorts;
  - decimal parsing and printing of naturals;
  - `Gcd`/`Lcm`, which stand for `num::integer::lcm`;
  - some arithmetic facts.

Conventions used throughout:

- Integers are unbounded.
- A panic in pure code (`unwrap` on `None`, `panic!`, an index out of
  range) becomes a `None` result wherever the puzzle's behaviour depends
  on the panic.
- A panic inside an imperative routine becomes a precondition.
- Rust's truncating `/` on signed integers is defined explicitly as
  `Day21.TruncDiv`.

## Model

| member | source | states |
|---|---|---|
| Bfs.HashMapBfs.constructor | src/bfs.rs:82-87 | a new search has no reached cells and an empty frontier |
| Bfs.HashMapBfs.Cost | src/bfs.rs:89-91 | a cost exactly for the reached keys, the one recorded in their cell; in a valid search every key waiting in the frontier has a cost, so the `unwrap` in `add_edge` on a popped parent succeeds |
| Bfs.HashMapBfs.AddRoot | src/bfs.rs:93-97 | the key's cell becomes a root with the given cost and the key joins the back of the frontier; parent pointers stay acyclic unless a key is re-rooted above its known cost |
| Bfs.HashMapBfs.ConsiderNext | src/bfs.rs:99-101 | the front of the frontier is removed and returned, `None` when the frontier is empty; the cells are unchanged |
| Bfs.HashMapBfs.AddEdge | src/bfs.rs:103-123 | accepted exactly when the key is new or its cost strictly improves; then its cell gets the parent and the parent's cost plus the weight and the key joins the frontier, otherwise nothing changes; the "out of order" assertion is the precondition; non-negative weights keep parent pointers acyclic |
| Bfs.HashMapBfs.PathTo | src/bfs.rs:125-134 | the result follows parent pointers from a root down to the key, costs never decreasing |
| Bfs.HashMapBfs.AllKnown | src/bfs.rs:136-138 | exactly the keys that have a cost |
| Bfs.LinearBfs.constructor | src/bfs.rs:22-27 | `size` empty cells and an empty frontier |
| Bfs.LinearBfs.Cost | src/bfs.rs:29-31 | a cost exactly for the filled cells |
| Bfs.LinearBfs.AddRoot | src/bfs.rs:33-36 | the cell becomes a root, the key joins the frontier, the map view changes the same way |
| Bfs.LinearBfs.ConsiderNext | src/bfs.rs:38-40 | as the keyed variant: pops the front, `None` when empty |
| Bfs.LinearBfs.AddEdge | src/bfs.rs:42-58 | as the keyed variant, on the vector of cells |
| Bfs.LinearBfs.PathTo | src/bfs.rs:60-69 | a parent-pointer path from a root to the key, within the vector |
| Bfs.RelaxationIsMonotone | src/bfs.rs:103-123 | an accepted edge, whatever its weight, never loses a node and never raises a cost |
| Bfs.BelowShrinks | src/bfs.rs:125-134 | each parent step of `path_to` moves strictly earlier in the (cost, update time) order, so the walk ends |
| Bfs.LayeredStart | src/bfs.rs:93-97 | a single root is a layered search at its own cost |
| Bfs.LayeredPop | src/bfs.rs:99-101 | popping the front of a layered frontier leaves a layered frontier at the popped node's cost |
| Bfs.LayeredRelax | src/bfs.rs:103-111 | with unit weights from a node of the current layer an edge is accepted exactly for new keys, and the search stays layered, so "out of order" cannot fire |
| Day1.ParsedRun | src/day1.rs:10 | the run is the longest prefix of lines that parse as numbers |
| Day1.Generator | src/day1.rs:5-16 | every batch is non-empty: empty batches end the input |
| Day1.GeneratorRender | src/day1.rs:5-16 | reading back groups written one number per line with a blank line after each gives the groups back |
| Day1.Totals | src/day1.rs:21 | each elf's total is the sum of its items and is non-negative |
| Day1.Part1 | src/day1.rs:18-24 | the result is at least every elf's total and equals some elf's total; at least one elf (the `unwrap`) |
| Day1.Part2TakesLargest | src/day1.rs:26-33 | part 2 adds min(3, n) totals of a descending rearrangement of all totals, and no total left out exceeds one added |
| Day1.Part1Part2Bounds | src/day1.rs:18-33 | part 1 <= part 2 <= 3 * part 1 |
| Day2.ShapeOf | src/day2.rs:8-17 | `A`/`X` are Rock, `B`/`Y` Paper, `C`/`Z` Scissors; any other letter is the panic (`None`) |
| Day2.ResultOf | src/day2.rs:26-35 | only `X`, `Y`, `Z` name results; anything else is the panic |
| Day2.WhenPlayingAgainst | src/day2.rs:46-60 | the chosen shape really gets the desired outcome against the opponent |
| Day2.ScoreRanges | src/day2.rs:38-70 | shape scores are 1 to 3 and outcome scores 0, 3 or 6 |
| Day2.PlayAgainstIsAntisymmetric | src/day2.rs:72-86 | a shape draws only against itself; a win one way is a loss the other way; the two outcome scores add up to 6 |
| Day2.WhenPlayingAgainstIsUnique | src/day2.rs:46-60 | exactly one shape gives each outcome against a given opponent |
| Day2.Score1 | src/day2.rs:97-99 | every round scores 1 to 9 points |
| Day2.Score2 | src/day2.rs:101-106 | every round scores 1 to 9 points |
| Day2.Score2IsScore1OfChosenShape | src/day2.rs:97-106 | the second reading scores exactly the first reading with the shape chosen for the desired outcome |
| Day2.ParseLine | src/day2.rs:112-122 | a line decodes exactly when it has the opponent letter, one skipped character and a second letter in `XYZ`, and the fields are the letters' readings |
| Day2.SecondColumnReadings | src/day2.rs:8-35 | the two readings of the second letter agree: its shape score is its outcome score / 3 + 1 |
| Day2.Generator | src/day2.rs:109-124 | the guide decodes exactly when every line does, one round per line |
| Day2.Part1 | src/day2.rs:126-128 | the total of the first-reading scores lies between the number of rounds and nine times it |
| Day2.Part2 | src/day2.rs:130-132 | the total of the second-reading scores lies between the number of rounds and nine times it |
| Day2.Part2IsPart1OfChosen | src/day2.rs:126-132 | part 2 scores the guide exactly as part 1 scores it with every round playing the shape chosen for its desired result |
| Day3.Priority | src/day3.rs:14-20 | counted from `a` for a lowercase type and from `A` otherwise, at least 1; `None` exactly where that subtraction underflows; with the ASCII case table, lowercase letters score 1 to 26 and uppercase letters 27 to 52 |
| Day3.PriorityDefined | src/day3.rs:14-20 | with the ASCII case table, the priority panics exactly for item types below `A`, whatever the table says beyond ASCII |
| Day3.PriorityInjective | src/day3.rs:14-20 | with the ASCII case table, different letters have different priorities |
| Day3.Compartments | src/day3.rs:23-25 | the two halves put together are the rucksack, the first one half its length rounded down |
| Day3.InItems | src/day3.rs:29 | the set of item types holds exactly the items of the rucksack |
| Day3.Error | src/day3.rs:27-35 | the item found is in both halves and is the first such item of the second half; `None` (the `unwrap` panic) exactly when the halves share nothing |
| Day3.Badge | src/day3.rs:53-62 | the badge is carried by all three elves and is the first such item of the third; `None` (the panic) exactly when they share nothing |
| Day3.Part1 | src/day3.rs:38-43 | defined exactly when every rucksack has an error item whose priority does not underflow, and then at least one point per rucksack |
| Day3.Triples | src/day3.rs:66-71 | consecutive groups of three rucksacks, a trailing incomplete group dropped |
| Day3.BadgeSum | src/day3.rs:72-75 | defined exactly when every group has a badge whose priority does not underflow, and then at least one point per group |
| Day3.Part2 | src/day3.rs:65-76 | defined exactly when every complete triple has a badge whose priority does not underflow, with at least one point per triple |
| Day4.ContainmentMeansSubset | src/day4.rs:20-24 | checking both ends is the same as every section of range `i` lying in range `j`, for a non-empty range `i` |
| Day4.Symmetric | src/day4.rs:26-33 | neither question depends on the order of the two elves |
| Day4.OverlapIffSharedSection | src/day4.rs:30-33 | the four endpoint tests hold exactly when the ranges share a section, that is when the larger start is at most the smaller end |
| Day4.ContainedImpliesOverlapping | src/day4.rs:26-33 | for non-empty ranges containment implies overlap |
| Day4.Part1 | src/day4.rs:36-41 | at most one per pair; zero exactly when no pair has one range inside the other, and every pair exactly when all do |
| Day4.Part2 | src/day4.rs:43-48 | at most one per pair; zero exactly when no pair overlaps, and every pair exactly when all do |
| Day4.Part1AtMostPart2 | src/day4.rs:36-48 | the part 1 count is at most the part 2 count, which is at most the number of pairs |
| Day5.Block | src/day5.rs:106-112 | the lifted block holds exactly `amount` crates |
| Day5.Apply | src/day5.rs:105-114 | `from` loses its top `amount` crates and `to` gains them on top, reversed for the one-at-a-time crane; every other stack is unchanged |
| Day5.FlattenUpdate | src/day5.rs:105-114 | replacing one stack changes the multiset of all crates by exactly the crates replaced |
| Day5.ApplyKeepsCrates | src/day5.rs:105-114 | a command never creates or loses a crate |
| Day5.ReverseIsOneAtATime | src/day5.rs:110-112 | the reversing crane is the same as moving the crates one at a time |
| Day5.ApplyAll | src/day5.rs:127-129 | running every command keeps the number of stacks and the multiset of crates |
| Day5.Arrangement.constructor | src/day5.rs:126 | the arrangement starts as the given stacks |
| Day5.Arrangement.ApplyCommand | src/day5.rs:105-114 | the stacks become the result of applying the command to the old stacks |
| Day5.Arrangement.Code | src/day5.rs:116-122 | one character per stack, its top crate; every stack must be non-empty (the `unwrap`) |
| Day5.Solve | src/day5.rs:125-139 | the code is the tops of the stacks after all commands, with or without reversing |
| Day5.PushLine | src/day5.rs:38-44 | pushing one crate line keeps the number of stacks |
| Day5.Fill | src/day5.rs:37-45 | pushing all crate lines keeps the number of stacks |
| Day5.PushLineColumn | src/day5.rs:38-44 | a column labelled only by stack `k` contributes its crate to stack `k` alone |
| Day5.FillColumn | src/day5.rs:37-45 | when a column is the only one labelled with stack `k`, stack `k` ends as that column's crates, bottom first, spaces skipped |
| Day5.ReadLayout | src/day5.rs:21-47 | the stacks are the lines above the label line pushed bottom-up onto as many empty stacks as there are labels |
| Day5.DigitRun | src/day5.rs:48 | the longest run of digits at the front of a string |
| Day5.TailOf | src/day5.rs:48 | a literal prefix is matched and stripped |
| Day5.DigitRunOf | src/day5.rs:48 | a digit run stops exactly at the first non-digit |
| Day5.NumberBeforeOf | src/day5.rs:53-58 | a printed number followed by a separator reads back as that number and the rest |
| Day5.LastNumberOf | src/day5.rs:53-58 | a printed number reads back as itself |
| Day5.ParseDisplay | src/day5.rs:48-58 | parsing the line `Display` prints for a command gives the command back, stack numbers converted between 1-based and 0-based |
| Day5.ParseCommands | src/day5.rs:49-60 | the commands after the blank lines, never more than there are lines |
| Day5.ParseAll | src/day5.rs:52-60 | defined exactly when every line is a command, one command per line |
| Day5.ParseAllDisplayed | src/day5.rs:48-60 | displayed commands read back as the same commands |
| Day5.FirstEmpty | src/day5.rs:19 | the first blank line, none before it; `None` (the panic) when there is no blank line |
| Day5.Generator | src/day5.rs:17-62 | the stacks are read from the lines above the first blank line and the commands from the lines below it |
| Day6.LetterIndex | src/day6.rs:10 | a lowercase letter's slot in the 26-entry `seen` table |
| Day6.MarkerEndPosition | src/day6.rs:5-19 | the result is 0 or the end of a window of `length` pairwise distinct letters with no such window starting earlier; 0 means no examined window is distinct; windows starting at `|signal| - length` or later are not examined, as the loop bound says |
| Day6.Part1 | src/day6.rs:21-23 | the end of the earliest start-of-packet marker of four distinct letters, or 0 when none is found |
| Day6.Part2 | src/day6.rs:25-27 | the end of the earliest start-of-message marker of fourteen distinct letters, or 0 when none is found |
| Day7.RunStep | src/day7.rs:23-56 | running the reader is one line at a time: the rest of the run continues from the state after line `i` |
| Day7.Generator | src/day7.rs:20-61 | the loop over the lines, with the pending listing, yields exactly the instructions the line-by-line reader defines, or `None` where it panics |
| Day7.RunAppend | src/day7.rs:23-56 | reading two batches of lines is reading the first and then continuing with the second |
| Day7.NumberIsNotAKeyword | src/day7.rs:42-53 | a file size never reads as `$` or `dir` |
| Day7.RunItems | src/day7.rs:42-53 | the lines of a listing append its entries to the pending listing, in order |
| Day7.RunRender | src/day7.rs:20-61 | reading the rendering of instructions appends exactly those instructions |
| Day7.GenerateRender | src/day7.rs:20-61 | a transcript written from instructions (with `cd` names other than `/` and `..`) reads back as the same instructions |
| Day7.BuildFromInstructions | src/day7.rs:69-91 | the loop over the instructions builds exactly the listing map the instruction-by-instruction definition builds |
| Day7.BuildKeys | src/day7.rs:74-89 | a path has a listing exactly when some `ls` was run at that position |
| Day7.CdThenUp | src/day7.rs:79-84 | `cd x` followed by `cd ..` comes back to the same position |
| Day7.MaxLen | src/day7.rs:104-105 | an upper bound on the depth of every recorded path |
| Day7.ItemsSizeCovers | src/day7.rs:107-118 | each entry's size is included in the running total of the entries that contain it |
| Day7.EntryAtMostDirectory | src/day7.rs:107-118 | a directory is at least as large as each of its files and each of its subdirectories |
| Day7.LongestExists | src/day7.rs:104-105 | a non-empty set of paths has a deepest one, so the deepest-first order exists |
| Day7.SumListing | src/day7.rs:107-118 | with every subdirectory's size already known, the listing sums to the directory's recursive size |
| Day7.CalcFrom | src/day7.rs:100-122 | every listed directory, and nothing else, gets its recursive size: files plus subdirectories |
| Day7.Part1 | src/day7.rs:125-129 | the sum of the sizes of the directories of at most 100000 |
| Day7.Part2 | src/day7.rs:131-145 | the size of some directory, large enough to free the space needed, and no larger than any other directory that is large enough; the root must be listed and the unsigned subtractions must not underflow |
| Day8.CellsIsProduct | src/day8.rs:43 | the cell count is `cols * rows` |
| Day8.RowMajorIsProduct | src/day8.rs:56 | the row-major index is `x + y * cols` |
| Day8.IndexBound | src/day8.rs:52-57 | an in-bounds coordinate indexes inside the grid |
| Day8.ToIdx | src/day8.rs:52-57 | an index exactly for in-bounds coordinates, the row-major one, inside the stored heights |
| Day8.Walk | src/day8.rs:59-68 | every index the walk yields is a cell of the forest |
| Day8.WalkTail | src/day8.rs:59-68 | the walk from an in-bounds start is that cell followed by the walk from the next position |
| Day8.WalksAlongStep | src/day8.rs:59-68 | prepending the start to the walk from the next position walks along the direction |
| Day8.WalkAt | src/day8.rs:59-68 | the walk visits the cells `start + k * dir` for `k = 0, 1, ...` up to the edge |
| Day8.ViewAlongMeaning | src/day8.rs:75-83 | the count is the trees up to and including the first one at least as tall, or all of them when none is |
| Day8.ViewAlongCons | src/day8.rs:76-82 | counting stops at the first tree at least as tall, else goes on |
| Day8.ViewingDistanceMeaning | src/day8.rs:73-84 | a tree's viewing distance in one direction is what it sees along the walk beyond it |
| Day8.TreesSeen | src/day8.rs:74-83 | the counting loop computes the viewing distance |
| Day8.MulIsProduct | src/day8.rs:85 | the product of the four counts is ordinary multiplication |
| Day8.MulZero | src/day8.rs:85 | a zero factor gives zero |
| Day8.ProductZero | src/day8.rs:85 | the product is zero when one of the four distances is |
| Day8.ScenicScore | src/day8.rs:70-86 | the score is the product of the four viewing distances |
| Day8.EdgeView | src/day8.rs:76 | looking straight off the grid, a tree sees nothing |
| Day8.BorderScoresZero | src/day8.rs:70-86 | a tree on the edge has scenic score 0 |
| Day8.Part2 | src/day8.rs:115-121 | the best scenic score: some tree has it and no tree scores more; the forest must not be empty (the `unwrap`) |
| Day8.ColumnBest | src/day8.rs:116-120 | scanning one column keeps a score that some tree has, at least every score of the column |
| Day8.PassAlong | src/day8.rs:96-102 | a pass only marks cells of the forest |
| Day8.PassAlongCons | src/day8.rs:96-102 | a tree strictly taller than the tallest so far is marked and raises the bar; others are not |
| Day8.PassMarks | src/day8.rs:91-103 | a pass only marks cells of the forest |
| Day8.RowPasses | src/day8.rs:104-107 | the row passes only mark cells of the forest |
| Day8.ColPasses | src/day8.rs:108-111 | the column passes only mark cells of the forest |
| Day8.MakePass | src/day8.rs:91-103 | `visible` gains exactly the trees the pass marks, nothing is unmarked |
| Day8.RowsPasses | src/day8.rs:104-107 | afterwards exactly the trees marked by some row pass from either end are visible |
| Day8.ColsPasses | src/day8.rs:108-111 | afterwards the column passes' trees are added to what was visible |
| Day8.CountMarked | src/day8.rs:112 | the number of marked trees |
| Day8.Part1 | src/day8.rs:89-113 | the number of trees marked by the row and column passes |
| Day8.RecordShift | src/day8.rs:96-102 | a tree past the first is a record of the walk exactly when it is a record of the rest, against the raised bar |
| Day8.PassAlongRecords | src/day8.rs:96-102 | a pass marks exactly the trees taller than the bar and every tree before them on the walk |
| Day8.PassMarksAreRecords | src/day8.rs:91-103 | a pass marks exactly the first tree of its walk and every later tree strictly taller than all before it: the trees visible from that edge |
| Day8.FirstIsMarked | src/day8.rs:93-94 | the first tree of a pass is always marked |
| Day8.RowPassesGrow | src/day8.rs:104-107 | the passes of every row up to `n` are included, from both ends |
| Day8.ColPassesGrow | src/day8.rs:108-111 | the passes of every column up to `n` are included, from both ends |
| Day8.BorderIsVisible | src/day8.rs:89-113 | every tree on the edge of the grid is visible |
| Day9.AsVec2 | src/day9.rs:18-25 | a unit vector along one axis pointing the way the direction says |
| Day9.FollowProperties | src/day9.rs:70-78 | a following knot moves at most one step on each axis, and from at most two apart it ends up touching |
| Day9.Moved | src/day9.rs:62-80 | the first `n` knots after the step, as many as asked for |
| Day9.MovedKeepsTouching | src/day9.rs:62-80 | after a step the moved knots all touch, and the last of them moved at most one step |
| Day9.MoveRopeProperties | src/day9.rs:62-80 | the head moves by the direction's vector, the rope keeps its length and a touching rope stays touching |
| Day9.MovedHead | src/day9.rs:63-65 | the head moves by exactly the direction's vector |
| Day9.State.constructor | src/day9.rs:52-56 | `size` knots, all at the origin |
| Day9.State.MoveHead | src/day9.rs:62-80 | the knots become the rope after one step from the old knots |
| Day9.MovedStep | src/day9.rs:66-79 | letting knot `idx` follow extends the moved prefix by one knot |
| Day9.Repeat | src/day9.rs:87 | `amount` copies of the instruction's direction |
| Day9.Run | src/day9.rs:86-91 | the rope keeps its number of knots |
| Day9.RunKeepsTouching | src/day9.rs:86-91 | a rope whose knots all touch keeps them touching through every step |
| Day9.OriginRopeTouches | src/day9.rs:84-91 | in particular a rope started at the origin |
| Day9.TailTrailGrows | src/day9.rs:89 | tail positions once recorded stay recorded |
| Day9.RunSnoc | src/day9.rs:86-91 | one more step moves the rope once and records its new tail |
| Day9.StepsSnoc | src/day9.rs:86-87 | one more instruction adds `amount` steps in its direction |
| Day9.CalcFor | src/day9.rs:83-93 | the number of distinct tail positions after each unit step of the instructions, from a rope at the origin |
| Day9.MoveRepeatedly | src/day9.rs:87-90 | `amount` steps in one direction move the rope and record each new tail |
| Day9.Part1 | src/day9.rs:95-97 | the positions visited by the tail of a two-knot rope |
| Day9.Part2 | src/day9.rs:99-101 | the positions visited by the tail of a ten-knot rope |
| Day10.ReadStep | src/day10.rs:34-39 | reading an instruction yields the current `x` first and then what the new state yields |
| Day10.XValuesMachine | src/day10.rs:22-47 | the two-state machine yields exactly the values of `x` during each cycle: one per `noop`, two per `addx`, the addition landing after its second cycle |
| Day10.ValuesLength | src/day10.rs:33-46 | one value per cycle |
| Day10.ValuesAppend | src/day10.rs:33-46 | running two programs in a row continues from the register the first leaves |
| Day10.TotalCyclesAppend | src/day10.rs:33-46 | cycle counts add up over concatenation |
| Day10.XValuesShape | src/day10.rs:25-46 | as many values as cycles, the first one 1 |
| Day10.XValueDuring | src/day10.rs:33-46 | during each cycle of instruction `n`, `x` is 1 plus the increments of the instructions before it |
| Day10.OnlySampledCyclesCount | src/day10.rs:49-61 | only the cycles whose number plus 20 is a multiple of 40 contribute to the signal strength sum |
| Day10.ShortRunScoresZero | src/day10.rs:49-61 | a run of fewer than 20 cycles sums to 0 |
| Day10.Draw | src/day10.rs:64-76 | the loop draws the screen of every cycle: a newline before each row of 40, then `#` or `.` by sprite position |
| Day10.Part2 | src/day10.rs:63-77 | the screen for the values of the program |
| Day10.ScreenLayout | src/day10.rs:64-76 | one character per cycle plus a newline per row; cycle `i`'s pixel sits after `i / 40 + 1` newlines and is lit exactly when the sprite covers column `i % 40` |
| Day11.LcmOfTestsDividesAll | src/day11.rs:106-109 | the state's `lcm` is positive and every test divisor divides it |
| Day11.ReductionKeepsTests | src/day11.rs:84-88 | reducing a worry level modulo the `lcm` keeps its remainder by every test, so the target monkey is unchanged |
| Day11.MulRespectsMod | src/day11.rs:76-77 | multiplying keeps remainders modulo `l` |
| Day11.ApplyRespectsMod | src/day11.rs:73-79 | every operation is compatible with remainders modulo `l` |
| Day11.NewWorry | src/day11.rs:127-129 | the new worry level is below the `lcm` |
| Day11.ReducedWorryIsFaithful | src/day11.rs:127-130 | without division, an item whose worry was reduced gets the reduced true worry and goes to the same monkey as the unreduced one would |
| Day11.Throw | src/day11.rs:123-133 | throwing keeps the number of monkeys |
| Day11.ThrowShape | src/day11.rs:130-131 | each monkey's queue gains at the back exactly what is sent to it, in order, and keeps its count |
| Day11.SentFacts | src/day11.rs:130-131 | only the two target monkeys receive anything, and every worry level sent is below the `lcm` |
| Day11.TotalItemsUpdate | src/day11.rs:131 | replacing one monkey changes the item total by the change of its queue |
| Day11.ThrowAddsItems | src/day11.rs:123-133 | throwing a batch adds exactly that many items to the queues |
| Day11.AfterMonkey | src/day11.rs:122-134 | a monkey's turn keeps the number of monkeys |
| Day11.AfterMonkeyMeaning | src/day11.rs:122-134 | the monkey's queue is emptied and each item counted; every other monkey gets what was sent to it, below the `lcm`; no item is created or lost |
| Day11.AfterRound | src/day11.rs:136-144 | a round keeps the number of monkeys |
| Day11.Rounds | src/day11.rs:159-161 | repeated rounds keep the number of monkeys |
| Day11.AfterRoundKeepsItems | src/day11.rs:136-144 | a round neither creates nor destroys an item |
| Day11.RoundsKeepItems | src/day11.rs:159-169 | no number of rounds creates or destroys an item |
| Day11.Initial | src/day11.rs:110-116 | one monkey state per description, its starting items queued and no inspections |
| Day11.ArgMax | src/day11.rs:152 | the index of a largest count |
| Day11.RemoveAt | src/day11.rs:152 | the counts without the one at `m`, the others in order |
| Day11.TopTwoIndices | src/day11.rs:152 | two different monkeys, the first with the largest count and the second with the largest of the rest |
| Day11.MulMono | src/day11.rs:153 | the product is monotone in both factors |
| Day11.TopTwoProductAttained | src/day11.rs:146-154 | the monkey business is the product of the counts of two different monkeys |
| Day11.TopTwoProductMaximal | src/day11.rs:146-154 | no two different monkeys have a larger product of counts |
| Day11.TopTwoOfStates | src/day11.rs:146-154 | the top-two product over the monkey states is attained by two different monkeys and beaten by no such pair |
| Day11.State.constructor | src/day11.rs:104-119 | the `lcm` of every test divisor folded from 1, and each monkey with its starting items and no inspections |
| Day11.State.RunMonkey | src/day11.rs:122-134 | the monkeys become the result of the monkey's turn, the `lcm` unchanged |
| Day11.State.RunRound | src/day11.rs:136-144 | the monkeys become the result of every description's turn in order |
| Day11.State.MonkeyBusiness | src/day11.rs:146-154 | the product of the inspection counts of two different monkeys, which no other pair of different monkeys exceeds |
| Day11.Play | src/day11.rs:157-171 | the product of the two largest inspection counts after the given number of rounds from the starting state |
| Day11.Part1 | src/day11.rs:157-163 | the monkey business after 20 rounds dividing worry by 3 |
| Day11.Part2 | src/day11.rs:165-171 | the monkey business after 10000 rounds without division |
| Day13.Size | src/day13.rs:12-16 | every packet has size at least one, the termination measure for comparison |
| Day13.SizeOfSingle | src/day13.rs:12-16 | a one-item list of sizes is the packet's size |
| Day13.PushItem | src/day13.rs:52-59 | appending to the top list keeps the stack depth |
| Day13.PacketFrom | src/day13.rs:18-71 | the tokenizing loop and the stack parser give exactly the packet the line means, or `None` where the source panics |
| Day13.TokenizeRun | src/day13.rs:41-43 | characters that are not separators go to the digit buffer |
| Day13.TokenizeShow | src/day13.rs:22-45 | a written packet followed by `,` or `]` tokenizes to its tokens |
| Day13.TokenizeShowItems | src/day13.rs:22-45 | the items of a written list and its `]` tokenize to their tokens and a `Close` |
| Day13.TokenizeShowMoreItems | src/day13.rs:22-45 | the same for two or more items, the comma between them producing nothing |
| Day13.TokenizeItemThenComma | src/day13.rs:35-40 | a written packet followed by `,` tokenizes to its tokens |
| Day13.BuildTokens | src/day13.rs:47-62 | a packet's tokens leave that packet appended to the list on top of the stack |
| Day13.BuildItemsTokens | src/day13.rs:47-62 | several items' tokens append all of them, in order |
| Day13.ParseShow | src/day13.rs:18-71 | reading back a written list packet gives the packet |
| Day13.TrailingDigitsRejected | src/day13.rs:46 | digits left at the end of the line make parsing panic |
| Day13.ParseShowNumber | src/day13.rs:63-70 | a bare number is not a packet line |
| Day13.LessOrEqualMeaning | src/day13.rs:122-132 | `partial_cmp` always answers, so `<=` means "not greater" |
| Day13.CmpPromotes | src/day13.rs:98-102 | a number facing a list compares as the list of that number, on either side; two numbers compare as numbers |
| Day13.CmpAsLists | src/day13.rs:98-119 | every comparison is a comparison of lists, numbers standing for one-element lists |
| Day13.CmpListsFirstDifference | src/day13.rs:103-117 | the first unequal pair of elements decides a list comparison |
| Day13.CmpListsSameElements | src/day13.rs:103-117 | without an unequal pair, the shorter list is smaller and equal lengths are equal |
| Day13.CmpReflexive | src/day13.rs:97-120 | every packet equals itself |
| Day13.CmpListsReflexive | src/day13.rs:103-117 | every list equals itself |
| Day13.CmpFlip | src/day13.rs:97-120 | swapping the packets reverses the verdict |
| Day13.CmpListsFlip | src/day13.rs:103-117 | swapping the lists reverses the verdict |
| Day13.CmpTransitive | src/day13.rs:97-120 | "not greater" is transitive, and strict when either step is strict: the order `sort` needs |
| Day13.AsListSmaller | src/day13.rs:101-102 | promoting a number does not grow the packet, and a list's items are strictly smaller |
| Day13.CmpListsTransitive | src/day13.rs:103-117 | list comparison is transitive in the same sense |
| Day13.Part1IsSumOfIndices | src/day13.rs:128-134 | part 1 is the sum over the pairs of the 1-based index of each pair in the right order |
| Day13.EqualPairOrdered | src/day13.rs:132 | a pair of equal packets is in the right order |
| Day13.EntryLeTotal | src/day13.rs:145 | the entry order is total |
| Day13.EntryLeTransitive | src/day13.rs:145 | the entry order is transitive |
| Day13.EntryLowerBound | src/day13.rs:145 | a lower bound of the inputs bounds every rearrangement of them |
| Day13.InsertEntry | src/day13.rs:145 | inserting keeps the list sorted and adds exactly the one entry |
| Day13.SortEntries | src/day13.rs:145 | the result is sorted by packet, then by mark, and a permutation of the input |
| Day13.DividersParse | src/day13.rs:143 | `[[2]]` and `[[6]]` read as the two divider packets |
| Day13.Entries | src/day13.rs:138-142 | both packets of every pair, none marked |
| Day13.TwoPositions | src/day13.rs:146-158 | an entry at two positions occurs at least twice |
| Day13.OccursOnce | src/day13.rs:146-158 | an entry that occurs once sits at one position |
| Day13.MarkedProductPrefix | src/day13.rs:146-158 | with exactly two marked entries, the product over a prefix multiplies the 1-based positions of those inside it |
| Day13.MarkedProductAt | src/day13.rs:146-158 | the product over marked positions `p < q` is `(p + 1) * (q + 1)` |
| Day13.MarkedAreDividers | src/day13.rs:138-144 | exactly the two dividers are marked, once each |
| Day13.DividersInOrder | src/day13.rs:143 | `[[6]]` compares greater than `[[2]]` |
| Day13.DividersOrdered | src/day13.rs:145 | in a sorted list `[[2]]` comes before `[[6]]` |
| Day13.MarkedPositions | src/day13.rs:146-158 | when the dividers each occur once at `p` and `q`, nothing else is marked |
| Day13.Part2Meaning | src/day13.rs:136-159 | the decoder key is `(p + 1) * (q + 1)` where `p < q` are the positions of `[[2]]` and `[[6]]` in the sorted list, and nothing else is marked |
| Day14.PointsMeaning | src/day14.rs:93-96 | the first `n` points from `a` are exactly `a + i * d` for `i < n` |
| Day14.SegmentMeaning | src/day14.rs:84-97 | an axis-aligned segment holds exactly the points between its two ends, both included |
| Day14.WithRock | src/day14.rs:94-95 | rock is recorded at every point of the set, the other cells keep what they held |
| Day14.WithRockAdd | src/day14.rs:94-95 | recording one more rock is adding it to the set |
| Day14.WithRockTwice | src/day14.rs:133-135 | adding two batches of rock is adding their union |
| Day14.CaveMeaning | src/day14.rs:50-56 | the built cave holds rock exactly on the paths and air everywhere else |
| Day14.AllRocksMeaning | src/day14.rs:83-98 | a point is rock exactly when it lies between the two ends of a segment of some path |
| Day14.PathRocksMeaning | src/day14.rs:84-97 | a path's first `n` segments cover exactly the points between their ends |
| Day14.NextPos | src/day14.rs:114-124 | the grain moves one row down, trying straight down, then down-left, then down-right, into air; it has no move exactly when all three are taken |
| Day14.Fall | src/day14.rs:108-128 | `Ok` means the grain rests above the bound with all three cells below taken; `Err` means it reached the bound; it only falls down and diagonally and ends on air unless it never moved |
| Day14.MaxY | src/day14.rs:104-106 | some recorded cell is on that row and none is lower |
| Day14.CaveMap.constructor | src/day14.rs:45-48 | an empty cave |
| Day14.CaveMap.AddRockPath | src/day14.rs:83-98 | the cave gains rock on every point of every segment of the path; the path must be axis-aligned (the panic) |
| Day14.CaveMap.AddSand | src/day14.rs:100-102 | sand at the position and nothing else changes |
| Day14.CaveMap.Lowest | src/day14.rs:104-106 | the largest row of a recorded cell; the cave must not be empty (the `unwrap`) |
| Day14.CaveMap.TraceSand | src/day14.rs:108-128 | the loop follows the grain to exactly where the fall definition says |
| Day14.BuildCave | src/day14.rs:132-135 | the cave with every rock path added |
| Day14.Stuck1Forever | src/day14.rs:137-145 | once a grain comes to rest on a taken cell, every later grain does too, so the loop would never return |
| Day14.Stuck1Step | src/day14.rs:137-145 | one more grain keeps part 1 stuck |
| Day14.Stuck2Forever | src/day14.rs:154-167 | once part 2 is stuck below the source, no grain ever rests at the source |
| Day14.FallInTriangle | src/day14.rs:108-128 | every grain from the source ends inside the triangle below it, the termination measure |
| Day14.NonAirAdd | src/day14.rs:100-102 | sand adds exactly its cell to the taken cells |
| Day14.Fill | src/day14.rs:100-102 | sand on a free cell of the triangle leaves one free cell fewer |
| Day14.AllRestStep | src/day14.rs:137-141 | one more resting grain extends the resting run |
| Day14.Part1 | src/day14.rs:131-146 | the number of grains that come to rest before the first falls below the lowest rock; `None` for the case where the loop never ends |
| Day14.NoneAtSourceStep | src/day14.rs:154-166 | one more grain not resting at the source extends the run |
| Day14.Part2 | src/day14.rs:148-169 | with the floor two rows below the lowest rock, the number of grains up to and including the first to rest at the source; `None` for the case where the loop never ends |
| Day15.CoverageForRow | src/day15.rs:36-45 | `None` exactly when the row is beyond the sensor's reach, and then the sensor sees nothing of it; otherwise a non-empty range holding exactly the columns the sensor sees on the row |
| Day15.SeesOwnBeacon | src/day15.rs:32-34 | a sensor sees its own beacon, so the beacon's row is covered at the beacon |
| Day15.Coverages | src/day15.rs:70-75 | non-empty ranges covering exactly the columns of the row some sensor sees |
| Day15.CoveredSnoc | src/day15.rs:70-75 | one more range adds exactly its cells |
| Day15.SeesSnoc | src/day15.rs:70-75 | one more sensor adds exactly what it sees |
| Day15.MergeFrom | src/day15.rs:53-63 | the merged ranges start where the combined range does and are no more than the inputs |
| Day15.Merge | src/day15.rs:52-63 | merging never yields more ranges than it is given |
| Day15.MergeFromMeaning | src/day15.rs:53-63 | merging covers exactly the cells of its input and yields sorted ranges, each starting at least two past the previous end |
| Day15.MergeStepCovers | src/day15.rs:55-61 | joining the next range covers the same cells |
| Day15.SplitStepCovers | src/day15.rs:62 | closing a combined range and starting the next covers the same cells and stays separated |
| Day15.NormalizeMeaning | src/day15.rs:48-64 | `normalize_ranges` covers exactly the cells of its input with separated ranges, no more of them, non-empty if the input's were |
| Day15.CoveredCons | src/day15.rs:53-63 | a list covers a cell exactly when its first range or the rest does |
| Day15.SortedCovers | src/day15.rs:51 | sorting covers the same cells and keeps ranges non-empty |
| Day15.MergeBegin | src/day15.rs:54 | each output range starts from the next input range |
| Day15.JoinStep | src/day15.rs:55-61 | a range that starts within one of the combined end is absorbed |
| Day15.SplitStep | src/day15.rs:55-62 | a range that starts further away begins a new output range |
| Day15.NormalizeRanges | src/day15.rs:48-64 | the loop over the sorted ranges yields exactly the normalized ranges |
| Day15.MergeSorted | src/day15.rs:52-63 | the merging loop yields exactly the merge of the sorted ranges |
| Day15.Cells | src/day15.rs:81 | the cells of a range, `end - start + 1` of them |
| Day15.UnionMeaning | src/day15.rs:80-82 | the union holds exactly the covered cells |
| Day15.SeparatedBounds | src/day15.rs:80-82 | every covered cell lies between the first start and the last end |
| Day15.SeparatedOrder | src/day15.rs:80-82 | later separated ranges start and end after earlier ones, with a gap of at least one |
| Day15.NumCoveredCounts | src/day15.rs:80-82 | the sum of the separated ranges' lengths counts each covered cell once |
| Day15.InitBeforeLast | src/day15.rs:80-82 | every cell of the earlier separated ranges lies before the last range |
| Day15.DisjointCard | src/day15.rs:80-82 | disjoint sets add their sizes |
| Day15.Excluded | src/day15.rs:78-95 | exactly the columns of the row that some sensor sees and that hold no beacon |
| Day15.NoBeaconCountMeaning | src/day15.rs:78-95 | the covered count minus the beacon count is the number of cells of the row where no beacon can be, so the unsigned subtraction never underflows |
| Day15.Part1 | src/day15.rs:78-95 | the number of cells of row 2,000,000 that some sensor sees and that hold no beacon |
| Day15.SameUnion | src/day15.rs:80-82 | ranges covering the same cells have the same union |
| Day15.BeaconsCovered | src/day15.rs:83-93 | every beacon on the row is seen by its own sensor |
| Day15.FindOpening | src/day15.rs:97-123 | the loop over the windows of the ranges, with nothing before the first and nothing after the last, finds exactly the opening defined window by window; the ranges must not be empty (the panic) |
| Day15.OpeningIsSingleCell | src/day15.rs:97-123 | for separated ranges the opening found is uncovered and each neighbour is covered or is the allowed bound it was found at |
| Day15.GapFromIsSingleCell | src/day15.rs:102-121 | the same from any window on |
| Day15.RowHasRanges | src/day15.rs:129 | a row some sensor reaches has at least one range |
| Day15.Openings | src/day15.rs:128 | one entry per allowed row |
| Day15.FirstSomeMeaning | src/day15.rs:128-132 | the opening found is at the first row that has one, and `None` means no row has one |
| Day15.Part2 | src/day15.rs:125-134 | the tuning frequency of the opening of the first allowed row that has one, 0 when no row does |
| Day15.RowOpeningMeaning | src/day15.rs:97-134 | the opening of a row is a cell no sensor sees, with each neighbour seen or at the edge of the allowed area |
| Day16.NameIndex | src/day16.rs:45-50 | every name maps to a valve position |
| Day16.NameIndexMeaning | src/day16.rs:48-55 | a name is known exactly when some valve carries it, and it maps to the last valve carrying it |
| Day16.RelevantIndicesMeaning | src/day16.rs:51-53 | the relevant indices are exactly the valves with a positive rate, increasing |
| Day16.Tunnels | src/day16.rs:57-60 | one tunnel list per valve, every tunnel leading to a valve; each name must be known (the map lookup panics otherwise) |
| Day16.Start | src/day16.rs:64-66 | a search with only the source reached, at cost 0, satisfies the search invariant |
| Day16.Visit | src/day16.rs:67-68 | visiting the front of the frontier and recording its tree path keeps the invariant with its tunnels still to follow |
| Day16.VisitRecorded | src/day16.rs:68 | the recorded routes stay tree paths to their targets |
| Day16.VisitPending | src/day16.rs:67-68 | every reached valve is still visited or waiting |
| Day16.VisitClosed | src/day16.rs:67-68 | every other visited valve keeps all its tunnels followed |
| Day16.RelaxKnown | src/day16.rs:69-71 | a tunnel to a valve already reached changes nothing and is at most one step further |
| Day16.RelaxNew | src/day16.rs:69-71 | a tunnel to a new valve adds it to the tree one step further and to the back of the frontier |
| Day16.ClosedUpToNext | src/day16.rs:69-71 | one more tunnel followed |
| Day16.ClosedUpToGrows | src/day16.rs:69-71 | adding a cell keeps the tunnels followed so far |
| Day16.TreeGrows | src/day16.rs:70 | a new child of a reached valve keeps the tree a unit-cost tree from the source |
| Day16.RecordedGrows | src/day16.rs:70 | adding a cell keeps the recorded routes tree paths |
| Day16.PendingGrows | src/day16.rs:70 | a newly reached valve waits in the frontier |
| Day16.ClosedGrows | src/day16.rs:70 | adding a cell keeps the visited valves closed |
| Day16.PathShape | src/day16.rs:68 | a tree path starts at the source, follows tunnels and has one valve more than its target's cost |
| Day16.PathLength | src/day16.rs:68 | a tree path has one valve more than its target's cost |
| Day16.RootIsSource | src/day16.rs:66 | only the source has no parent |
| Day16.PathUnique | src/day16.rs:68 | two tree paths to the same valve are the same |
| Day16.ParentOfLast | src/day16.rs:68 | the last valve of a path has the one before it as parent |
| Day16.Finish | src/day16.rs:62-74 | when the frontier runs dry the recorded routes are a complete row: walks from the source, prefix-closed, and closed under tunnels |
| Day16.FinishWalks | src/day16.rs:62-74 | every recorded route is a walk from the source to its target |
| Day16.FinishPrefixes | src/day16.rs:62-74 | every prefix of a recorded route is the route to its last valve |
| Day16.FinishClosed | src/day16.rs:62-74 | a tunnel out of a reached valve leads to a reached valve at most one step further |
| Day16.UnreachedUpdate | src/day16.rs:70 | reaching a valve leaves one fewer unreached |
| Day16.RoutesFrom | src/day16.rs:63-73 | the breadth-first search from one valve fills its row of the route table |
| Day16.FollowTunnels | src/day16.rs:69-71 | following every tunnel of the visited valve keeps the search invariant, moving valves from unreached to the frontier one for one |
| Day16.ExpandDone | src/day16.rs:69-71 | once all its tunnels are followed the visited valve is closed |
| Day16.RoutesAreShortest | src/day16.rs:62-74 | a walk from the source ends at a reached valve whose route is no longer than the walk |
| Day16.TableFromSources | src/day16.rs:62-75 | the rows of one search per valve form a route table: square, each valve's route to itself is that valve, prefix-closed, triangle inequality |
| Day16.RestIsShort | src/day16.rs:62-75 | from any valve on a route, the route to the same target is no longer than the rest of the route |
| Day16.ConcatIsShort | src/day16.rs:62-75 | the route from `a` to `c` is no longer than going through `b` |
| Day16.BuildMapping | src/day16.rs:41-85 | the names, name index, relevant valves, rates and route table are those the definition gives for the valves |
| Day16.MappingIsValid | src/day16.rs:41-85 | the mapping built from valves with known tunnels is a valid route table whose relevant valves are exactly the positive-rate ones |
| Day16.DistanceFacts | src/day16.rs:115-121 | a valve is at distance 0 from itself and distances obey the triangle inequality |
| Day16.Distances | src/day16.rs:138-144 | one distance per participant, from where it stands to its target |
| Day16.MinOf | src/day16.rs:145-146 | the least element |
| Day16.MinDistance | src/day16.rs:138-146 | no participant is closer to its target, and some participant is exactly that close |
| Day16.Pushed | src/day16.rs:136-164 | a push keeps the number of participants |
| Day16.PushedParticipant | src/day16.rs:150-163 | each participant's pushed step can be undone and says the step took the minimum distance plus one |
| Day16.RatesMatch | src/day16.rs:154-180 | the rate `pop_step` takes back equals the rate `push_step` added |
| Day16.PushedFields | src/day16.rs:147-149 | a push advances the time by the minimum distance plus one and releases the old rate for that long |
| Day16.PoppedIs | src/day16.rs:166-186 | undoing steps that took `duration` gives back the earlier state |
| Day16.PopUndoesPush | src/day16.rs:136-186 | `pop_step` right after `push_step` passes its assertions and restores the state exactly |
| Day16.PushedPoppable | src/day16.rs:166-183 | every pushed step can be undone with the same duration, leaving the earlier steps |
| Day16.PushMovesAlong | src/day16.rs:157-161 | a participant that does not reach its target moves along its route, which then is shorter by that much |
| Day16.TargetsMeaning | src/day16.rs:195-203 | a valve is among the targets exactly when some step heads for it |
| Day16.UnopenedMeaning | src/day16.rs:207-220 | exactly the relevant valves not yet targeted, in order |
| Day16.UnopenedSameMembers | src/day16.rs:204 | sorting the targets does not change the result |
| Day16.LeftToOpen | src/day16.rs:204-220 | the pass with the peeking iterator over the sorted targets keeps exactly the relevant valves that are not targeted |
| Day16.Remove | src/day16.rs:239 | one element shorter |
| Day16.ArrangementsSound | src/day16.rs:237-240 | every candidate tuple has the requested length and distinct elements drawn from the valves left |
| Day16.ArrangementsFromSound | src/day16.rs:237-240 | the same for the tuples starting from position `i` |
| Day16.FreeSlots | src/day16.rs:222-235 | the participants that are not walking to a goal, increasing |
| Day16.NewStepsBuffer | src/day16.rs:223-235 | one entry per participant, its goal when it is walking |
| Day16.Fill | src/day16.rs:241-243 | the slots get the candidate's values and every other entry is unchanged |
| Day16.FillSame | src/day16.rs:241-243 | filling the same slots overwrites everything the two buffers differ in |
| Day16.FillSlots | src/day16.rs:241-243 | the loop writes exactly the filled buffer |
| Day16.CandidateAllowed | src/day16.rs:244 | pushing a candidate passes the assertion and targets only relevant valves reachable from where each participant stands |
| Day16.PushedKeepsInv | src/day16.rs:244 | a push of relevant targets keeps the search invariant |
| Day16.CandidatesAreOk | src/day16.rs:237-243 | every candidate gives each free participant a relevant valve |
| Day16.Next | src/day16.rs:244 | the state after a candidate keeps the invariant and strictly advances the time |
| Day16.BestFrom | src/day16.rs:193-251 | the search result is at least what standing still releases, and is the largest of that and every candidate's result |
| Day16.Subs | src/day16.rs:237-249 | one contribution per candidate |
| Day16.MaxOf | src/day16.rs:246 | the fold is at least its start and is the start or one of the values |
| Day16.MaxOfCovers | src/day16.rs:246 | the fold is at least every value |
| Day16.MaxOfSnoc | src/day16.rs:246 | one more turn of the loop extends the fold by one value |
| Day16.BestFromCovers | src/day16.rs:237-250 | the search is at least as good as every candidate |
| Day16.SubsMeaning | src/day16.rs:244-248 | a candidate that ends before the time limit contributes the search after it, and one that does not contributes standing still |
| Day16.Route.constructor | src/day16.rs:123-132 | every participant at the start, no steps, time, rate and release 0 |
| Day16.Route.PushStep | src/day16.rs:136-164 | the state becomes the pushed state |
| Day16.Route.Advance | src/day16.rs:147-149 | the clock moves on and the old rate is released for that long |
| Day16.Route.PushParticipant | src/day16.rs:150-163 | participant `i` gets its pushed step, opening its valve and adding its rate exactly when it is the closest |
| Day16.Route.PopStep | src/day16.rs:166-186 | the state becomes the popped state |
| Day16.Route.PopParticipant | src/day16.rs:168-182 | participant `i` loses its last step, and the duration is what that step took |
| Day16.Route.FindBest | src/day16.rs:193-251 | the state is restored and the result is the search result from the state |
| Day16.Route.LeftToOpenNow | src/day16.rs:195-220 | the relevant valves that no step heads for |
| Day16.Route.TryCandidate | src/day16.rs:241-249 | one candidate is pushed, searched when time is left, and popped, leaving the state as it was and the best so far updated |
| Day16.StartIsValid | src/day16.rs:254-258 | a fresh route from `AA` over solvable valves satisfies the search invariant |
| Day16.Part1 | src/day16.rs:254-259 | the search result from `AA` for one participant in 30 minutes |
| Day16.Part2 | src/day16.rs:261-266 | the search result from `AA` for two participants in 26 minutes |
| Day16.BestWithin | src/day16.rs:254-266 | the mapping is built, a route started at `AA` and the search run: the result is the search result for that many participants and that time limit |
| Day17.Generator | src/day17.rs:14-24 | one jet per `<` or `>`, line breaks skipped; any other character is the panic (excluded by the precondition) |
| Day17.Render | src/day17.rs:14-24 | one accepted symbol per jet |
| Day17.GeneratorAppend | src/day17.rs:14-24 | reading two texts in a row is reading each of them |
| Day17.GeneratorRender | src/day17.rs:14-24 | reading the symbols of a jet pattern gives the pattern back |
| Day17.NewlineSkipped | src/day17.rs:20 | a line break anywhere in the input is skipped |
| Day17.PlusSound | src/day17.rs:40-49 | the plus brick's contact lists test every cell a move could hit |
| Day17.CornerSound | src/day17.rs:50-60 | the corner brick's contact lists test every cell a move could hit |
| Day17.VerticalLineSound | src/day17.rs:61-66 | the vertical line's contact lists test every cell a move could hit |
| Day17.SquareSound | src/day17.rs:67-72 | the square's contact lists test every cell a move could hit |
| Day17.PatternsSound | src/day17.rs:33-73 | the contacts listed for every brick are sound: a move they allow never overlaps rock |
| Day17.IndexDivMod | src/day17.rs:84-86 | column and row can be read back from a cell's position |
| Day17.IndexUnique | src/day17.rs:84-86 | different cells are stored in different places |
| Day17.IndexBelow | src/day17.rs:84-86 | a cell is among the first `rows` rows exactly when its row is below `rows` |
| Day17.RowsWhole | src/day17.rs:96-98 | the stored cells are exactly `rows * cols` |
| Day17.WholeRows | src/day17.rs:96-98 | `rows * cols` cells make `rows` whole rows |
| Day17.AboveIsEmpty | src/day17.rs:84-86 | every cell at or above the stored rows reads as empty |
| Day17.TopRowsLength | src/day17.rs:109-116 | the top rows hold `min(rows, numRows)` whole rows |
| Day17.TopRowsMeaning | src/day17.rs:109-116 | the top rows read like the highest rows of the arena |
| Day17.HasCollision | src/day17.rs:118-120 | true exactly when some contact, offset by the position, is rock |
| Day17.PushedBrick | src/day17.rs:208-228 | a jet moves the brick by at most one column its way and keeps its row; a right move stays inside the arena |
| Day17.ContactFree | src/day17.rs:118-120 | a contact that the list tests is free when there is no collision |
| Day17.PushLeftKeepsConsistent | src/day17.rs:211-216 | a left push `push_brick` allows keeps the brick clear of rock and inside the arena |
| Day17.PushRightKeepsConsistent | src/day17.rs:217-226 | a right push `push_brick` allows keeps the brick clear of rock and inside the arena |
| Day17.PushKeepsConsistent | src/day17.rs:208-228 | every push keeps a consistent brick consistent |
| Day17.DropKeepsConsistent | src/day17.rs:230-238 | a fall `drop_brick` allows keeps the brick clear of rock |
| Day17.Fall | src/day17.rs:277-283 | the brick comes to rest no higher than it started, unable to fall, with the index of the next jet in range |
| Day17.FallLands | src/day17.rs:277-283 | a consistent brick driven by the jets comes to rest consistent and unable to fall |
| Day17.SpawnIsConsistent | src/day17.rs:276 | a brick placed two columns from the left wall and three rows above the top is consistent |
| Day17.ExtendedMeaning | src/day17.rs:191-196 | growing keeps rows whole, holds at least the required rows and only adds empty cells |
| Day17.PaintRow | src/day17.rs:198-204 | painting keeps the size of the arena |
| Day17.PaintRows | src/day17.rs:197-205 | painting keeps the size of the arena |
| Day17.BrickCellStored | src/day17.rs:200 | the brick's cells are stored inside an arena tall enough |
| Day17.PaintRowMeaning | src/day17.rs:198-204 | painting part of a row turns exactly those cells of the brick into rock |
| Day17.PaintRowsMeaning | src/day17.rs:197-205 | painting the rows below `r` turns exactly the brick's cells in those rows into rock |
| Day17.FrozenMeaning | src/day17.rs:189-206 | freezing keeps rows whole, makes room for the brick's rows, and a cell is rock exactly when it was or the brick covers it |
| Day17.NextCellFree | src/day17.rs:200-202 | the cell `freeze_brick` paints next is stored and free, so its assertion holds |
| Day17.State.constructor | src/day17.rs:173-182 | an empty arena and no falling brick |
| Day17.State.SetBrick | src/day17.rs:184-187 | the brick becomes the falling one; no brick may be falling (the assertion) |
| Day17.State.FreezeBrick | src/day17.rs:189-206 | the arena becomes the frozen arena and nothing falls |
| Day17.State.PaintBrickRow | src/day17.rs:198-204 | one more row of the brick painted |
| Day17.State.PushBrick | src/day17.rs:208-228 | the brick moves as the push definition says, the rocks stay, and consistency is kept |
| Day17.State.DropBrick | src/day17.rs:230-238 | true exactly when the brick can fall, and then it moves one row down; consistency is kept |
| Day17.State.BlowAndFall | src/day17.rs:277-283 | the rocks stay and consistency is kept; the brick ends where the jets from `jetIdx` drive it until it can fall no further, and the next jet is the one after the last used |
| Day17.State.DropOne | src/day17.rs:276-287 | the arena becomes the old one with the brick frozen exactly where the jets from `jetIdx` drive it from its spawn position, the next jet is the one after the last used, the brick rests where it cannot fall, and the result is the number of rows added |
| Day18.Neighbors | src/day18.rs:45-62 | six neighbours |
| Day18.NeighborsAreFaces | src/day18.rs:45-62 | the neighbours are exactly the cells sharing a face, all six different |
| Day18.MinOf | src/day18.rs:33 | the smallest of the values, and one of them |
| Day18.Limit | src/day18.rs:32-37 | every cube lies strictly inside the limits of an axis, and some cube is one cell above the lower limit |
| Day18.SingletonInput | src/day18.rs:35 | when `minmax` sees one element, every listed cube is the same cube |
| Day18.FromCubes | src/day18.rs:29-43 | the cube map holds exactly the listed cubes and, per axis, the range `minmax` gives; `None` exactly for an empty input, where the source panics |
| Day18.CubesInside | src/day18.rs:32-37 | every cube is within the limits and off their border |
| Day18.CornerIsOpen | src/day18.rs:112 | the flood fill starts on a cell within the limits that is not a cube |
| Day18.Box | src/day18.rs:115-120 | a cell is in the box exactly when it is within the limits on every axis |
| Day18.CountMissing | src/day18.rs:69-77 | no more than the cells looked at |
| Day18.OpenFaces | src/day18.rs:69-77 | at most six faces per cube |
| Day18.FacesBounded | src/day18.rs:65-80 | the open faces of any part of the cubes are between none and six per cube |
| Day18.SurfaceBounded | src/day18.rs:65-80 | the surface has between none and six faces per cube |
| Day18.AllMissing | src/day18.rs:71-75 | neighbours that are no cubes all count |
| Day18.SingleCube | src/day18.rs:65-80 | a lone cube shows all six faces |
| Day18.CountSurfaceArea | src/day18.rs:65-80 | the sum over the cubes of their faces not touching another cube |
| Day18.Part1 | src/day18.rs:104-107 | the surface of the listed cubes, at most six faces per cube; `None` exactly for an empty input, where `from_iter` panics |
| Day18.QueuedPop | src/bfs.rs:99-101 | taking the head of the queue moves it to the yielded cells, each still held once |
| Day18.QueuedPush | src/bfs.rs:103-123 | a newly reached cell joins the back of the queue, each still held once |
| Day18.ReachedPush | src/day18.rs:87-96 | an open neighbour of a reached cell is reached by extending that cell's walk |
| Day18.ClosedGrows | src/day18.rs:87-96 | reaching more cells keeps the yielded cells' open neighbours reached |
| Day18.SubsetSize | src/day18.rs:82-101 | a part of a finite set is no larger than the set |
| Day18.ReachedBounded | src/day18.rs:82-101 | the search reaches no more cells than the box and the start, so the fill ends |
| Day18.VisitNeighbor | src/day18.rs:88-96 | an edge of cost 0 to the `t`-th neighbour when it is within the limits and not a cube; every invariant of the fill is kept |
| Day18.Expand | src/day18.rs:86-98 | after the loop over the six neighbours, the taken cell has every open neighbour reached |
| Day18.FillDone | src/day18.rs:85-100 | once the queue is empty the yielded cells are the reached ones, closed under open neighbours |
| Day18.FloodFill | src/day18.rs:82-101 | the start first, every cell once, each reached from the start through open cells, and every open neighbour of a yielded cell yielded too |
| Day18.FillInterior | src/day18.rs:110-129 | the cubes together with every cell of the box that the steam cannot reach from the low corner through open cells |
| Day18.WalkStaysReached | src/day18.rs:82-101 | a walk through open cells from the start ends among the yielded cells |
| Day18.Part2 | src/day18.rs:109-131 | the surface of the cubes once every cell of the box the steam cannot reach from the low corner is filled; `None` exactly for an empty input, where `from_iter` panics |
| Day18.FilledFacesAreExterior | src/day18.rs:109-131 | every face counted in part 2 looks onto air outside the box or air the steam reaches from the corner |
| Day19.ParseMaterial | src/day19.rs:11-23 | a name is accepted only as the material it names |
| Day19.ParseMaterialName | src/day19.rs:11-23 | each of the four names is accepted as its material |
| Day19.Index | src/day19.rs:35-42 | below four, and the material's position in `Material::all` |
| Day19.IndexOfAll | src/day19.rs:26-42 | the index of the material in each position of `Material::all` is that position |
| Day19.Waited | src/day19.rs:132-137 | waiting keeps the robots |
| Day19.WaitedTwice | src/day19.rs:132-137 | waiting in two goes collects what waiting the whole time does |
| Day19.WaitMinutes | src/day19.rs:132-137 | each robot collects its material once per minute waited |
| Day19.CeilDivMeaning | src/day19.rs:121-125 | the rounded-up quotient is the least `t` with `b * t >= a` |
| Day19.TimeUpToNone | src/day19.rs:113-120 | no time exactly when one of the materials seen is short and has no robot |
| Day19.CollectMonotone | src/day19.rs:132-137 | collecting for longer never leaves less |
| Day19.TimeUpToCovers | src/day19.rs:113-129 | after the reported wait the stock covers each material seen |
| Day19.TimeUpToTight | src/day19.rs:113-129 | a minute less would leave one of the materials seen short |
| Day19.TimeNeededMeaning | src/day19.rs:111-130 | the reported wait is the least after which the robot is affordable; `None` means it never is |
| Day19.TimeUpToStaysNone | src/day19.rs:117-120 | once a short material with no robot is met, the answer stays `None` |
| Day19.TimeToBuild | src/day19.rs:111-130 | the loop with its early return gives the least wait, or `None` |
| Day19.Built | src/day19.rs:139-146 | the cost is paid from ore, clay and obsidian, geodes are kept, and there is one more robot of the kind built and no other change |
| Day19.BuildRobot | src/day19.rs:139-146 | the loop that pays the cost gives the built state |
| Day19.Scan | src/day19.rs:94-107 | the scan never reports less than the best found so far |
| Day19.BestAtLeastIdle | src/day19.rs:93 | doing nothing for the time left is always one of the options |
| Day19.MostGeode | src/day19.rs:92-109 | the loop over the materials, with its `break` and its time test, gives the search's answer |
| Day19.ScanCovers | src/day19.rs:94-107 | the scan considers every reachable robot it can still build in time |
| Day19.PlanAtMostBest | src/day19.rs:92-109 | no plan of builds collects more geodes than the search reports |
| Day19.ScanAttained | src/day19.rs:94-107 | the scan ends on the idle value or on one branch it tried |
| Day19.PlanCons | src/day19.rs:98-105 | a plan that starts with a build the search tries is that build followed by the rest |
| Day19.BestIsAttained | src/day19.rs:92-109 | some plan collects exactly what the search reports |
| Day19.BestIsMost | src/day19.rs:92-109 | the search reports the most geodes any plan of builds collects |
| Day19.Part1 | src/day19.rs:149-154 | the sum over the blueprints of id times the most geodes in 24 minutes |
| Day19.Part2 | src/day19.rs:156-162 | the product of the most geodes in 32 minutes over the first three blueprints, or all of them when fewer |
| Day20.RemoveAt | src/day20.rs:16 | one element shorter; the element at `p` is gone and what follows moves up one place |
| Day20.InsertAt | src/day20.rs:17 | one element longer with `x` at `p`; what follows moves down one place |
| Day20.RemoveInsert | src/day20.rs:16-24 | removing what was just inserted gives the sequence back |
| Day20.MoveKeepsElements | src/day20.rs:16-24 | taking an element out and putting it back anywhere keeps the same elements |
| Day20.FirstIndex | src/day20.rs:11 | the first place holding the index |
| Day20.ModSum | src/day20.rs:12 | reducing a summand first does not change the remainder |
| Day20.NewPosition | src/day20.rs:12 | the new position is one of `0 ..= n - 2` |
| Day20.NewPositionReduced | src/day20.rs:22 | taking the new position `rem_euclid` once more changes nothing |
| Day20.Moved | src/day20.rs:11-26 | one move keeps the same indices |
| Day20.MovedMeaning | src/day20.rs:11-26 | after one move the index is at its new position, the other indices keep their order, and an unchanged position changes nothing |
| Day20.Mixed | src/day20.rs:9-28 | mixing keeps the same indices |
| Day20.MixedIsMixable | src/day20.rs:9-28 | mixing keeps the length and every index, so it can be repeated |
| Day20.Mixes | src/day20.rs:47-49 | repeated mixing keeps the same indices and can go on |
| Day20.MixIndices | src/day20.rs:9-28 | the loop moves the index of every number in turn |
| Day20.MoveIndex | src/day20.rs:11-25 | the three-way comparison of old and new place performs the move |
| Day20.ZeroPosition | src/day20.rs:31 | the first place whose index points at a zero |
| Day20.Rotated | src/day20.rs:34 | a rotation keeps the length |
| Day20.RotatedAt | src/day20.rs:34 | place `j` of the rotation is place `j + k` of the circle |
| Day20.ExtractAnswerRotation | src/day20.rs:30-36 | with one zero, the answer is the same wherever the circle of indices starts |
| Day20.RotatedAll | src/day20.rs:34 | every place of the rotation is the matching place of the circle |
| Day20.ModSwap | src/day20.rs:34 | adding two offsets round a circle in either order lands on the same place |
| Day20.ShiftBack | src/day20.rs:34 | stepping back `k` places and forward `k` again returns to the start |
| Day20.AfterRotated | src/day20.rs:34 | counting on from a place of the rotation is counting on from the matching place of the circle |
| Day20.MixedAnswerable | src/day20.rs:30-31 | a rearrangement of the starting order with a zero in the list is one `extract_answer` accepts |
| Day20.IotaMixable | src/day20.rs:39-40 | the starting order can be mixed |
| Day20.Part1 | src/day20.rs:38-42 | the answer read off the starting order after one mix, which neither panics |
| Day20.Scaled | src/day20.rs:45 | one number per input number |
| Day20.ScaledMeaning | src/day20.rs:45 | every number times the decryption key; exactly the zeros stay zero |
| Day20.ScaledZero | src/day20.rs:45 | a product with the key is zero exactly when the number is |
| Day20.Part2 | src/day20.rs:44-51 | the answer read off the starting order after ten mixes of the scaled numbers |
| Day21.ParseName | src/day21.rs:28-34 | a name is parsed exactly when the text has four characters; otherwise the characters come back as the error |
| Day21.ShowName | src/day21.rs:19-26 | four characters written |
| Day21.ParseShowName | src/day21.rs:19-34 | a displayed name parses back to itself |
| Day21.ShowParsedName | src/day21.rs:19-34 | a parsed name displays as the text it came from |
| Day21.TruncDivMeaning | src/day21.rs:64 | Rust's `/`: the remainder is smaller than the divisor and has the dividend's sign; for non-negative operands it is the ordinary quotient |
| Day21.TruncDivOfNegative | src/day21.rs:64 | the truncating quotient differs from the Euclidean one on -7 / 2 |
| Day21.AbsMul | src/day21.rs:64 | the magnitude of a product is the product of the magnitudes |
| Day21.TruncDivExact | src/day21.rs:64 | dividing a multiple of `b` by `b` gives the multiplier back |
| Day21.ResolveWith | src/day21.rs:58-66 | a result exactly when the yell is a number or both operands are known, and then it is what the yell evaluates to |
| Day21.YieldsGrows | src/day21.rs:114-118 | learning another monkey's number never changes what a yell evaluates to |
| Day21.MonkeyMap | src/day21.rs:127 | every listed name is in the map, and each entry is one of the rows |
| Day21.MonkeyMapLast | src/day21.rs:127 | the row that survives for a name is its last one |
| Day21.SoundIsValue | src/day21.rs:110-119 | without cycles, every number found is what its monkey yells, whatever the ignored monkeys yell |
| Day21.SubsetSize | src/day21.rs:98-105 | a part of a finite set is no larger than the set |
| Day21.Explore | src/day21.rs:103 | an edge of cost 1 to one operand keeps the search's costs layered, reaches that operand and loses nothing from the queue |
| Day21.Search | src/day21.rs:98-105 | the search from root reaches only monkeys of the map, root at cost 0, and with every reached monkey its operands |
| Day21.ExploreOperands | src/day21.rs:101-104 | the body of the search loop reaches both operands and keeps the search state |
| Day21.ClosureKept | src/day21.rs:100-105 | once the front of the queue has its operands reached, every reached monkey does or is still queued |
| Day21.ResolveByCost | src/day21.rs:106-120 | the reached monkeys are taken from the greatest cost down, and the numbers found are sound, each for a reached monkey that is not ignored |
| Day21.InOrderStep | src/day21.rs:107-109 | taking a remaining monkey of greatest cost keeps the order by decreasing cost |
| Day21.Insert | src/day21.rs:114-118 | the number is added exactly when the yell resolves, and the numbers stay sound |
| Day21.GetConcreteNumbersIgnoring | src/day21.rs:93-121 | root at cost 0, the reached monkeys taken by decreasing cost, and every number found sound for a reached monkey; `None` only when the last monkey taken is a reached, non-ignored division whose operands have sound numbers, the divisor's being zero |
| Day21.MostDistantExists | src/day21.rs:107-109 | a non-empty set of reached monkeys has one of greatest cost |
| Day21.Part1 | src/day21.rs:126-129 | without cycles, the number root yells |
| Day21.SolveExactness | src/day21.rs:150-185 | solving one step backwards is exact for sums and differences, for a product whose known factor divides the target, and for quotients that divide evenly |
| Day21.StepBack | src/day21.rs:145-188 | if the unknown operand yells what was solved for and the step was exact, the monkey yells its target |
| Day21.RootTarget | src/day21.rs:136-143 | `None` exactly when root yells a number or not exactly one of its operands is known; otherwise root's unknown operand, not known, with the known number of root's other operand as its target, so that the operand yelling it balances root |
| Day21.LeadsBack | src/day21.rs:150-187 | an exact round moves the promise "if this monkey yells its target, root balances" to the unknown operand and the value solved for |
| Day21.BackRound | src/day21.rs:146-187 | `None` exactly when the monkey yells a number, not exactly one operand is known, or solving divides by zero; otherwise a round at that monkey and target, solving for the unknown operand, which is in the map and not known, with the known operand's number |
| Day21.ChainSnoc | src/day21.rs:144-187 | one more round of the loop, read off the known numbers, extends the chain of steps and is exact throughout exactly when the earlier rounds were and it is |
| Day21.SolveBack | src/day21.rs:145-189 | the rounds form a chain from the starting monkey to the human, the first targeting the given target and the last solving for the answer (the target itself if there are none); each round's number is its known operand's known number and its unknown operand is the one not known; the exactness flag holds exactly when every round is exact, and then the human yelling the answer keeps the starting promise |
| Day21.Part2 | src/day21.rs:131-190 | the recorded rounds of the loop form a chain from one of root's operands down to the human, each solving for what the next targets, the last one solving for the answer; the first round targets what root's other operand yells and every round's number is what its known operand yells, whatever the human yells; the exactness flag holds exactly when every round is exact, and then the answer makes root's two operands yell the same number |
| Day21.ReadIsValue | src/day21.rs:145-187 | the number each round reads is what its known operand yells, whatever the human yells |
| Day21.OtherIsValue | src/day21.rs:136-143 | a number found without the human is what its monkey yells, whatever the human yells |
| Day21.SmallAnswerPinned | src/day21.rs:131-190 | on the input where root adds the human times two to seven, a chain meeting the contract of `part_2` leaves one answer, 3 |
| Day21.Part2OnSmallInput | src/day21.rs:131-190 | `part_2` on that input answers 3 or panics |
| Day22.LeadingSpaces | src/day22.rs:26 | the leading run of spaces, up to the first other character |
| Day22.ParseRow | src/day22.rs:24-36 | `None` exactly when a character after the leading spaces is neither `.` nor `#` (the `panic!`); otherwise a row that starts after its leading spaces and ends at the line's length, a tile being a wall exactly when it reads `#` |
| Day22.MaxEnd | src/day22.rs:40 | the largest row end, reached by some row |
| Day22.ColumnRangesOf | src/day22.rs:39-47 | one range per column up to the largest row end |
| Day22.ColRangeMeaning | src/day22.rs:39-47 | a column's range runs from the first row covering it to one past the last; a column no row covers keeps `usize::MAX..0` |
| Day22.ColumnRanges | src/day22.rs:39-47 | the loop that narrows the ranges in place builds the generator's column ranges |
| Day22.WellFormedRanges | src/day22.rs:39-48 | the column ranges of a well-formed board are the generator's |
| Day22.GeneratedBoard | src/day22.rs:19-48 | the generator's board is well formed exactly when no column has a gap |
| Day22.ContiguousColumn | src/day22.rs:39-47 | a column without a gap has every row of its range covering it |
| Day22.GapInColumn | src/day22.rs:39-47 | a column with a gap is one where a vertical step can leave the board |
| Day22.Index | src/day22.rs:63-81 | a tile exactly when the place is on the board |
| Day22.ColumnOf | src/day22.rs:99-139 | a tile's column has a range that holds the tile's row |
| Day22.Idx | src/day22.rs:164-171 | one of four facings |
| Day22.TurnRight | src/day22.rs:173-180 | a quarter turn clockwise: the next facing in `idx` order |
| Day22.TurnLeft | src/day22.rs:182-189 | a left turn followed by a right one faces the same way |
| Day22.LeftUndoesRight | src/day22.rs:173-189 | a right turn followed by a left one faces the same way |
| Day22.FourTurns | src/day22.rs:173-180 | four right turns face the same way again |
| Day22.NextIn | src/day22.rs:88-92 | the next place in a range, wrapping, stays in the range |
| Day22.PrevIn | src/day22.rs:115-119 | the previous place in a range, wrapping, stays in the range |
| Day22.PrevUndoesNext | src/day22.rs:84-141 | stepping back undoes stepping on, both ways round |
| Day22.Heading | src/day22.rs:84-141 | the tile a step heads for is on the board, in the same row for a horizontal step and the same column for a vertical one |
| Day22.CalcStep | src/day22.rs:84-141 | no step exactly when the tile ahead is a wall; otherwise the walker lands on that free tile |
| Day22.NextInWraps | src/day22.rs:88-92 | stepping on is adding one modulo the range's length |
| Day22.PrevInWraps | src/day22.rs:115-119 | stepping back is subtracting one modulo the range's length |
| Day22.HeadingWraps | src/day22.rs:84-141 | a step heads for the neighbour on the row or column seen as a circle |
| Day22.StepBack | src/day22.rs:84-141 | a step that succeeds from a free tile can be walked back by facing the other way |
| Day22.Walked | src/day22.rs:234-242 | a walk ends on the board |
| Day22.WalkedOpen | src/day22.rs:234-242 | a walk from a free tile ends on a free tile |
| Day22.Stuck | src/day22.rs:238-240 | in front of a wall, no number of steps moves the walker |
| Day22.WalkedCompose | src/day22.rs:234-242 | walking `n` steps and then `m` more is walking `n + m` steps |
| Day22.ComposeThrough | src/day22.rs:234-242 | a walk split after its first successful step composes |
| Day22.WalkedFirstStep | src/day22.rs:235-240 | a walk stops at once in front of a wall or is the first step followed by one step fewer |
| Day22.Applied | src/day22.rs:232-250 | the walker stays on a free tile; a walk keeps the facing and a turn keeps the place |
| Day22.Run | src/day22.rs:259-261 | after any list of instructions the walker is on a free tile |
| Day22.FirstOpen | src/day22.rs:224 | the first free tile of the row: every tile before it is a wall |
| Day22.PasswordDecodes | src/day22.rs:252-254 | on a board narrower than 249 columns the password gives back the row, the column and the facing |
| Day22.State.constructor | src/day22.rs:222-230 | the first free tile of the top row, facing right |
| Day22.State.ApplyInstruction | src/day22.rs:232-250 | the walker's new place and facing are those of the instruction applied |
| Day22.State.CalcPassword | src/day22.rs:252-254 | on a board narrower than 249 columns the password gives back the walker's row and column (1-based) and its facing |
| Day22.Part1 | src/day22.rs:257-263 | the password after every instruction followed from the start |
| Day23.Idx | src/day23.rs:64-75 | one of eight places going clockwise from north |
| Day23.FromIdx | src/day23.rs:51-62 | `Direction::all` read at a place is the direction with that index |
| Day23.FromIdxOfIdx | src/day23.rs:51-75 | each direction is found at its own index |
| Day23.AddTo | src/day23.rs:98-101 | the neighbour lies the direction's offset away |
| Day23.OppositeDirections | src/day23.rs:85-96 | directions four places apart have opposite offsets, and every offset is one step to a different cell |
| Day23.ToTry | src/day23.rs:81-83 | four tries |
| Day23.ToTryIsRotation | src/day23.rs:77-83 | whatever the round, the four tries are north, south, west and east, rotated to start at the round's one |
| Day23.ToTryAt | src/day23.rs:82 | each try is the matching place of the rotated order |
| Day23.SurroundingMeaning | src/day23.rs:148-149 | the eight places looked at hold no elf exactly when no elf occupies a cell touching this one, diagonals included |
| Day23.FreeTowardsCells | src/day23.rs:155-159 | the three cells looked at are the direction and its two neighbours on either side |
| Day23.FirstFreeMeaning | src/day23.rs:153-161 | nothing exactly when no direction is free; otherwise the cell towards the first free one |
| Day23.Propose | src/day23.rs:150-162 | an elf with no neighbour proposes nothing |
| Day23.ProposeMeaning | src/day23.rs:150-162 | a proposal goes towards the first direction, in the round's order, whose three cells are free; with none the elf proposes nothing |
| Day23.ProposalIsFree | src/day23.rs:153-161 | an elf only proposes an empty cell |
| Day23.NewPos | src/day23.rs:163-167 | the elf's own cell or an empty one |
| Day23.TargetsOver | src/day23.rs:147-169 | every elf entered has a target |
| Day23.TargetsWith | src/day23.rs:147-169 | every elf entered has a target |
| Day23.Targets | src/day23.rs:147-169 | every elf has a target |
| Day23.TargetsAt | src/day23.rs:163-168 | each elf's target is its `new_pos` |
| Day23.TargetsFree | src/day23.rs:147-169 | every elf stays or targets an empty cell |
| Day23.LonelyStays | src/day23.rs:150-151 | an elf with no neighbour stays put |
| Day23.DisputedStay | src/day23.rs:178-180 | all proposers of a disputed target stay where they are |
| Day23.SoleProposerMoves | src/day23.rs:173-177 | a sole proposer moves to its target |
| Day23.SingletonOnly | src/day23.rs:173 | a set of one element holds nothing else |
| Day23.SubsetCard | src/day23.rs:170-182 | a part of a finite set is no larger than the set |
| Day23.DestInjective | src/day23.rs:170-182 | two elves never end on the same cell |
| Day23.DestsCount | src/day23.rs:170-182 | the cells the elves end on are as many as the elves |
| Day23.StepKeepsCount | src/day23.rs:144-184 | a round neither adds nor loses elves |
| Day23.MovedIffChanged | src/day23.rs:170-183 | some elf moves exactly when the occupied cells change |
| Day23.AnyMovedIffChanged | src/day23.rs:144-184 | `step` reports a move exactly when the elves changed |
| Day23.SuggestsAdd | src/day23.rs:168 | entering one more elf under its target keeps every list of proposers exact |
| Day23.EnterProposer | src/day23.rs:168 | the list under the elf's target grows by the elf |
| Day23.OtherProposers | src/day23.rs:168 | the other lists are unchanged |
| Day23.WithinAll | src/day23.rs:170-182 | every elf's target has a list |
| Day23.DestsAdd | src/day23.rs:172-181 | turning one more list into elves lands a single proposer on its target and keeps several where they were |
| Day23.State.constructor | src/day23.rs:196-198 | the elves of the input |
| Day23.State.Step | src/day23.rs:144-184 | the elves after one round, and whether any elf moved |
| Day23.State.CalcEmptyGround | src/day23.rs:186-192 | the area of the bounding box less the number of elves |
| Day23.Suggestions | src/day23.rs:145-169 | every elf listed, once, under its new position |
| Day23.Settle | src/day23.rs:170-183 | each target becomes its single proposer's cell, or its proposers stay; whether any elf moved |
| Day23.TightUnique | src/day23.rs:126-142 | there is only one smallest box holding the elves |
| Day23.Limits | src/day23.rs:126-142 | the smallest box holding every elf, each side touching one |
| Day23.IterateKeepsCount | src/day23.rs:200-202 | a round that keeps the number of elves keeps it over any number of rounds |
| Day23.RoundsKeepCount | src/day23.rs:200-202 | rounds never change how many elves there are |
| Day23.Part1 | src/day23.rs:195-204 | the empty ground in the bounding box after ten rounds |
| Day23.FirstStillMeaning | src/day23.rs:210-215 | the search finds the first round in which no elf moves, or every round it tried had a move |
| Day23.Part2 | src/day23.rs:206-217 | the number of the first round in which no elf moves, every round before having a move; `None` when the bound runs out first |
| Day24.Rank | src/day24.rs:15-21 | each blowing wind has its place among the four |
| Day24.Opposite | src/day24.rs:15-21 | the opposite of a wind is another wind, never the wall |
| Day24.IdxBound | src/day24.rs:122-128 | a row-major index of a cell is below the number of cells |
| Day24.CoordToIdx | src/day24.rs:122-128 | an index exactly when the coordinate is inside the valley, and below the number of cells |
| Day24.NonEmptyGrid | src/day24.rs:122-128 | a valley with a cell is at least one cell wide and high |
| Day24.IdxRoundTrip | src/day24.rs:122-128 | indices and cells of the valley correspond one to one |
| Day24.CoordOfIdx | src/day24.rs:122-128 | the cell of a coordinate's index is that coordinate |
| Day24.IdxOfCoord | src/day24.rs:122-128 | the index of an index's cell is that index |
| Day24.WallsSurround | src/day24.rs:97-109 | the wall is exactly outside the valley except at the two gaps; inside, a place has its stored flags |
| Day24.BlowBack | src/day24.rs:164-191 | a wind stays inside the valley, and blowing the opposite way undoes it |
| Day24.BlowWraps | src/day24.rs:164-191 | a wind moves one cell, wrapping modulo the side of the valley |
| Day24.Advanced | src/day24.rs:160-203 | a minute keeps the valley's size and shape |
| Day24.SourceInside | src/day24.rs:164-193 | the cell a wind comes from is in the valley, and it is the only cell whose wind of that kind blows to the target |
| Day24.PartialStep | src/day24.rs:163-193 | adding one wind of one cell to where it blows |
| Day24.PartialNext | src/day24.rs:154-158 | passing from a cell's last wind to the next cell of the column, and to the next column |
| Day24.PartialDone | src/day24.rs:160-203 | once every column is visited every wind has arrived; before, nothing has |
| Day24.Advance | src/day24.rs:160-203 | the loops over columns, rows and winds build the valley a minute later |
| Day24.AdvancedMoves | src/day24.rs:160-203 | a wind reaches the cell it blows to, a cell's wind came from upwind, and no wall appears |
| Day24.AdvancedOutside | src/day24.rs:97-109 | outside the valley a minute changes nothing |
| Day24.Downwind | src/day24.rs:193 | the cell a wind blows to is a cell of the valley |
| Day24.DownwindMeaning | src/day24.rs:164-193 | a cell's wind of a kind arrives at its downwind cell, one step its way |
| Day24.DownwindInjective | src/day24.rs:164-193 | different cells blow their winds of one kind to different cells |
| Day24.DownwindOnto | src/day24.rs:164-193 | every cell with a wind after a minute got it from a cell upwind |
| Day24.AdvanceKeepsCount | src/day24.rs:160-203 | a minute keeps the number of cells carrying each kind of wind |
| Day24.MinuteMovesWinds | src/day24.rs:160-203 | a minute keeps the valley well formed and moves every wind one cell its way |
| Day24.IterateWellFormed | src/day24.rs:258-260 | any number of minutes keeps the valley well formed and its size |
| Day24.UpwindIsModular | src/day24.rs:164-191 | `n` steps against a wind is one step of `n` modulo the side |
| Day24.ModStep | src/day24.rs:164-191 | one step and then `n - 1` more, modulo `m`, is `n` steps |
| Day24.IterateUpwind | src/day24.rs:258-260 | after `n` minutes a cell holds a wind exactly when the cell `n` steps upwind held it |
| Day24.AdvanceNUpwind | src/day24.rs:258-260 | after `n` minutes a cell holds a wind exactly when the cell `n` steps upwind held it at first |
| Day24.UpwindLaps | src/day24.rs:118-120 | a whole number of laps round the valley in either direction comes back to the start |
| Day24.Laps | src/day24.rs:118-120 | a multiple of the side added or taken away changes nothing modulo the side |
| Day24.PeriodCell | src/day24.rs:118-120 | after a common multiple of width and height, each cell holds its winds again |
| Day24.PeriodReturns | src/day24.rs:118-120 | after `period` minutes every wind is back where it started |
| Day24.AdvanceNNext | src/day24.rs:258-260 | one more minute is one more `advance` |
| Day24.WindStates | src/day24.rs:257-259 | the winds of one period, minute by minute from the input |
| Day24.AdvanceNAdd | src/day24.rs:258-260 | `a` minutes and then `b` more are `a + b` minutes |
| Day24.ScheduleRepeats | src/day24.rs:257-259 | the winds of minute `t` are the collected state at `t` modulo the period |
| Day24.PossibleMovementsMeaning | src/day24.rs:227-231 | the expedition moves at most one cell, horizontally or vertically, or stays |
| Day24.WalkPhase | src/day24.rs:245 | along a trip the wind index is the start index plus the minutes passed, modulo the number of states |
| Day24.Successor | src/day24.rs:245-247 | a candidate node is at a valid wind index |
| Day24.UniverseHas | src/day24.rs:241-252 | every candidate the search can reach is among finitely many nodes |
| Day24.UnreachedShrinks | src/day24.rs:241-252 | reaching a new node shrinks what is unreached |
| Day24.SearchStart | src/day24.rs:240 | the search with only the root reached keeps its invariant |
| Day24.Pop | src/day24.rs:241 | taking the front of the frontier starts its expansion |
| Day24.RelaxBlocked | src/day24.rs:248 | a candidate blocked by wind or wall keeps the invariant |
| Day24.RelaxKnown | src/day24.rs:249 | a free candidate already reached is close enough |
| Day24.RelaxNew | src/day24.rs:249 | a free candidate not reached joins the frontier one minute further with a recorded walk |
| Day24.RecordedGrows | src/day24.rs:249 | a new node's walk is the walk to the node expanded, one step longer |
| Day24.ClosedGrows | src/day24.rs:249 | reaching more nodes keeps the expanded ones closed |
| Day24.ExpandDone | src/day24.rs:247-251 | once every candidate is tried the node is closed like the rest |
| Day24.ReachAlong | src/day24.rs:241-252 | along a walk from the root, each node passed is reached within its distance |
| Day24.Found | src/day24.rs:242-244 | the front of the frontier at the destination has the length of a shortest trip |
| Day24.Exhausted | src/day24.rs:241-253 | the frontier running dry without the destination means there is no trip |
| Day24.CalcTrip | src/day24.rs:233-254 | the length of a shortest trip from the start to the end, or 0 when there is none |
| Day24.TryMoves | src/day24.rs:247-251 | the inner loop keeps the search invariant and reaches only nodes of the finite universe |
| Day24.TryMove | src/day24.rs:248-250 | one candidate: an edge of weight 1 when the place is free in the next wind state |
| Day24.ShortestUnique | src/day24.rs:233-254 | two shortest-trip lengths for the same trip agree |
| Day24.ScheduleShape | src/day24.rs:257-259 | the winds of one period are well formed and non-empty |
| Day24.Timed | src/day24.rs:245 | one node per place |
| Day24.TripDodges | src/day24.rs:233-254 | a trip on the collected states is a walk of single steps that is free of wind in the valley of each minute |
| Day24.DodgesTrip | src/day24.rs:233-254 | a walk of single steps free of wind in the valley of each minute is a trip on the collected states |
| Day24.DodgeStep | src/day24.rs:245-250 | one minute of a dodging walk is a move of the search |
| Day24.Part1 | src/day24.rs:256-266 | the length of a shortest trip from the entrance to the exit |
| Day24.JourneySnoc | src/day24.rs:273-278 | one more shortest leg after the others extends the journey |
| Day24.JourneyUnique | src/day24.rs:268-281 | the minutes of a journey are determined by its legs |
| Day24.Part2 | src/day24.rs:268-281 | the minutes of a journey there, back and there again, each leg a shortest trip starting when the previous leg ends |
| Day25.Digit | src/day25.rs:9-16 | a digit exactly for the five SNAFU characters, between -2 and 2 |
| Day25.DigitChar | src/day25.rs:28-35 | the character written for a digit reads back as that digit |
| Day25.DigitCharOf | src/day25.rs:9-16 | each SNAFU character is the one written for its digit |
| Day25.PositionalSnoc | src/day25.rs:5-19 | one more digit at the end multiplies the positional value by five and adds the digit |
| Day25.HornerIsPositional | src/day25.rs:5-19 | the digit-by-digit reading from the front is the positional value |
| Day25.ParseSnafu | src/day25.rs:5-19 | the value of the string; `None` exactly when a character is not a SNAFU digit, where the source panics |
| Day25.LowDigit | src/day25.rs:24-35 | a balanced digit congruent to the number modulo five |
| Day25.Snafu | src/day25.rs:21-42 | empty exactly for zero |
| Day25.SnafuRoundTrip | src/day25.rs:5-42 | reading a formatted number gives the number back |
| Day25.SnafuLeads | src/day25.rs:21-42 | a positive number's SNAFU string starts with `1` or `2` |
| Day25.ValueBounds | src/day25.rs:5-19 | a string of `k` digits has magnitude at most (5^k - 1)/2 |
| Day25.ValuePositive | src/day25.rs:5-19 | a string starting with `1` or `2` has a positive value |
| Day25.SnafuCanonical | src/day25.rs:5-42 | each string without a leading `0`, `-` or `=` is the format of its value, so formatting is the only such string for each number |
| Day25.SnafuStep | src/day25.rs:23-39 | the format of `5q + d` is the format of `q` followed by `d` |
| Day25.LowDigitOf | src/day25.rs:24-38 | the low digit and carried quotient of `5q + d` are `d` and `q` |
| Day25.FormatSnafu | src/day25.rs:21-42 | the carrying loop and the final reverse give the SNAFU string of the number |
| Day25.Part1 | src/day25.rs:44-47 | the sum of the numbers, formatted; the result reads back as the sum |

## Left out

### Whole files and shared conventions

- `src/main.rs`, the command-line driver that reads input files and prints
  answers: I/O only.
- `src/day12.rs` is not part of this model.
- The regular-expression generators are not modelled; their records are
  taken as inputs. They are in days 11, 15, 16, 19 and 21, the instruction
  list of day 22 and the command list of day 5. For day 5 the command
  format is read by hand, and proved to read back what `Display` prints.
- Day5.ParseCommand is stricter than the source's unanchored regular
  expression: it rejects a line with text before `move` or after the last
  number, which the source would still read.
- Bfs: the search's generic cost type (any `Add` + `PartialOrd` type) is
  modelled as `int`.
- The `Display` implementations that only draw pictures for debugging:
  - day 5's arrangement;
  - day 8's forest;
  - day 14's cave;
  - day 17's arena;
  - day 22's direction and state;
  - day 23's direction and state;
  - day 24's wind state, `print_with_elf_at` and `WindStateWithElf`.

  The `Display` of day 5's command and of day 21's monkey name are
  modelled.
- `usize`/`isize` overflow: integers are unbounded. `usize` subtraction
  that would underflow is excluded by a precondition where the source
  would panic.
- Iteration order of hash sets and maps: the model picks an arbitrary
  element (`:|`). This affects days 7, 18, 21 and 23 and `Bfs.HashMapBfs`'s
  `all_known`.
- `num::integer::lcm` is a foreign call. It is modelled by `Common.Lcm`
  and only proved to be a positive common multiple, not the least one.
- The library sorts (`sort`, `sort_by_key`, `sorted_by_key`) are modelled
  by a stable insertion sort with the same ordering. Their internals are
  not modelled.
- The library functions and iterators that are modelled by their effect
  rather than their internals are `select_nth_unstable` (day 11),
  `itertools` permutations (day 16), `minmax` and `multi_cartesian_product`
  (days 18 and 23).

### Per day

- Day1.Generator: the text is modelled as its lines already split;
  line splitting is not modelled.
- Day2.ShapeOf and Day2.ResultOf: the `panic!` on an unknown letter is
  modelled as `None`.
- Day3.Error and Day3.Badge: the `unwrap` panic is modelled as `None`.
- Day3.Priority takes `is_lowercase` as the parameter `isLower`: the Unicode
  case tables are not modelled. The letter scores are proved for any table
  that agrees with ASCII on ASCII (`Day3.AsciiCase`). The `usize`
  subtraction that underflows is the panic, modelled as `None`.
- Day4: the generator is not modelled. `part_1` and `part_2` are counts
  described by `Day4.Part1AtMostPart2` and the per-pair lemmas.
- Day6.Part1 and Day6.Part2 require the marker length to be at most the
  signal length (the `usize` underflow otherwise).
  - As in the source, the window that starts at `len - length` is never
    examined.
  - The generator's `trim` is not modelled.
- Day7.Generator: it works on lines already split into words.
- Day7.Part2 requires the listing to have a root directory, and the used
  size to be between 40,000,000 and 70,000,000: the unsigned
  subtractions would otherwise underflow.
- Day8 and Day9: the generators are not modelled.
- Day10: the generator is not modelled.
- Day11:
  - The generator is not modelled.
  - The 10,000 rounds of part 2 are modelled by the `Rounds` function
    that `Day11.Part2` runs. Nothing is proved about the concrete number
    10,000.
  - The model requires at least two monkeys, each throwing only to other
    monkeys. A monkey that throws to itself makes the source loop
    forever.
- Day11.Part1: the reduction modulo the least common multiple after
  dividing by three is only proved exact when the worry is not divided.
- Day13: the generator that splits the input into pairs is not modelled.
  - The sort is modelled by an insertion sort.
  - Day13.NumToList requires a number: the panic on a list is excluded.
- Day14: `continue_while` is modelled as `y < bound`.
  - A part that would loop for ever returns `None`.
  - The generator is not modelled.
- Day15:
  - The generator is not modelled.
  - `Day15.Part1` fixes row 2,000,000.
  - `Day15.FindOpening` requires a non-empty list of ranges. The source
    panics otherwise.
- Day15.Part2 requires some sensor to reach every allowed row. A row
  without ranges makes the source's `find_opening` panic.
- Day15.FindOpening: as in the source, an opening found in the middle gap
  of a row is not checked against the allowed interval.
- Day16:
  - The route table is a nested sequence instead of the source's flat
    `s * n + t` vector.
  - `usize` underflow is not modelled.
  - Day16.Part1 and Day16.Part2 require every relevant valve to be
    reachable (the subtraction `route.len() - 1` otherwise underflows).
- Day17: the cycle detection of `solve_for`, and with it `part_1` and
  `part_2`, is not modelled; `Day17.State.DropOne` models one brick of
  its loop.
  - Day17.State.DropOne requires at least seven columns, the source's
    width.
  - `row()` and the `fake_row` debugging helper are not modelled.
- Day18:
  - The generator is not modelled.
  - The flood fill's lazy iterator is modelled as the sequence it yields
    once drained.
- Day19:
  - The generator is not modelled.
  - Day19.BestIsMost is about the plans the search itself considers:
    building each chosen robot as soon as it is affordable. It is not
    about every schedule.
- Day20:
  - The generator is not modelled.
  - Day20.MixIndices requires every index of the list to be present and
    the list to be at least as long as the number of numbers.
  - Day20.ExtractAnswerRotation assumes the list has a single zero, as
    the puzzle's lists do.
- Day21:
  - Panics that depend on computed values return `None`: a division by
    zero, root unresolved, and the asserts, `unwrap`s and `panic!` of
    `part_2`.
  - Day21.Part1 and Day21.Part2 require that every operand names a
    listed monkey. This is stronger than the source, which looks up only
    the monkeys reached from root.
  - Completeness of `get_concrete_numbers_ignoring` is not proved, only
    that every number it finds is right.
  - Acyclicity is a ghost ranking.
- Day21.Part2 ensures the answer balances root only when every backward
  step was exact. The ghost flag saying so is tied to the ghost record of
  the rounds. A product or quotient that does not divide evenly makes the
  source's answer approximate, and then the balance is not claimed.
- Day22:
  - part 2 is a stub that returns 0.
  - Day22.Part1 requires a board whose columns have no gaps, as the
    puzzle's boards do. On a gap a vertical step makes the source's
    `unwrap` panic.
- Day23:
  - The generator is not modelled.
  - `part_2`'s unbounded loop is bounded by a parameter.
  - Day23.Part2 returns `None` when the bound runs out.
  - Day23.State.CalcEmptyGround does not prove that the box area is at
    least the number of elves (the `usize` subtraction).
- Day24:
  - The generator is not modelled.
  - `with_elf_at` is unused in the source and not modelled.
  - The `Wall` panic inside the valley is excluded by the `WellFormed`
    precondition.
- Day24.CalcTrip requires at least one wind state. The source needs one
  only when the start is not the end.
- Day24.Part1 and Day24.Part2 require a valley of positive width and
  height.
- Day25:
  - The generator is not modelled.
  - part 2 returns 0.
- Day25.FormatSnafu takes a natural number. On a negative number the
  source's loop always reaches its `panic!` arm.
- Day25.Part1 requires valid digits and a non-negative total.
