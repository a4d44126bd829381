# Advent of Code 2025 solvers: the verified cores

A model, in Dafny, of the integer algorithms inside eight of the daily
puzzle solvers of `aoc2025`. Every solver in the repository parses its
input with `nom`, computes a number and formats a string. The model starts
from already-parsed data (instructions, digit grids, points, tiles, masks,
rows) and keeps the imperative shape of the source: loops that update
accumulators become `method`s with loop invariants, and the union-find
structure of day 8 is a class over two arrays. Each method is proved
against a specification function or predicate, and the properties the
puzzles rely on are proved as lemmas about those specifications.

| file | module | puzzle core |
|---|---|---|
| `day01.dfy` | `Day01` | a dial 0..99 starting at 50: landings on 0 (part 1), passes through 0 (part 2, closed form) |
| `day03.dfy` | `Day03` | largest two-digit and twelve-digit order-preserving subsequences of digit lines |
| `day04.dfy` | `Day04` | bounded eight-neighbourhood and the count of rolls with fewer than four roll neighbours |
| `day06.dfy` | `Day06` | regrouping number rows into operator-labelled columns, and the grand total |
| `day07.dfy` | `Day07` | the manifold scanner: height, width, start cell and splitter set |
| `day08.dfy` | `Day08` | union-find with path compression and union by size; clustering of the closest pairs |
| `day09.dfy` | `Day09` | rectangles between tiles, corners and edges of the tile loop, the two max-area searches |
| `day10.dfy` | `Day10` | bitmask encoders and the in-place subset-XOR table |
| `sorting.dfy` | `Sorting` | an insertion sort standing in for `sort_unstable_by_key` |
| `sums.dfy` | `Sums` | `Sum` and `Product` of a list, shared by days 3, 6 and 8 |

Day 8's `UnionFind` keeps the source's `parent` and `size` arrays and three
ghost fields: `root` (each element's representative), `rank` (strictly
increasing along parent links, so `Find` terminates) and `maxRank`. The two
drivers are proved against `Labels`, a quick-find reference partition built
by relabelling, related to the forest by "same classes". Day 10's table is
proved entry by entry against the recurrence `Best`, and `Best` is proved
to be the least number of groups, each used at most once, whose XOR is the
entry's mask.

## Model

| member | source | states |
|---|---|---|
| `Sorting.SortBy` | src/days/day08.rs:49 | the result is sorted by the key and is a permutation of the input |
| `Day08.Dist2` | src/days/day08.rs:16-21 | the squared distance is zero exactly when the two points are equal |
| `Day08.Dist2Symmetric` | src/days/day08.rs:16-21 | the squared distance does not depend on the order of the points |
| `Day08.InitialForest` | src/days/day08.rs:103-108 | n singletons form a valid forest with sizes one and roots {0..n-1} |
| `Day08.UnionFind.constructor` | src/days/day08.rs:103-108 | every element is its own parent with size one, so there are n sets |
| `Day08.UnionFind.Find` | src/days/day08.rs:110-115 | returns the representative, a root; `x` then points at it directly; the partition, the roots and the sizes are unchanged, so a second call gives the same answer |
| `Day08.CompressKeepsForest` | src/days/day08.rs:112 | re-pointing a node at its representative keeps acyclicity, the size bookkeeping and the set of roots |
| `Day08.UnionFind.Union` | src/days/day08.rs:117-134 | returns true exactly when `x` and `y` were in different sets; afterwards they share a set; the smaller set's root goes under the other, `y`'s under `x`'s on a tie; the surviving root's size is the sum; sets holding neither are unchanged; the number of roots drops by one exactly on a merge |
| `Day08.UnionFind.Link` | src/days/day08.rs:123-129 | hanging one root under another relabels its whole set, adds the sizes and removes it from the roots |
| `Day08.LinkKeepsForest` | src/days/day08.rs:123-129 | the link keeps the forest acyclic and every root's size equal to its set's size |
| `Day08.UnionFind.CollectRoots` | src/days/day08.rs:136-140 | finding every element yields exactly the set of roots |
| `Day08.UnionFind.ComponentSizes` | src/days/day08.rs:136-142 | one entry per distinct root, each the size of that root's set, and the sizes add up to n |
| `Day08.SumPermutation` | src/days/day08.rs:141 | a sum does not depend on the (hash-set) order of its terms |
| `Day08.AllPairs` | src/days/day08.rs:42-48 | every pair `i < j` occurs exactly once with its squared distance, n(n-1)/2 pairs in all |
| `Day08.PermutedPairs` | src/days/day08.rs:49 | reordering the pair list keeps every pair exactly once |
| `Day08.SortedPairs` | src/days/day08.rs:42-49 | the pair list is complete, duplicate-free and ordered by non-decreasing distance |
| `Day08.JoinClasses` | src/days/day08.rs:117-134 | after joining `i` and `j` two elements are together exactly when they were, or each was with `i` or `j` |
| `Day08.JoinCount` | src/days/day08.rs:78-82 | a join removes one class when the elements were apart and none otherwise |
| `Day08.UnionMatchesJoin` | src/days/day08.rs:117-134 | what `Union` does to the representatives is the reference join |
| `Day08.UnionStep` | src/days/day08.rs:51-53 | one more union keeps the forest's classes those of the reference after one more pair |
| `Day08.ForestCount` | src/days/day08.rs:76-82 | the number of roots is the number of classes of the reference partition |
| `Day08.RootSizesAreClassSizes` | src/days/day08.rs:136-142 | sizes read off distinct roots are the sizes of distinct reference classes |
| `Day08.LabelsJoinPair` | src/days/day08.rs:77-78 | every joined pair ends up, and stays, in one class |
| `Day08.AllPairsConnect` | src/days/day08.rs:76-93 | joining every pair puts all points in one class |
| `Day08.JoinPair` | src/days/day08.rs:51-53 | a union keeps the forest equal to the reference partition and loses a root exactly when it merged |
| `Day08.JoinFirst` | src/days/day08.rs:51-53 | unioning the first `count` pairs of the list leaves the forest with exactly the classes of the reference after those pairs |
| `Day08.Report` | src/days/day08.rs:55-57 | from a forest with the classes of the joined pairs: one size per class, largest first, adding up to n, and the product of the three largest |
| `Day08.DescribeSorted` | src/days/day08.rs:55-57 | sorting the per-class sizes largest first keeps their sum, so the sorted list describes the clusters |
| `Day08.SizesOfRoots` | src/days/day08.rs:136-142 | one size per given root, each once, each the recorded size of that root, summing to those sizes' total |
| `Day08.Part1` | src/days/day08.rs:37-60 | no result exactly when there are fewer than 1000 pairs; otherwise the sizes of the classes after joining the 1000 closest pairs, largest first, adding up to n, and the product of the three largest |
| `Day08.MergeUntilOne` | src/days/day08.rs:76-93 | stops at the first prefix of the pair list that leaves one class, or reports that none does |
| `Day08.Part2` | src/days/day08.rs:62-94 | connects exactly when there are two or more points; the reported pair is the one whose join first leaves one class, with the product of the x coordinates |
| `Day09.FromTiles` | src/days/day09.rs:33-40 | the rectangle covers both tiles, is non-empty, and spans one more than the coordinate differences |
| `Day09.FromTilesSymmetric` | src/days/day09.rs:33-40 | the rectangle does not depend on the order of the tiles |
| `Day09.TileArea` | src/days/day09.rs:42-44 | the area is (abs dx + 1)(abs dy + 1) and positive |
| `Day09.DirectionOf` | src/days/day09.rs:96-117 | West/East by the sign of dx, North/South by the sign of dy, for tiles differing in exactly one coordinate |
| `Day09.DirectionReversed` | src/days/day09.rs:96-117 | going back gives the opposite direction |
| `Day09.GetCorner` | src/days/day09.rs:120-139 | for a quarter turn, the corner is on the tile's right side exactly when a leg goes South and on its lower side exactly when a leg goes West |
| `Day09.CornerSymmetric` | src/days/day09.rs:120-139 | the corner does not depend on the direction of traversal |
| `Day09.ComputeCorners` | src/days/day09.rs:142-158 | one corner per tile, from the cyclic legs before and after it |
| `Day09.LegsAlternate` | src/days/day09.rs:142-158 | along the loop the legs alternate between horizontal and vertical |
| `Day09.LoopIsEven` | src/days/day09.rs:161-171 | a loop with a turn at every tile has an even number of tiles, so the edge split loses nothing |
| `Day09.CornersAligned` | src/days/day09.rs:142-158 | consecutive corners lie on one grid line, oriented like the leg between their tiles |
| `Day09.ExtractEdges` | src/days/day09.rs:161-185 | n/2 edges `(c[2i], c[2i+1])` and n/2 edges `(c[2i], c[2i-1 mod n])` |
| `Day09.EdgesCoverBoundary` | src/days/day09.rs:161-185 | every leg of the corner cycle is one of the extracted edges |
| `Day09.EdgesAxisAligned` | src/days/day09.rs:162-182 | when the first leg is vertical, the "vertical" edges are vertical and the "horizontal" ones horizontal |
| `Day09.TouchVertical` | src/days/day09.rs:188-204 | true exactly when the edge's line is strictly inside the rectangle and the open spans share a point |
| `Day09.TouchHorizontal` | src/days/day09.rs:207-223 | the same with the axes exchanged |
| `Day09.TouchIgnoresOrder` | src/days/day09.rs:188-223 | the tests do not depend on the order of the edge's ends |
| `Day09.AnyTouchVertical` | src/days/day09.rs:237 | true exactly when some vertical edge crosses the rectangle |
| `Day09.AnyTouchHorizontal` | src/days/day09.rs:238 | true exactly when some horizontal edge crosses the rectangle |
| `Day09.SolvePart1` | src/days/day09.rs:80-91 | the largest area over pairs `i < j`, positive exactly when there are two tiles |
| `Day09.SolvePart2` | src/days/day09.rs:226-247 | the largest area over pairs whose rectangle no edge crosses, or 0 |
| `Day09.ClearAtMostAll` | src/days/day09.rs:226-247 | the second answer never exceeds the first |
| `Day10.GroupToBitmask` | src/days/day10.rs:3-5 | bit k is set exactly when k is in the group |
| `Day10.PatternToBitmask` | src/days/day10.rs:6-14 | bit i is set exactly when light i is on; any length is accepted as long as no light from 16 on is lit, since only lit lights are shifted |
| `Day10.GroupBound` | src/days/day10.rs:3-5 | a group of lights below k gives a mask below 2^k |
| `Day10.PatternBound` | src/days/day10.rs:6-14 | a pattern of k lights gives a mask below 2^k |
| `Day10.XorIdxInvolution` | src/days/day10.rs:31 | applying the same group twice returns to the start index |
| `Day10.InPlaceStep` | src/days/day10.rs:30-35 | the in-place update reads the same value as an update from the previous table |
| `Day10.Round` | src/days/day10.rs:30-35 | one in-place round leaves every entry as the recurrence's next table |
| `Day10.RoundIsNextTable` | src/days/day10.rs:29-36 | the next table of the recurrence is the table for one more group |
| `Day10.BestZero` | src/days/day10.rs:26-27 | the entry for the empty mask stays 0 |
| `Day10.BestDecreases` | src/days/day10.rs:33 | no entry ever increases as groups are added |
| `Day10.BestWitness` | src/days/day10.rs:23-39 | a finite entry is achieved by a selection of exactly that many groups |
| `Day10.BestOptimal` | src/days/day10.rs:23-39 | no selection reaches a mask with fewer groups than its entry |
| `Day10.BestIsLeast` | src/days/day10.rs:23-39 | every entry is a lower bound for the selections reaching its mask, and at most the number of groups when finite |
| `Day10.MinReprPattern` | src/days/day10.rs:25-39 | the table's answer for the pattern is the recurrence's entry |
| `Day10.GroupMasks` | src/days/day10.rs:48 | one mask per group, each the group's bitmask |
| `Day10.GroupMasksFit` | src/days/day10.rs:31 | groups of lights below ten give masks inside the table |
| `Day10.FitsInTable` | src/days/day10.rs:26-33 | a device with ten lights or fewer indexes the table in range |
| `Day10.LitIsBit` | src/days/day10.rs:3-5 | the lights toggled by a selection are the bits of the XOR of its masks |
| `Day10.SolvesIffXor` | src/days/day10.rs:23-24 | a selection lights exactly the pattern when its XOR is the pattern's mask |
| `Day10.MinPressesIsLeast` | src/days/day10.rs:23-39 | the answer is the least number of groups pressed once that light exactly the pattern; `u16::MAX` means none does |
| `Day10.Part1` | src/days/day10.rs:44-53 | the total of the least presses over all devices |
| `Day01.Rem` | src/days/day01.rs:65 | the truncating remainder lies in (-100, 100), has the sign of the argument and is congruent to it |
| `Day01.RemStep` | src/days/day01.rs:65-68 | the reduced position stays congruent to the true one and is 0 exactly on a multiple of 100 |
| `Day01.Part1` | src/days/day01.rs:56-71 | the number of instructions after which the dial points at 0 |
| `Day01.RightClicks` | src/days/day01.rs:86-92 | `(x + d) / 100` is the number of right clicks from x that reach 0 |
| `Day01.LeftMirror` | src/days/day01.rs:93-100 | clicks to the left from x mirror clicks to the right from -x |
| `Day01.ClicksShift` | src/days/day01.rs:102 | counting clicks depends on the start only modulo 100 |
| `Day01.LeftClicks` | src/days/day01.rs:93-100 | `(d + from_zero) / 100` is the number of left clicks from x that reach 0 |
| `Day01.Part2` | src/days/day01.rs:73-105 | the number of clicks, over all instructions, that leave the dial at 0 |
| `Day01.LandingsAtMostPasses` | src/days/day01.rs:56-105 | when every instruction moves the dial, part one never exceeds part two |
| `Day03.MaxPair` | src/days/day03.rs:30-39 | the value is `10 d[i] + d[j]` for some `i < j`, and no such pair is larger |
| `Day03.Part1` | src/days/day03.rs:26-47 | the total of the largest two-digit pair of every line |
| `Day03.MaxPairUnique` | src/days/day03.rs:26-47 | a line has only one largest pair value, so the total is determined by the lines |
| `Day03.Displace` | src/days/day03.rs:57-70 | the new digit goes in front and the digit at the first ascent (or the last) drops out |
| `Day03.DisplaceKeepsPick` | src/days/day03.rs:57-70 | the displaced digits are still an in-order choice from the line |
| `Day03.ReadDecimal` | src/days/day03.rs:72-78 | the accumulator is the decimal reading of the digits |
| `Day03.DecimalBound` | src/days/day03.rs:72-78 | k digits read below 10^k |
| `Day03.DropAt` | src/days/day03.rs:63-69 | dropping at the first ascent is the step the displacement loop performs |
| `Day03.DropAtLeastTail` | src/days/day03.rs:58-61 | dropping one digit is never worse than dropping the first |
| `Day03.GreedyDrop` | src/days/day03.rs:56-71 | keeping one digit fewer is one more drop |
| `Day03.GreedyGrows` | src/days/day03.rs:56-71 | one more digit to scan never lowers the greedy value |
| `Day03.GreedyOptimal` | src/days/day03.rs:55-71 | no in-order choice of k digits reads larger than the greedy one |
| `Day03.Keep12` | src/days/day03.rs:55-71 | the twelve digits kept are an in-order choice and the largest such |
| `Day03.Part2` | src/days/day03.rs:49-85 | the total of the largest twelve-digit subsequence of every line |
| `Day03.LargestUnique` | src/days/day03.rs:49-85 | any two largest twelve-digit choices read the same number, so the total is determined by the lines |
| `Day04.DirectionsAdjacent` | src/days/day04.rs:86-95 | every offset is a non-zero step of at most one |
| `Day04.DirectionsDistinct` | src/days/day04.rs:86-95 | the eight offsets are distinct |
| `Day04.DirectionsComplete` | src/days/day04.rs:86-95 | every adjacent offset is among them |
| `Day04.ShiftInjective` | src/days/day04.rs:97-99 | different offsets lead to different cells |
| `Day04.ScanDirections` | src/days/day04.rs:97-104 | keeps exactly the in-bounds shifted cells, each once; cell `a` comes from offset `from[a]`, and the offsets increase, so the cells come in direction order |
| `Day04.Neighbors` | src/days/day04.rs:81-107 | exactly the in-bounds cells around the given one, without duplicates, at most 8, and 8 away from the border |
| `Day04.RollCount` | src/days/day04.rs:59-62 | at most the number of cells counted |
| `Day04.RollCountIsCard` | src/days/day04.rs:59-62 | over distinct cells the count is the number of rolls among them |
| `Day04.NeighbourRolls` | src/days/day04.rs:59-62 | the count is the number of rolls around the cell |
| `Day04.Part1` | src/days/day04.rs:48-71 | the number of rolls with fewer than four roll neighbours |
| `Day04.AccessibleAtMostRolls` | src/days/day04.rs:63 | the accessible rolls are rolls, so the count is at most the number of rolls |
| `Day06.NonBlank` | src/days/day06.rs:82 | only non-blank lines of the input, at most as many |
| `Day06.NonBlankAppend` | src/days/day06.rs:82 | the filter works line by line |
| `Day06.BlankIgnored` | src/days/day06.rs:82 | a blank line anywhere makes no difference |
| `Day06.ColumnOfFull` | src/days/day06.rs:98-104 | when every row is long enough, column k holds the k-th number of each row |
| `Day06.ColumnOfShort` | src/days/day06.rs:101 | a row too short for column k contributes nothing to it |
| `Day06.GroupColumns` | src/days/day06.rs:95-109 | one column per operator, labelled by it, holding the k-th numbers of the rows that have one |
| `Day06.ParseInput` | src/days/day06.rs:81-112 | fails exactly when the non-blank lines are not number rows ended by an operator row, with no lines as its own failure; otherwise the columns |
| `Day06.Part1` | src/days/day06.rs:28-35 | the sum over columns of their sum or product |
| `Day06.GrandTotalAppend` | src/days/day06.rs:28-35 | the total of two worksheets side by side is the sum of theirs |
| `Day06.SampleTotal` | src/days/day06.rs:148-153 | the worked example totals 4277556 |
| `Day07.NonEmpty` | src/days/day07.rs:19 | only non-empty lines, at most as many |
| `Day07.ScanLine` | src/days/day07.rs:27-35 | scanning one more line keeps the last `S` and adds that line's splitters |
| `Day07.ParseInput` | src/days/day07.rs:18-44 | height is the number of non-empty lines, width the first one's length; the splitters are exactly the `^` cells; the start is the last `S`, or the origin |
| `Day07.SplittersInGrid` | src/days/day07.rs:26-33 | every splitter lies on a counted row and holds `^` |
| `Day07.CaretIsSplitter` | src/days/day07.rs:30-32 | every `^` cell is a splitter |
| `Day07.StartIsLastS` | src/days/day07.rs:23-29 | with at least one `S`, the start holds `S` and no `S` comes after it |

## Left out

- Reading the input file, the command line, the day dispatch and every `format!` string (`main.rs`, `days/mod.rs`): only the numeric results are modelled.
- The `nom` text parsers of every day. Instructions, points, tiles, digit lines, grids, devices and the rows of day 6 are given as data.
- `day02.rs`, `day05.rs`, `day11.rs`, `day12.rs`, and the second parts of days 4, 6, 7 and 10: they parse and report, with no algorithm to model.
- Day06.ParseInput: each line arrives as what the row parsers make of it (`Numbers`, `Operators`, `Blank` or `Other`). Two things are not modelled: input a parser leaves unconsumed at the end of a line, and a line that both parsers would accept.
- Fixed-width integers: these are unbounded integers in the model, and their overflow is not modelled:
  - `dist2` in `i64` and `p1.x * p2.x` in `u64` (day 8);
  - the `u32`/`u64` totals of days 3, 6 and 10, and the `usize` counters;
  - day 1's `i32` counter `zeros` (`src/days/day01.rs:59`, `:76`, `:90`, `:98`), which part two can push past `i32::MAX` even when every distance is within `MaxDistance`;
  - day 9's `i64` coordinates, the `+ 1` of `Rect::from_tiles`, the coordinate differences and products of `area`, and the maxima of both parts (`src/days/day09.rs:13-43`, `:80`, `:226`).
- Day01.Part1: requires every distance to be at most `MaxDistance`. The source's `i32` arithmetic on the position `x` stays in range under that bound, and its overflow behaviour above it is not modelled. The counter `zeros` is not bounded by it; see the fixed-width line above.
- Day01.Part2: requires the same distance bound as part one. That bound keeps the position `x` in range. It does not keep the `i32` counter `zeros` in range: about a hundred moves of `MaxDistance` already exceed `i32::MAX`, and the model counts on unbounded integers.
- Day10.Part1: requires every device to fit the 1024-entry table: lights below ten in every group and at most ten pattern positions. The source only fails when a set bit lies outside the table, so a pattern longer than ten whose extra lights are off is excluded here.
- Day10.GroupToBitmask: `1 << n` on a `u16` panics in a debug build when a light `n` is 16 or more (`src/days/day10.rs:4`). The model requires every light below 16. A release build would instead shift by `n` modulo 16, which is not modelled.
- Day10.PatternToBitmask: likewise, a lit light at index 16 or more makes `1 << i` panic in a debug build (`src/days/day10.rs:9`). The model requires every light from index 16 on to be off; unlit lights at any index are accepted, as in the source.
- Day10.MinReprPattern: `dp[p] + 1` is taken on unbounded integers. It cannot exceed `u16::MAX`, because only entries below `u16::MAX` are incremented, so the model's table matches the source's `u16` table.
- Day08.Part1: the panic of `&dists[..1000]` with fewer than 1000 pairs is the `None` result.
- Day08.Part1 and Day08.Part2: with no points, `n * (n - 1) / 2` underflows in the source (`src/days/day08.rs:42` and `:67`). Both have a `requires` of at least one point.
- Day08.Part1: the order of equal sizes after the sort, and which pairs are chosen among equal distances, are not fixed by the contract. It states the result for the order the sort produced (`order`).
- Day08.UnionFind.ComponentSizes: the `HashSet` iteration order is not modelled. The sizes come out in some order and are specified as one entry per root.
- Sorting.SortBy: Rust's in-place `sort_unstable_by_key` is modelled as a sort on sequences that returns a new sequence. In-place update is not captured.
- The test at `src/days/day08.rs:199-204` expects an output that neither the format at line 59 nor the 190 pairs of its input (fewer than 1000) can produce. It is not used as a specification.
- The sample answers of day 3 (357 and 3121910778619), day 4 (13 and 71), day 9 (50 and 24) and day 10 (7) are not proved. Only day 6's sample total is proved.
- Day03.Part1 and Day03.Part2: the source panics on lines shorter than two digits (part one), or not of the first line's length of at least twelve (part two). These are `requires`.
- Day04.Part1: requires a rectangular grid. The source reads the width from the first row; rows longer than it are only partly scanned, and shorter ones panic.
- Day07.ParseInput: lines are sequences of characters and the width is their length. The source's `len()` counts bytes, which agrees for ASCII input.
- Day09.SolvePart2: the edges are only taken to be vertical and horizontal when the first leg of the loop is vertical (`EdgesAxisAligned`). Otherwise the contract still describes the source's tests on the edges as extracted.
- Day09.DirectionOf and Day09.GetCorner: the panics for tiles that are not aligned and for straight or reversing turns are `requires`. Those preconditions make up `ValidLoop`.
