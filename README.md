# Advent of Code 2024, days 1 to 6: a Dafny model

This project models the shared grid engine of the Go solutions and the
solvers of the first six puzzles:

- `Common` holds the error kind, the result wrappers and the
  `Part1`/`Part2` selector that every solver receives.
- `Geometry` holds positions, dimensions, the nine directions (the eight
  compass points plus `Unspecified`), bounds checks, turning, the
  neighbour map of a cell and the row-major order of the grid's cells.
- `Fetcher` holds the in-place removal of empty input lines (`Trim`) and its
  specification `NonEmpty`.
- `Board` holds the generic board class:
  - a fixed rectangular grid, kept as an `array2`;
  - a cursor position;
  - a visit counter per position and a path counter per (position,
    direction) pose;
  - an override layer that masks grid cells without writing them.

  Beside the class are `RemoveEmpty` and the parser `ParseRune`. `View` turns
  the board's contents into a value: a map from each on-grid position to its
  letter. The puzzle rules are stated over that value.
- `Day1` to `Day6` hold one module per puzzle:
  - Day 1: list distance and similarity;
  - Day 2: safe reports, with an optional tolerance of one removal;
  - Day 3: `mul`, `do()` and `don't()` instructions;
  - Day 4: XMAS word search and X-MAS crosses;
  - Day 5: page-ordering rules, with repair by swaps;
  - Day 6: the guard walk and the count of loop-making obstructions.

Every solver method is proved to return a specification function of its
inputs. Lemmas then prove what that function means: a count equals the size
of a set defined by the puzzle's rule, a repair ends in an ordered
permutation, a walk loops exactly when the guard never leaves the grid.

## Model

| member | source | states |
|---|---|---|
| Geometry.CheckPos | internal/common/board.go:258-269 | a position is on the grid exactly when `0 <= x < m` and `0 <= y < n` |
| Geometry.InBounds | internal/common/board.go:258-269 | the set holds exactly the positions `CheckPos` accepts |
| Geometry.TurnRight | internal/common/board.go:271-285 | a cardinal direction moves one step clockwise (Up, Right, Down, Left); any other direction gives `Unspecified` |
| Geometry.TurnLeft | internal/common/board.go:287-301 | a cardinal direction moves one step anticlockwise; any other direction gives `Unspecified` |
| Geometry.TurnLeftInvertsTurnRight | internal/common/board.go:271-301 | on cardinal directions the two turns undo each other |
| Geometry.TurnRightPeriodFour | internal/common/board.go:271-285 | four right turns give the starting direction, and no fewer do |
| Geometry.Offsets | internal/common/board.go:238-245 | the offset table has one entry per compass direction, each the unit step that way |
| Geometry.GetNeighbours | internal/common/board.go:234-255 | the result maps exactly the compass directions whose step stays on the grid, each to that on-grid position |
| Geometry.NeighboursExt | internal/common/board.go:234-255 | any map with those keys and values is the neighbour map, which pins `GetNeighbours`' result down uniquely |
| Geometry.NeighboursOfTinyGrid | internal/common/board.go:234-255 | an empty grid, or a 1x1 grid seen from its one cell, has no neighbours |
| Geometry.NeighbourKeys | internal/common/board.go:234-255 | from an on-grid cell, the neighbour keys are the compass directions whose step is on the grid |
| Geometry.CornerNeighbours | internal/common/board.go:234-255 | a corner of a grid at least 2x2 has 3 neighbours |
| Geometry.RowEdgeNeighbours | internal/common/board.go:234-255 | a cell on the top or bottom edge, away from the corners, has 5 neighbours |
| Geometry.ColumnEdgeNeighbours | internal/common/board.go:234-255 | a cell on the left or right edge, away from the corners, has 5 neighbours |
| Geometry.InteriorNeighbours | internal/common/board.go:234-255 | an interior cell has all 8 neighbours |
| Geometry.NeighbourCount | internal/common/board.go:234-255 | the neighbour count of any on-grid cell is 3, 5 or 8 by its place on the border |
| Geometry.RowFacts | internal/common/board.go:139-154 | row `y` up to column `k` holds exactly the cells `(x, y)` with `0 <= x < k`, in increasing order |
| Geometry.RowMajorAppend | internal/common/board.go:139-154 | two row-major runs, the first wholly before the second, concatenate to a row-major run |
| Geometry.CellsUpToMembers | internal/common/board.go:139-154 | the scan of the first `rows` rows holds exactly the cells of those rows |
| Geometry.CellsUpToSize | internal/common/board.go:139-154 | that scan has `rows * m` cells |
| Geometry.CellsUpToOrder | internal/common/board.go:139-154 | that scan is in row-major order |
| Geometry.CellsAreTheGrid | internal/common/board.go:139-154 | the full scan holds each on-grid cell once, in row-major order, `n * m` cells in all |
| Geometry.RowMajorDistinct | internal/common/board.go:139-154 | a row-major sequence has no repeated cell |
| Geometry.SetOfSeqSize | internal/common/board.go:156-165 | a sequence has at least as many entries as its set of values |
| Geometry.InBoundsSetSize | internal/common/board.go:156-165 | a set of on-grid cells has at most `n * m` members |
| Geometry.RowPrefix | internal/common/board.go:139-154 | a shorter part of a row is a prefix of a longer one |
| Geometry.ScanPrefix | internal/common/board.go:139-154 | a scan stopped partway through row `y` is a prefix of the full scan |
| Geometry.ScanStart | internal/common/board.go:139-154 | a row begins with nothing scanned in it |
| Geometry.ScanNext | internal/common/board.go:139-154 | scanning one more column appends exactly that cell |
| Geometry.ScanRowDone | internal/common/board.go:139-154 | finishing row `y` gives the scan of `y + 1` rows |
| Geometry.CountIf | internal/day4/utils.go:16-34 | a count over cells never exceeds the number of cells |
| Geometry.CountIfSnoc | internal/day4/utils.go:16-34 | one more cell adds one to the count exactly when it qualifies |
| Geometry.SatisfyingSnoc | internal/day4/utils.go:16-34 | one more cell joins the set of qualifying cells exactly when it qualifies |
| Geometry.CountIfIsSetSize | internal/day4/utils.go:16-34 | over a row-major scan, the count equals the size of the set of qualifying cells |
| Fetcher.NonEmptySnoc | internal/common/fetcher.go:112-124 | one more line extends the filtered list by that line exactly when it is non-empty |
| Fetcher.NonEmptyAppend | internal/common/fetcher.go:112-124 | filtering distributes over concatenation, so relative order is kept |
| Fetcher.NonEmptyFacts | internal/common/fetcher.go:112-124 | the result has no empty line, holds exactly the non-empty lines of the input, and its length is the input length minus the number of empty lines |
| Fetcher.NonEmptyIdentity | internal/common/fetcher.go:112-124 | a list without empty lines is returned unchanged |
| Fetcher.Trim | internal/common/fetcher.go:112-124 | the array's first `k` slots become the non-empty lines in order, and the slots from `k` on are untouched |
| Board.UnvisitedSnoc | internal/common/board.go:139-154 | one more scanned cell is appended to the unvisited list exactly when it has no visit |
| Board.UnvisitedScanStep | internal/common/board.go:139-154 | one step of the nested scan loop extends the unvisited list by that cell when it has no visit |
| Board.UnvisitedMembers | internal/common/board.go:139-154 | the unvisited list holds exactly the scanned cells without a visit |
| Board.UnvisitedRowMajor | internal/common/board.go:139-154 | the unvisited list keeps row-major order |
| Board.UnvisitedNone | internal/common/board.go:139-154 | with no visits, every scanned cell is unvisited |
| Board.UnvisitedSuffix | internal/common/board.go:139-154 | when exactly the first `k` scanned cells are visited, the unvisited list is the rest of the scan |
| Board.Board.constructor | internal/common/board.go:40-46 | a new board starts at (0, 0) with no visits, no paths and no overrides |
| Board.Board.GetDimension | internal/common/board.go:167-174 | the dimension is non-negative, and `CheckPos` under it accepts exactly the indices of the grid |
| Board.Board.Get | internal/common/board.go:48-63 | an off-grid position gives `OutOfBounds`; an on-grid one gives its override when it has one, else the grid cell |
| Board.Board.ViewWith | internal/common/board.go:48-63 | the view under an override layer holds exactly the on-grid positions, each mapped to what `Get` would return under that layer |
| Board.Board.View | internal/common/board.go:48-63 | `Get` is the current view: `Ok` of its value on the grid, `OutOfBounds` elsewhere |
| Board.Board.ViewWithOne | internal/day6/utils.go:37-55 | overriding one on-grid cell changes the view at that cell only |
| Board.Board.Set | internal/common/board.go:65-76 | an on-grid write succeeds, stores the value and leaves every other cell as it was; an off-grid write fails with `OutOfBounds` |
| Board.Board.GetVisits | internal/common/board.go:121-123 | the count is zero exactly when the position has no entry |
| Board.Board.GetPaths | internal/common/board.go:129-131 | the count is zero exactly when the pose has no entry |
| Board.Board.Visit | internal/common/board.go:78-96 | an on-grid visit adds one to that position's count, adds no other key and moves the cursor there; an off-grid visit fails and changes nothing |
| Board.Board.VisitPath | internal/common/board.go:101-119 | an on-grid pose adds one to its path count and to its position's visit count, and moves the cursor; an off-grid pose fails and changes nothing |
| Board.Board.ResetVisits | internal/common/board.go:125-127 | afterwards every position has zero visits |
| Board.Board.ResetPaths | internal/common/board.go:133-135 | afterwards every pose has zero paths |
| Board.Board.GetUnvisited | internal/common/board.go:139-154 | the result holds exactly the on-grid cells without a visit, in row-major order; on a fresh board it is the whole grid |
| Board.Board.GetVisited | internal/common/board.go:156-165 | the result holds exactly the positions with a positive count, and there are at most `n * m` of them |
| Board.Board.WithOverrides | internal/common/board.go:198-201 | the override layer is replaced, and `Get` then reads through the new layer |
| Board.RemoveEmpty | internal/common/board.go:184-196 | the result is the input's non-empty lines, in order |
| Board.TextView | internal/common/board.go:205-230 | the value of a board parsed from equal-length lines: its keys are exactly the on-grid positions, and position `(x, y)` holds character `x` of line `y` |
| Board.TrailingEmptyLines | internal/common/board.go:205-230 | when empty lines only trail, line `i` is non-empty exactly when `i` is below the count of non-empty lines, so the non-empty lines are a prefix of the input |
| Board.ParseShape | internal/common/board.go:205-230 | the grid has one row per non-empty line and all those rows have the first line's width |
| Board.CopyLine | internal/common/board.go:220-223 | row `i` of the grid becomes the line's characters, and every other row is untouched |
| Board.ParseRune | internal/common/board.go:205-230 | the new board starts at (0, 0) with empty counters; it has one row per non-empty line, cell `(x, y)` reads character `x` of line `y` (the Go code's byte offset `x` on ASCII lines), and its view is `TextView` of the non-empty lines |
| Board.ViewOfLines | internal/common/board.go:214-223 | a board whose every cell reads the matching character of equal-length lines has the view `TextView` of those lines |
| Day1.Dis | internal/day1/utils.go:76-83 | the distance is non-negative and is one of `a - b` or `b - a` |
| Day1.DisFacts | internal/day1/utils.go:76-83 | the distance is symmetric and is zero exactly for equal numbers |
| Day1.Sim | internal/day1/utils.go:85-96 | the similarity is the left entry times the number of its occurrences in the right list |
| Day1.Solve | internal/day1/utils.go:13-35 | on columns as the parser leaves them (equal length, each sorted ascending), the sum over indices of Part 1's distances or Part 2's similarities |
| Day1.SortedLastIsMax | internal/day1/utils.go:70-71 | every id of a sorted column is at most its last entry |
| Day1.SortedDropLast | internal/day1/utils.go:70-71 | dropping the last entry of a sorted column leaves it sorted and one occurrence of that entry short |
| Day1.SortedByMultiset | internal/day1/utils.go:70-71 | two sorted columns with the same ids, counted with multiplicity, are equal: the sort fixes the pairing of Part 1 |
| Day1.SortedDistanceZero | internal/day1/utils.go:13-74 | on parsed columns, Part 1 is 0 exactly when both columns hold the same ids the same number of times |
| Day1.TotalDistanceZero | internal/day1/utils.go:13-35 | the total distance is non-negative, and zero exactly when the two lists agree pointwise |
| Day1.SimilaritySnoc | internal/day1/utils.go:13-35 | one more left entry adds its similarity to the total |
| Day1.TotalSimilarityPrefix | internal/day1/utils.go:13-35 | the total over the first `n` entries ignores the later ones |
| Day1.TotalSimilarityAppend | internal/day1/utils.go:13-35 | the total similarity distributes over concatenating the left list |
| Day1.SimilarityIgnoresOrder | internal/day1/utils.go:13-35 | the total similarity depends only on the multiset of the left list, so the sort in the parser leaves it unchanged |
| Day1.SamplePart1 | internal/day1/utils_test.go:18-41 | the sample lists give 11 |
| Day1.SamplePart2 | internal/day1/utils_test.go:18-41 | the sample lists give 31 |
| Day2.Remove | internal/day2/utils.go:141-151 | the result is one shorter, keeps the entries before `i` and shifts those after it down by one |
| Day2.RemoveInsert | internal/day2/utils.go:141-151 | putting the removed entry back at `i` restores the list, so the multiset loses exactly that entry |
| Day2.RemoveSamples | internal/day2/utils_test.go:54-99 | the five removals from `[0, 1, 2, 3, 4]` |
| Day2.CheckAcceptsGood | internal/day2/utils.go:87-139 | at any tolerance, the scan from step `i` accepts a list whose steps from `i` on are all acceptable |
| Day2.IsAsc | internal/day2/utils.go:87-112 | at any tolerance, a list whose steps all rise by 1 to 3 passes as increasing |
| Day2.IsDesc | internal/day2/utils.go:114-139 | at any tolerance, a list whose steps all fall by 1 to 3 passes as decreasing |
| Day2.IsSafe | internal/day2/utils.go:77-85 | at any tolerance, a report that is strictly monotone in steps of 1 to 3 is safe |
| Day2.CheckZero | internal/day2/utils.go:87-139 | with no tolerance, the scan from step `i` accepts exactly when every later step is within 1..3 in the chosen direction |
| Day2.StrictScan | internal/day2/utils.go:77-139 | with no tolerance, a report is increasing (or decreasing, or safe) exactly when every step is |
| Day2.CheckMonotone | internal/day2/utils.go:87-139 | raising the tolerance never rejects a report the scan accepted |
| Day2.SafeMonotone | internal/day2/utils.go:77-85 | safety is monotone in the tolerance |
| Day2.BadStepPinsRemoval | internal/day2/utils.go:87-139 | when step `i` is bad, only removing one of its two levels can make every step good |
| Day2.CheckOne | internal/day2/utils.go:87-139 | with tolerance one, the scan accepts exactly the reports that are good as they are or after removing some single level |
| Day2.SafeWithOneRemoval | internal/day2/utils.go:77-139 | retrying greedily at the first bad step is complete: with tolerance one, a report is safe exactly when it is safe as it is or after one removal |
| Day2.Tolerance | internal/day2/utils.go:10-15 | Part 1 allows the minimum tolerance, 0, and Part 2 the maximum, 1 |
| Day2.SafeCount | internal/day2/utils.go:20-44 | the count of safe reports among the first `n` is at most `n` |
| Day2.Solve | internal/day2/utils.go:20-44 | the number of reports safe with the chosen half's tolerance |
| Day2.PartsOrdered | internal/day2/utils.go:20-44 | Part 2's count is never below Part 1's |
| Day2.SamplePart1 | internal/day2/utils_test.go:18-43 | the six sample reports give 2 |
| Day2.SamplePart2 | internal/day2/utils_test.go:18-43 | the six sample reports give 4 |
| Day3.StepFacts | internal/day3/utils.go:47-62 | one more instruction adds its contribution; `do()` clears the disabled flag, `don't()` sets it, and anything else leaves it |
| Day3.Eval | internal/day3/utils.go:147-155 | a product of non-negative operands is non-negative, and only a `mul` with two non-zero operands has a non-zero value |
| Day3.FlattenSnoc | internal/day3/utils.go:31-68 | one more line appends its instructions to the flattened list |
| Day3.Solve | internal/day3/utils.go:31-68 | the total over all lines' instructions in order, with one enable flag carried across lines |
| Day3.DisabledIff | internal/day3/utils.go:35-62 | products are disabled exactly when some `don't()` has been met with no `do()` after it |
| Day3.Part1IsMulSum | internal/day3/utils.go:47-62 | Part 1 is the sum of every product |
| Day3.Part2AtMostPart1 | internal/day3/utils.go:47-62 | with non-negative operands, Part 2 lies between 0 and Part 1 |
| Day3.NoDontSameTotal | internal/day3/utils.go:47-62 | without `don't()` the flag never drops and the two parts agree |
| Day3.FlagCarriesAcrossLines | internal/day3/utils.go:31-68 | a `don't()` at the end of one line disables a product on the next line |
| Day4.RayUnfold | internal/day4/utils.go:40-67 | a ray from letter `it` unfolds into this cell holding that letter, then the ray from the next cell |
| Day4.CountXmas | internal/day4/utils.go:40-67 | a cell adds to the count for letter `it` only when it is on the grid and holds that letter |
| Day4.SumNeighbours | internal/day4/utils.go:58-66 | after the first step, only the direction the walk came in counts: with `from` set and absent from the directions, the sum is 0 |
| Day4.XmasRayIff | internal/day4/utils.go:40-67 | the word reads from `p` along a direction exactly when the four cells along it hold X, M, A, S |
| Day4.SumLocked | internal/day4/utils.go:58-66 | once the direction is locked, the neighbour sum reduces to following that direction alone |
| Day4.CountLocked | internal/day4/utils.go:40-67 | a locked search counts 1 when the rest of the word lies straight ahead, else 0 |
| Day4.LockedStep | internal/day4/utils.go:40-67 | one locked recursion step keeps that meaning |
| Day4.CompassOrderIsCompass | internal/day4/utils.go:58-66 | the iteration order lists each of the eight directions exactly once |
| Day4.SumIsRays | internal/day4/utils.go:58-66 | from an 'X', the sum over distinct directions counts the directions that spell XMAS, and is at most their number |
| Day4.TermIsRay | internal/day4/utils.go:58-66 | each direction's term is 1 exactly when XMAS lies that way, and 0 for a direction off the grid |
| Day4.TermOnGrid | internal/day4/utils.go:58-66 | an on-grid neighbour's locked count is 1 exactly when XMAS lies that way |
| Day4.TermOffGrid | internal/day4/utils.go:58-66 | no XMAS lies towards an off-grid neighbour |
| Day4.RaysInCons | internal/day4/utils.go:58-66 | the set of spelling directions splits into the head's and the tail's |
| Day4.CountIsRays | internal/day4/utils.go:40-67 | a cell's count is the number of the eight directions in which XMAS starts there, so at most 8 |
| Day4.TallyFour | internal/day4/utils.go:81-93 | the diagonal tally of a letter is the sum over the four diagonals |
| Day4.IsMasIff | internal/day4/utils.go:69-104 | a cell is an X-MAS centre exactly when it holds 'A', its four diagonal neighbours are on the grid, and each diagonal through it reads MAS one way or the other |
| Day4.IsMas | internal/day4/utils.go:69-104 | an X-MAS centre is an on-grid 'A' whose upper-left and lower-right corners differ |
| Day4.Solve | internal/day4/utils.go:10-38 | the total score over every cell of the grid, visiting each once |
| Day4.NextUnvisited | internal/day4/utils.go:16-34 | when exactly the first `k` cells are visited, the unvisited list is the rest of the scan |
| Day4.ScanAdvance | internal/day4/utils.go:16-34 | visiting cell `k` extends the visited prefix by one |
| Day4.VisitAndScore | internal/day4/utils.go:16-34 | visiting a cell adds exactly that key and returns the cell's score |
| Day4.TotalSnoc | internal/day4/utils.go:16-34 | the total over one more cell adds that cell's score |
| Day4.Part1Bound | internal/day4/utils.go:16-34 | Part 1 counts at most 8 per cell |
| Day4.Part2IsCentres | internal/day4/utils.go:10-38 | Part 2 is the number of on-grid X-MAS centres |
| Day4.Part2IsCountIf | internal/day4/utils.go:16-34 | Part 2's total over any cell list counts the X-MAS centres in it |
| Day4.MasSample | internal/day4/utils_test.go:61-76 | in a 3x3 grid with M.S / .A. / M.S, the centre is an X-MAS centre and a corner is not |
| Day4.XmasRowFits | internal/day4/utils_test.go:18-60 | the one-row word XMAS is a well-formed 1x4 grid |
| Day4.XmasRowRays | internal/day4/utils_test.go:18-60 | in that row, XMAS starts at (0, 0) towards Right only |
| Day4.XmasSample | internal/day4/utils_test.go:18-60 | so the count at (0, 0) is 1 |
| Day4.TotalAppend | internal/day4/utils.go:16-34 | the answer over two cell lists in sequence is the sum of their answers |
| Day4.RowSkip | internal/day4/utils.go:40-67 | cells without an 'X' add nothing to Part 1 |
| Day4.SingleRay | internal/day4/utils.go:40-67 | a cell from which the word reads in exactly one direction scores 1 |
| Day4.RowWithOneStart | internal/day4/utils.go:16-34 | a row whose only 'X' is at one column scores what that cell scores |
| Day4.SmallGridParses | internal/day4/utils_test.go:18-28 | the 5x6 test grid is well-formed input to `ParseRune`, which builds the board whose view is `TextView(SmallGrid, 6)` |
| Day4.SmallGridStart0 | internal/day4/utils_test.go:18-28 | in the 5x6 test grid, the word at (2, 0) reads down and to the right only |
| Day4.SmallGridStart1 | internal/day4/utils_test.go:18-28 | the word at (4, 1) reads leftwards only |
| Day4.SmallGridStart3 | internal/day4/utils_test.go:18-28 | the word at (0, 3) reads rightwards only |
| Day4.SmallGridStart4 | internal/day4/utils_test.go:18-28 | the word at (1, 4) reads upwards only |
| Day4.SmallGridRow0 | internal/day4/utils_test.go:18-28 | row 0 scores what (2, 0) scores |
| Day4.SmallGridRow1 | internal/day4/utils_test.go:18-28 | row 1 scores what (4, 1) scores |
| Day4.SmallGridRow2 | internal/day4/utils_test.go:18-28 | row 2 has no 'X' and scores 0 |
| Day4.SmallGridRow3 | internal/day4/utils_test.go:18-28 | row 3 scores what (0, 3) scores |
| Day4.SmallGridRow4 | internal/day4/utils_test.go:18-28 | row 4 scores what (1, 4) scores |
| Day4.SmallGridSample | internal/day4/utils_test.go:18-28 | Part 1 on the 5x6 test grid is 4, the test's expected answer |
| Day5.LastIndex | internal/day5/utils.go:113-121 | the index of the last occurrence, or -1 when the page is absent |
| Day5.LastIndexIs | internal/day5/utils.go:113-121 | an occurrence with no later one is the last index |
| Day5.MissingPageHolds | internal/day5/utils.go:123-125 | a rule one of whose pages the update lacks always holds |
| Day5.Fix | internal/day5/utils.go:108-134 | the fixed list has the same length |
| Day5.CheckAndFix | internal/day5/utils.go:108-134 | the answer is whether the rule holds, and the array becomes the fixed list: unchanged when the rule holds or a page is absent, else the two last occurrences swapped |
| Day5.FixPermutes | internal/day5/utils.go:131-133 | the fix is a permutation |
| Day5.FixRestores | internal/day5/utils.go:131-133 | for distinct pages, the fixed list satisfies the rule |
| Day5.SelfRuleStuck | internal/day5/utils.go:127-133 | a rule with the same page on both sides is never satisfied by a list containing it, and fixing leaves the list as it was |
| Day5.PassFacts | internal/day5/utils.go:96-106 | one pass keeps the length and the multiset, and changes nothing when every rule holds |
| Day5.Pass | internal/day5/utils.go:96-106 | one pass keeps the update's length |
| Day5.IsInOrder | internal/day5/utils.go:96-106 | the answer is whether every rule holds, and the array becomes the result of one pass: the first violated rule's fix |
| Day5.RepairSound | internal/day5/utils.go:71-90 | a completed repair satisfies every rule and is a permutation of the input |
| Day5.Repair | internal/day5/utils.go:71-90 | a completed repair satisfies every rule |
| Day5.RepairMoreFuel | internal/day5/utils.go:71-90 | more rounds do not change a completed repair |
| Day5.RepairUnfold | internal/day5/utils.go:71-90 | with rounds left, a repair stops at once when every rule holds and otherwise goes on from one pass |
| Day5.FixUpdate | internal/day5/utils.go:71-90 | the array becomes the repair when it completes within the round bound, and the method reports whether it did |
| Day5.ConflictingRulesNeverRepair | internal/day5/utils.go:71-90 | two contradictory rules never repair, however many rounds are allowed |
| Day5.RepairSample | internal/day5/utils.go:71-90 | one pass repairs `[53, 47]` under the rule 47-before-53; two rounds suffice and one does not |
| Day5.Contents | internal/day5/utils.go:15-17 | the contents of the update arrays, pointwise |
| Day5.RepairAll | internal/day5/utils.go:60-69 | the repairs succeed exactly when each does, and each entry is then that update's repair |
| Day5.RepairAllIs | internal/day5/utils.go:60-69 | a list that agrees pointwise with the repairs is the whole result |
| Day5.FixAll | internal/day5/utils.go:60-69 | when it reports success every update holds its repair; otherwise some update could not be repaired |
| Day5.GetMiddle | internal/day5/utils.go:92-94 | the middle page is a page of the update |
| Day5.MiddleIsCentre | internal/day5/utils.go:92-94 | index `k` is the middle exactly when as many pages lie before it as after it, give or take one |
| Day5.FiltersPartition | internal/day5/utils.go:30-36 | every update goes to exactly one of the two lists |
| Day5.InOrderOnesSound | internal/day5/utils.go:30-36 | the ordered list holds inputs that satisfy every rule |
| Day5.OutOfOrderOnesSound | internal/day5/utils.go:30-36 | each out-of-order entry is one pass over an input that violates some rule |
| Day5.FiltersSnoc | internal/day5/utils.go:30-36 | one more update extends exactly one of the two lists |
| Day5.RepairAllKeepsPages | internal/day5/utils.go:48-55 | repairs keep every update non-empty, so their middles exist |
| Day5.ContentsSnoc | internal/day5/utils.go:30-36 | the contents of one more array extend the contents by that array |
| Day5.Pick | internal/day5/utils.go:30-36 | the selected arrays come from the input |
| Day5.PickDistinct | internal/day5/utils.go:30-36 | selecting from distinct arrays gives distinct arrays |
| Day5.PickContents | internal/day5/utils.go:30-36 | the contents of the selections are the two filtered lists |
| Day5.PickSnoc | internal/day5/utils.go:30-36 | one more array extends the selection it belongs to |
| Day5.Classify | internal/day5/utils.go:30-36 | each update gets one pass in place and goes to the ordered or the out-of-order list by whether every rule held |
| Day5.SumMiddlePages | internal/day5/utils.go:40-46 | the sum of the middle pages of the arrays' contents |
| Day5.Solve | internal/day5/utils.go:20-58 | Part 1 sums the middles of the ordered updates; Part 2 sums the middles of the repaired out-of-order updates, or gives nothing when a repair does not complete; only Part 1 needs every update non-empty |
| Day5.SumRepaired | internal/day5/utils.go:48-55 | the out-of-order updates are repaired in place and their middle pages summed, or nothing when a repair does not complete |
| Day5.EmptyUpdateInOrder | internal/day5/utils.go:123-125 | an empty update satisfies every rule, so it goes with the updates in order |
| Day5.OutOfOrderNonEmpty | internal/day5/utils.go:30-36 | no out-of-order update is empty, so Part 2 always has a middle page to read |
| Day5.EmptyUpdateSample | internal/day5/utils.go:20-58 | with the rule 47-before-53 and the updates `[]` and `[53, 47]`, Part 2 gives 53 |
| Day5.FirstBreak | internal/day5/utils.go:136-157 | the first empty line after the first line, or the end when there is none |
| Day5.BreakFrom | internal/day5/utils.go:136-157 | the first empty line from index `i` on, or the end; every line it skips is non-empty |
| Day5.Split | internal/day5/utils.go:136-157 | the rule lines are the lines before the first break, and the update lines are the non-empty lines after it |
| Day5.SplitRejoins | internal/day5/utils.go:136-157 | the rule lines, the break and the rest put back together give the input |
| Day5.SampleSorted | internal/day5/utils.go:20-58 | on a sample, the classification puts each update in its list, with the out-of-order one already passed once |
| Day5.SamplePart1 | internal/day5/utils.go:40-46 | the sample gives 47 for Part 1 |
| Day5.SamplePart2 | internal/day5/utils.go:48-55 | the sample gives 53 for Part 2 |
| Day6.GuardDir | internal/day6/utils.go:66-102 | only the four guard glyphs give a direction, and it is cardinal |
| Day6.FirstGuard | internal/day6/utils.go:66-102 | a found guard faces a cardinal direction; otherwise the result is the no-guard pose |
| Day6.GuardPose | internal/day6/utils.go:66-102 | a found guard is on the grid, faces a cardinal direction, and its glyph gives that direction; otherwise the result is the no-guard pose |
| Day6.FirstGuardSnoc | internal/day6/utils.go:66-102 | scanning one more cell finds it as the guard only when none was found before |
| Day6.FirstGuardExtends | internal/day6/utils.go:66-102 | a guard found in a prefix is the guard of the whole scan |
| Day6.FirstGuardIsFirst | internal/day6/utils.go:66-102 | the guard found is the first glyph cell of the scan, and no earlier cell holds a glyph |
| Day6.GuardIsFirstInScan | internal/day6/utils.go:66-102 | on the grid, the guard pose is the first glyph cell in row-major order, or the no-guard pose when there is none |
| Day6.ScanNoGuard | internal/day6/utils.go:66-102 | a non-glyph cell keeps the scan guard-free |
| Day6.ScanFoundGuard | internal/day6/utils.go:66-102 | the first glyph cell met is the guard pose |
| Day6.FindGuard | internal/day6/utils.go:66-102 | the result is the guard pose of the board |
| Day6.FindGuardInRow | internal/day6/utils.go:66-102 | a row scan either finds the guard pose or leaves the scan up to the next row guard-free |
| Day6.Ahead | internal/day6/utils.go:130-153 | a step from an on-grid pose stays on the grid |
| Day6.AheadFromNeighbours | internal/day6/utils.go:130-153 | the walk stops exactly when the facing direction has no neighbour; otherwise the guard turns right at '#' or 'O' and steps forward elsewhere |
| Day6.PoseInPoses | internal/day6/utils.go:105-158 | an on-grid pose is one of the finitely many poses |
| Day6.WalkShrinks | internal/day6/utils.go:105-158 | recording a new pose shrinks the set of unrecorded poses, so the walk terminates |
| Day6.Walked | internal/day6/utils.go:105-158 | the walk only adds to the poses and positions already recorded |
| Day6.WalkedStep | internal/day6/utils.go:117-153 | a step records the pose and its position and continues from the next pose |
| Day6.WalkedIgnoresVisited | internal/day6/utils.go:117-128 | whether the walk loops, and which poses it records, do not depend on the visit counters |
| Day6.WalkedPositions | internal/day6/utils.go:117-122 | the visited positions are the positions of the recorded poses |
| Day6.PositionsOfAdd | internal/day6/utils.go:117-122 | recording one more pose adds its position to the visited ones |
| Day6.CardinalPoses | internal/day6/utils.go:105-158 | a pose is cardinal exactly when it is on the grid and faces up, right, down or left |
| Day6.FacingSize | internal/day6/utils.go:105-158 | facing one direction, there is one pose per position |
| Day6.CardinalPosesSize | internal/day6/utils.go:105-158 | there are at most four cardinal poses per grid cell |
| Day6.WalkedCardinal | internal/day6/utils.go:130-153 | from a cardinal pose and cardinal records, the walk records only cardinal on-grid poses |
| Day6.WalkStaysCardinal | internal/day6/utils.go:130-153 | every pose the guard's walk records is on the grid and faces a cardinal direction |
| Day6.WalkLengthBound | internal/day6/utils.go:105-158 | from a cardinal pose, the walk runs at most one more step than there are unrecorded cardinal poses |
| Day6.WalkBound | internal/day6/utils.go:105-158 | the walk from a cardinal pose ends within 4 * N * M + 1 steps on an N x M grid |
| Day6.WalkFrom | internal/day6/utils.go:105-158 | the method reports the walk's loop flag and leaves the counters holding the walk's poses and positions |
| Day6.Advance | internal/day6/utils.go:130-153 | the guard's next pose, or none when it leaves the grid |
| Day6.PoseAfterPrefix | internal/day6/utils.go:105-158 | a guard still on the grid after `k` moves was on it after every earlier count |
| Day6.PoseAfterShift | internal/day6/utils.go:105-158 | moving `a + c` times is moving `a` times and then `c` times |
| Day6.RepeatMeansForever | internal/day6/utils.go:126-128 | a repeated pose makes the guard stay on the grid forever |
| Day6.RepeatReaches | internal/day6/utils.go:126-128 | after a repeat, every count of moves still has a pose |
| Day6.LoopIsRepeat | internal/day6/utils.go:126-128 | a walk that loops revisits a pose |
| Day6.NoLoopLeaves | internal/day6/utils.go:105-158 | a walk that does not loop eventually leaves the grid |
| Day6.WalkLoopsIffGuardStays | internal/day6/utils.go:105-158 | the walk loops exactly when the guard never leaves the grid |
| Day6.RecordedOnPath | internal/day6/utils.go:117-122 | every recorded pose is on the grid and is reached after some number of moves |
| Day6.PathIsRecorded | internal/day6/utils.go:117-122 | every on-grid pose the guard reaches in a walk that leaves is recorded |
| Day6.CountInRowIsCountIf | internal/day6/utils.go:30-60 | the per-row count is the count over that row's cells |
| Day6.CountRowDone | internal/day6/utils.go:30-60 | finishing a row adds that row's count |
| Day6.CountIfAppend | internal/day6/utils.go:30-60 | counts add over concatenated cell lists |
| Day6.LoopCountIsTrappingCells | internal/day6/utils.go:30-60 | the Part 2 count is the number of on-grid cells where an obstruction traps the guard in a loop |
| Day6.WalkStaysOnGrid | internal/day6/utils.go:21-28 | every visited position is on the grid |
| Day6.AnswerBound | internal/day6/utils.go:10-64 | either part's answer is at most the number of cells |
| Day6.CountVisited | internal/day6/utils.go:21-28 | the walk's number of distinct positions, or 0 when it loops |
| Day6.TrapAt | internal/day6/utils.go:37-55 | the trial at one cell reports whether an 'O' there traps the guard and leaves the board's own view unchanged; a skipped cell changes no counter, otherwise the overlay is that one 'O', the path counters hold exactly the poses of the walk, and the visit counters, never cleared, keep every position they held and gain the walk's |
| Day6.CountTrapsInRow | internal/day6/utils.go:30-60 | a row's trials add that row's number of trapping cells, and no visited position is forgotten |
| Day6.CountTraps | internal/day6/utils.go:30-60 | the number of trapping cells over the whole grid; the visit counters only grow, since only the paths are reset between trials |
| Day6.Solve | internal/day6/utils.go:10-64 | the chosen part's answer on the board as parsed, and at most the number of cells |

## Left out

- Fetching puzzle input over HTTP, caching it on disk, structured logging and the command-line entry points are I/O and are not modelled.
- `Direction.String` (internal/common/board.go:180-182) and `GetPosition` only format or read a field, so they have no contract worth stating.
- The text parsers are not modelled: Day 1's regular expression and `sort.Ints` (`Day1.Solve` requires what they produce: two columns of equal length, each sorted ascending), Day 2's number splitting, Day 3's instruction regular expressions and Day 5's `parseRules` and `parseUpdates`. Each solver takes the parsed values instead. `Day1.SimilarityIgnoresOrder` covers the sort's effect on Part 2.
- Day 5's `Solve` takes parsed rules and updates; `Day5.Split` models the line split separately.
- Board.ParseRune: it requires empty lines to come only at the end and every row to have the same width. A blank line in the middle makes the Go code index past its grid, and a `array2` cannot hold jagged rows.
- Board.ParseRune: a line is a sequence of characters, and a row is as wide as its line has characters. The Go code makes each row `len(line)` bytes wide and stores each rune at its byte offset (internal/common/board.go:219-221). The two agree on ASCII lines, which is what the puzzles give. On a line with a multi-byte character, Go's row is wider and holds a zero rune after that character, and its width check counts bytes; the model does not reproduce either. Invalid UTF-8, which Go reads as U+FFFD, has no counterpart either.
- Board.Board: Go copies a `Board` value while its maps stay shared (`WithOverrides` returns a copy, and `walk` takes one). The model mutates one object, the cursor included. The counters the solvers read are the shared maps, so the answers are the same.
- Day5.FixUpdate: the Go loop repeats until every rule holds and need not end when the rules conflict. The model bounds it by a number of rounds (`fuel`) and reports when the bound is reached; `Day5.ConflictingRulesNeverRepair` shows a case that never ends.
- Day5.Solve: Part 2 returns `None` when a repair does not complete within the bound, where the Go program would not return.
- Day5.Solve: the final `return 0` for a part other than Part 1 or Part 2 cannot be reached, because `Part` has exactly those two values.
- Day5.GetMiddle and Day2.Remove: the Go code panics on an empty list or an out-of-range index. The model makes those preconditions. The well-formed inputs meet them. A malformed update line (such as `x,y`) parses to an empty update. An empty update satisfies every rule, so only Part 1 reads its middle page and panics; `Day5.Solve` and `Day5.Answer` require non-empty updates for Part 1 only, and `Day5.OutOfOrderNonEmpty` shows that Part 2 never meets an empty one.
- Integers are unbounded; Go's 64-bit `int` overflow is not modelled, and no realistic input comes near it.
- Map iteration order: the Go code ranges over maps only to sum or count, so order does not affect the results.
- Day 4's and Day 6's solvers take the parsed board and require its counters to be empty, as `ParseRune` leaves them.
- Day 5's `fixAll` returns the same update values it was given, repaired in place. The model repairs the arrays in place and reports only success.
- Unit-test fixtures: Day 1's and Day 2's test inputs are proved as given (`SamplePart1` and `SamplePart2`), and so is Day 4's 5x6 Part 1 input (`Day4.SmallGridSample`, total 4). Day 5's samples (`SamplePart1`, `SamplePart2`, `RepairSample`) and Day 3's `FlagCarriesAcrossLines` are small inputs of the same shape. The test files of Day 3, Day 5 and Day 6 are not part of this model, and Day 6 has no sample lemma.
- Day4.MasSample: the Part 2 test input (a 10x10 grid with 9 X-MAS centres, internal/day4/utils_test.go:61-76) is not proved. The lemma checks one 3x3 cross instead; `Day4.Part2IsCentres` covers how a grid's answer counts such centres.
- Day4.XmasSample: the two 10x10 Part 1 test inputs (18 words each, internal/day4/utils_test.go:29-60) are not proved. Each word start needs its own lemma, as in `Day4.SmallGridSample`. The lemma checks the one-row grid XMAS instead.
