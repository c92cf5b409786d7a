# Stepping stones — a verified model of the puzzle engine

Stepping stones is played on an unbounded integer grid. Stones labelled 1, 2, 3, … are placed
one at a time. Label k may go only on an empty cell whose eight surrounding cells add up to k.
Any number of 1s may be placed freely beforehand. This project models the engine behind the game
and proves what it promises:

- the sparse grid and its traversals (`src/logic/grid.ts`);
- the run-length text format, its reader and the "dot" example format (`src/logic/io.ts`);
- the exhaustive solver with its progress reports (`src/logic/solvers.ts`);
- neighbourhood extraction and grid filtering (`src/logic/buildingblock.ts`);
- the label colour table (`src/logic/colors.ts`);
- the two click handlers of the manual-play screens (`src/App.tsx`).

A grid is a `map<(int, int), int>`; a missing cell reads as 0. Grids are values: every grid the
engine builds is freshly made and is not mutated after it is handed on. The one grid changed in
place, the module-level game grid of the app, is the field `gameGrid` of the class `App.Game`.

A JavaScript `for … in` loop over the grid visits each stored cell once. Each traversal method
takes that visiting order as a parameter `order` with `IsEnumeration(g, order)`. A result that
does not depend on the order (a copy, the neighbour sums, the histogram, the bounds) is proved
for every order. The solver's tie-break and BlocksExtract's "last writer wins" depend on it. The
solver uses the row-major order `SparseGrid.RowMajor`.

Modules, one per file: `SparseGrid` (grid.dfy), `Extent` (extent.dfy, bounds and rectangle
traversal), `NeighborSum` (neighbors.dfy), `TextUtil` (text.dfy, number printing and parsing,
split and join), `Codec` (codec.dfy, ExportGrid), `Importer` (importer.dfy, ImportGrid),
`RoundTrip` (roundtrip.dfy), `DotFormat` (dotformat.dfy), `Solver` (solver.dfy), `Blocks`
(blocks.dfy), `Colors` (colors.dfy), `App` (app.dfy) and `Wrappers` (wrappers.dfy, Option and
Result).

Key definitions:

- `SparseGrid.Score(g)` is the length of `GridCount(g)`: one more than the largest non-negative
  stored value, or 0. The solver and the app use it as `next`, the next label to place.
- `NeighborSum.NeighborSums(g)` is the grid `GridSumNeighbors` builds. It holds -1 on every
  positive cell ("stone"). Every other cell next to a stone holds the sum of its stone
  neighbours (`MooreSum`). There are no other entries.
- `Solver.Solve(g, fuel)` is the solver's result as a recursive function. With fuel left it is
  `Expand(g, fuel - 1)`: the first of the children's solutions (`ChildSolutions`, one per play,
  in traversal order) whose score beats the grid's, or the grid itself.
- `Colors.ColorList()` is COLOR_LIST as it ends up, given entry by entry; the module-level
  flatMap-and-overwrite code (`BuildColorList`) is proved to build it.

## Model

| member | source | states |
|---|---|---|
| SparseGrid.GetZero | src/logic/grid.ts:4-6 | GridGet reads 0 exactly for a missing cell or a stored 0, and a stored 0 reads like a missing cell everywhere |
| SparseGrid.GridSetReads | src/logic/grid.ts:9-17 | after GridSet the cell reads the new value, every other cell reads as before, and the key set gains that cell |
| SparseGrid.RowMajor | src/logic/grid.ts:21-30 | a row-major visiting order that lists every stored cell exactly once |
| SparseGrid.GridForEach | src/logic/grid.ts:21-30 | one callback per stored cell, in the given order, with the cell's stored value and coordinates, no cell twice |
| SparseGrid.GridCopy | src/logic/grid.ts:33-40 | the copy holds exactly the nonzero cells with their values, so it reads like the input at every cell |
| SparseGrid.GridOnes | src/logic/grid.ts:43-50 | the copy holds exactly the cells equal to 1, and reads 1 exactly where the input reads 1 |
| SparseGrid.GridCount | src/logic/grid.ts:137-145 | counts[v] is the number of stored cells holding v; the length is the score, one more than the largest non-negative stored value; negative values do not extend it |
| SparseGrid.Score | src/logic/grid.ts:137-145 | the score exists and is unique: the least n above every non-negative stored value |
| Extent.GridBounds | src/logic/grid.ts:53-72 | the result is the bounds: the starting sentinels clamped by the rows and columns of the counted cells, where includeZeroes decides whether stored zeros count |
| Extent.BoundsOfNothing | src/logic/grid.ts:54-61 | with no counted cell, the bounds are min = MAX_SAFE_INTEGER and max = MIN_SAFE_INTEGER |
| Extent.BoundsAttained | src/logic/grid.ts:63-69 | with a counted cell and safe coordinates, min <= max and each of the four bounds is attained by a counted cell |
| Extent.BoundsUnique | src/logic/grid.ts:63-69 | the bounds are determined by the grid whatever the visiting order |
| Extent.RectCellsExact | src/logic/grid.ts:81-88 | the rectangle walk covers exactly the cells of the rectangle, each once, in row-major order |
| Extent.BoundsForEach | src/logic/grid.ts:75-90 | the visits are GridGet's value at every cell of the bounds rectangle (zeros included) widened by extra, row-major |
| NeighborSum.Block | src/logic/grid.ts:97-103 | the neighbourhood has exactly the offsets -1..1 in both directions, entry (dr, dc) holding GridGet at (row + dr, col + dc) |
| NeighborSum.Neighborhood | src/logic/grid.ts:97-103 | the nested offset loop builds exactly that neighbourhood, with the cell's own value at its centre |
| NeighborSum.GridNeighborsForEach | src/logic/grid.ts:92-106 | one callback per stored cell, in order, with its value and its neighbourhood |
| NeighborSum.NeighborCallsAt | src/logic/grid.ts:96-104 | the callback at position i gets the value and neighbourhood of the i-th visited cell |
| NeighborSum.NeighborSums | src/logic/grid.ts:108-135 | positive cells map to -1, other cells next to a positive cell map to the sum of their positive neighbours, no other cell is present |
| NeighborSum.NeighborSumsGet | src/logic/grid.ts:108-135 | the sum grid reads -1 on a stone and the neighbour sum everywhere else |
| NeighborSum.SumsUnique | src/logic/grid.ts:112-132 | the sum grid does not depend on the order in which cells are visited |
| NeighborSum.GridSumNeighbors | src/logic/grid.ts:109-135 | the stamping loops build exactly NeighborSums(g), for every visiting order |
| NeighborSum.TwoStonesExample | src/logic/grid.ts:108-135 | two stones 3 on a diagonal: both read -1, a shared neighbour 6, a corner 3, a far cell 0 |
| TextUtil.DigitsRoundTrip | src/logic/io.ts:89 | reading back the decimal digits of a natural gives the natural |
| TextUtil.ParseIntToString | src/logic/io.ts:89 | Number() of a printed integer gives that integer back |
| TextUtil.ParseNumber | src/logic/io.ts:78 | Number() of trimmed text: blank text is 0, a digit run is its value |
| TextUtil.SplitJoin | src/logic/io.ts:56-59 | joining the pieces of split(d) with d gives back the text |
| TextUtil.SplitAt | src/logic/io.ts:57 | split distributes over a concatenation at a separator |
| Codec.RunsExpand | src/logic/io.ts:15-43 | the runs a row is cut into, expanded with their leading zero counts and followed by the trailing zeros, give back the row; every run is non-empty |
| Codec.RowTextTrailing | src/logic/io.ts:45-47 | trailing empty cells of a row are never written |
| Codec.EmptyRowText | src/logic/io.ts:45-47 | an all-empty row is written as "()" |
| Codec.ExportNothing | src/logic/io.ts:7-50 | a grid with no nonzero cell is written as the empty text |
| Codec.StepOpen | src/logic/io.ts:32-42 | a value after empty cells opens a run "N: " (the first in a row) or " / N: ", N being the empty cells before it |
| Codec.StepExtend | src/logic/io.ts:42 | a value after a value joins the current run |
| Codec.StepZeroClose | src/logic/io.ts:17-29 | an empty cell after a run writes the run's values joined by ", " and starts counting again |
| Codec.StepZeroCounting | src/logic/io.ts:18-21 | an empty cell while counting only bumps the count |
| Codec.ExportFinish | src/logic/io.ts:45-47 | the text of a finished row is the run texts joined by " / " between parentheses |
| Codec.ExportCell | src/logic/io.ts:16-42 | one column step of the loop keeps its state in step with the row read so far |
| Codec.ExportRow | src/logic/io.ts:9-47 | a row's text is RowText of its values from bounds.col.min to bounds.col.max |
| Codec.ExportGrid | src/logic/io.ts:5-51 | the text is the row texts from bounds.row.min to bounds.row.max joined by ", " |
| Importer.ZeroCount | src/logic/io.ts:78-82 | "N:" writes N zero cells; a negative count writes none |
| Importer.ScanChar | src/logic/io.ts:72-95 | a space is skipped, ':' ',' '/' flush the buffer, any other character is buffered; the flush fails exactly when the buffer is not a number |
| Importer.ReadRow | src/logic/io.ts:66-99 | a row read in full writes at least one cell: the leftover buffer at row end |
| Importer.ImportRows | src/logic/io.ts:66-99 | a successful import has one entry per row text |
| Importer.ImportRowsAt | src/logic/io.ts:66-99 | after a successful import, entry i is what row i reads as, so the rows stay in order |
| Importer.ImportRowsSucceeds | src/logic/io.ts:66-99 | the import fails only when some row fails to read |
| Importer.ImportRowsFails | src/logic/io.ts:66-99 | once a row fails, the import of every longer prefix fails with the same error |
| Importer.PutRowAt | src/logic/io.ts:67-98 | writing row r stores cells[i] at (r, i) for every i and leaves every other cell as it was |
| Importer.PutRows | src/logic/io.ts:66-99 | row r's cells land at (r, 0), (r, 1), …; nothing else is stored |
| Importer.Heads | src/logic/io.ts:59 | each group keeps the text before its first ')' |
| Importer.ImportNothing | src/logic/io.ts:54-59 | importing the empty text gives the empty grid |
| Importer.ReadChar | src/logic/io.ts:72-95 | one character of a row fails exactly when ScanChar fails, with its error; otherwise the new buffer and cells are ScanChar's and the grid holds the cells written so far |
| Importer.ImportRow | src/logic/io.ts:66-99 | the character loop writes the cells of the row, as RowInto says |
| Importer.ImportGrid | src/logic/io.ts:54-102 | the import method computes ImportText(str) |
| RoundTrip.ExportImport | src/logic/io.ts:5-102 | importing an exported grid succeeds and reads, at every (r, c), the grid at (r + row.min, c + col.min): the round trip up to translation to the origin |
| RoundTrip.RowReadBack | src/logic/io.ts:15-99 | every row written by the exporter reads back as its values, up to trailing zeros |
| RoundTrip.ReadRuns | src/logic/io.ts:32-98 | the text of well-formed runs reads back as their expansion |
| RoundTrip.RowStringsOf | src/logic/io.ts:50-59 | splitting the joined row texts at '(' and ')' recovers each row body |
| RoundTrip.PutRowsGet | src/logic/io.ts:66-99 | the imported grid reads row r's c-th cell, and 0 outside the rows read |
| DotFormat.TokenValue | src/logic/io.ts:111-112 | a token is stored exactly when it parses to a nonzero number, and then with that number |
| DotFormat.DotGridCells | src/logic/io.ts:105-118 | the k-th non-empty line lands at row k, its j-th non-empty token at column j, stored only when it parses to a nonzero number |
| DotFormat.DotRowCells | src/logic/io.ts:109-114 | one line adds exactly its storable tokens, keeping every other cell |
| DotFormat.ImportDotRow | src/logic/io.ts:109-114 | the token loop computes DotRow |
| DotFormat.ImportDotFormat | src/logic/io.ts:105-118 | the import method computes DotGrid(str) |
| DotFormat.N2Example | src/logic/io.ts:120-126 | the "n=2 gets 16" example has 1s at (1, 2) and (3, 4) and label 16 at (2, 5) |
| Solver.PlaysIn | src/logic/solvers.ts:48-53 | the plays are exactly the visited cells whose neighbour sum equals next |
| Solver.CollectPlays | src/logic/solvers.ts:48-53 | the traversal collects the plays in visiting order |
| Solver.PlaysExact | src/logic/solvers.ts:44-53 | a cell is a play exactly when it holds no stone and its neighbour sum is next (> 0) |
| Solver.HasPlays | src/logic/solvers.ts:44-46 | neighborCounts[next] > 0 exactly when there is a play |
| Solver.FindPlays | src/logic/solvers.ts:44-53 | the sum grid, its counts and the traversal find exactly the plays of the grid, none when the count for next is missing or 0 |
| Solver.Child | src/logic/solvers.ts:55-59 | a child is the nonzero cells of the grid plus the play set to next; every other cell reads as before |
| Solver.ChildKeepsStone | src/logic/solvers.ts:55-59 | every stone of the grid is a stone of each child with the same label |
| Solver.Pick | src/logic/solvers.ts:65-72 | the picked result is strictly above the floor, no result scores higher, and every earlier result scores strictly lower (first wins ties); none is picked when none beats the floor |
| Solver.BestOf | src/logic/solvers.ts:65-72 | the best grid is the input or one of the results, and a result only when it scores strictly above the input; no result scores above both the input's score and the kept grid |
| Solver.PickBest | src/logic/solvers.ts:65-72 | the selection loop returns BestOf |
| Solver.SolutionsSnoc | src/logic/solvers.ts:55-63 | the children are solved one per play, in play order |
| Solver.SolutionsAt | src/logic/solvers.ts:55-63 | result i is the solution of the child of play i |
| Solver.SolveStep | src/logic/solvers.ts:34-73 | with fuel left, the result is the expansion of the grid one level shallower |
| Solver.ExpandWith | src/logic/solvers.ts:44-73 | the expansion is the best of the children's solutions for the plays and next label of the grid, and the grid itself when it has no play |
| Solver.SolveWithoutPlays | src/logic/solvers.ts:34-46 | with no play the result is the input grid itself |
| Solver.SolveScore | src/logic/solvers.ts:65-72 | the result scores at least the input, and strictly more when it differs from it |
| Solver.SolveKeepsStones | src/logic/solvers.ts:34-59 | every stone of the input is in the result with its label |
| Solver.AttainsSnoc | src/logic/solvers.ts:55-63 | solving one more child, which leaves bestSoFar at its old value or at the child's score, keeps bestSoFar equal to the starting value or to some result's score, and above every result |
| Solver.RisingJoin | src/logic/solvers.ts:80-84 | two stretches of rising progress reports, the second starting where the first ended, form one rising stretch |
| Solver.SolverProgress.constructor | src/logic/solvers.ts:28-29 | the progress state starts with bestSoFar 0, not running, nothing reported |
| Solver.SolverProgress.BruteForceGridSolver | src/logic/solvers.ts:30-86 | returns Solve(grid, fuel); a top-level call resets bestSoFar, ends not running with one final report of the best grid, preceded by progress reports rising strictly within (0, bestSoFar], each progress report handing over a grid whose score is its level; the final grid scores at least the final bestSoFar and so at least every progress report's grid; an inner call only adds such rising reports above the old bestSoFar, its result scores at most the new bestSoFar, and the new bestSoFar is the old one or the result's score, i.e. max(old bestSoFar, Score(result)) |
| Solver.SolverProgress.Search | src/logic/solvers.ts:44-84 | the search below one grid returns Solve(grid, fuel), its reports rise strictly above the old bestSoFar with grids scoring their levels, a result other than the grid scores at most the new bestSoFar, and the new bestSoFar is the old one or at most the result's score |
| Solver.SolverProgress.SearchPlays | src/logic/solvers.ts:55-72 | below a grid with plays, solving every child and keeping the best gives Solve(grid, fuel); reports rise above the old bestSoFar with grids scoring their levels; a result other than the grid scores at most the new bestSoFar, and the new bestSoFar is the old one or at most the result's score |
| Solver.SolverProgress.SolveChildren | src/logic/solvers.ts:55-63 | the children are solved in play order, their results are Solutions, each scores at most the new bestSoFar, the new bestSoFar is the old one or some result's score (Attains), and the reports made meanwhile rise with grids scoring their levels |
| Solver.SolverProgress.SolveChild | src/logic/solvers.ts:55-62 | one child: a copy of the grid with the play set to next, solved recursively; the new bestSoFar is max(old bestSoFar, Score(result)) |
| Blocks.BlocksExtract | src/logic/buildingblock.ts:6-17 | the callback stores, under every label above 1, the neighbourhood it is handed; the last call wins |
| Blocks.BlocksKeys | src/logic/buildingblock.ts:11-14 | there is an entry exactly for the values above 1 stored in the grid |
| Blocks.BlocksLast | src/logic/buildingblock.ts:11-13 | blocks[v] is the neighbourhood of the last visited cell holding v |
| Blocks.BlocksCentre | src/logic/buildingblock.ts:11-13 | the centre entry blocks[v][0][0] is v |
| Blocks.StoredKeys | src/logic/buildingblock.ts:11-14 | after any sequence of callbacks, the keys are the values above 1 handed over |
| Blocks.StoredLast | src/logic/buildingblock.ts:13 | under v is the neighbourhood of the last callback for v |
| Blocks.GridFilter | src/logic/buildingblock.ts:20-33 | a fresh grid with exactly the stored cells the filter accepts, with their values; the input is a value and is unchanged |
| Colors.GetColor | src/logic/colors.ts:19-23 | no colour for a value of at most 1; a colour exactly for 2 <= value < 150, namely COLORS[value / 10] |
| Colors.Repeated | src/logic/colors.ts:27-29 | the flatMap repeats each colour 10 times, so it has 10 entries per colour |
| Colors.RepeatedAt | src/logic/colors.ts:27-29 | entry i of the repeated list is COLORS[i / 10] |
| Colors.ColorListShape | src/logic/colors.ts:27-32 | COLOR_LIST has 150 entries and its first two are "black" |
| Colors.ColorListAgrees | src/logic/colors.ts:19-32 | for 2 <= i < 150, GetColor(i) is COLOR_LIST[i] |
| Colors.BuildColorList | src/logic/colors.ts:27-32 | the array built by the flatMap and then overwritten at 0 and 1 is COLOR_LIST: "black" at 0 and 1, COLORS[i / 10] at every other i |
| Colors.RepeatThenBlacken | src/logic/colors.ts:28-32 | for any colour table: 10 entries per colour, "black" at 0 and 1, and colour i / 10 at every i from 2 |
| App.ShownMeaning | src/App.tsx:226-227 | a tile is placed exactly on a stone, then showing its label; any other tile shows its neighbour sum |
| App.AddStonesUndo | src/App.tsx:442-447 | clicking the stone labelled next - 1 clears it and changes nothing else |
| App.AddStonesIgnore | src/App.tsx:451-453 | outside the undo case, a click on a tile not showing next changes nothing |
| App.AddStonesPlace | src/App.tsx:442-455 | a tile showing next is an empty cell with neighbour sum next; the click stores next there, changes nothing else, and next becomes next + 1 |
| App.OnePlacerToggle | src/App.tsx:400 | a OnePlacer click clears a stone or puts a 1 on any other cell, and changes no other cell |
| Extent.ZerolessBounds | src/App.tsx:85-104 | on a grid that stores no 0, App's Bounds (nonzero cells only) and the library's GridBounds with includeZeroes give the same bounds |
| App.ViewBounds | src/App.tsx:219-224 | the sum grid GridView walks stores no 0, so the rectangle it draws is the same whether stored zeros are counted or not |
| App.Game.constructor | src/App.tsx:6 | the module-level game grid starts as the grid passed in: the literal `[[1], [], [0, 0, 1]]` at start-up, or the grid that the Import button assigns at src/App.tsx:365 |
| App.Game.ClickAddStones | src/App.tsx:412-457 | the handler, with next = CountValues(gameGrid).length, applies the AddStones click rule to gameGrid |
| App.Game.ClickOnePlacer | src/App.tsx:398-402 | the handler applies the OnePlacer toggle to gameGrid |

## Left out

- Grids are maps from cell to integer. JavaScript's sparse arrays are not modelled: holes, `length`, non-index properties.
- `for … in` order is not modelled. JavaScript visits non-negative rows ascending, then negative rows in insertion order. Here the order is a parameter (`IsEnumeration`), and the solver uses row-major order.
- Numbers are unbounded integers. Floating point, precision above 2^53 and non-integer values are not modelled. `Math.floor(value / 10)` in GetColor is integer division on integers.
- Extent.BoundsAttained: needs every counted coordinate inside the safe-integer range, because outside it the clamped sentinels are not attained.
- TextUtil.ParseNumber: reads decimal integers only. `Number()` also reads the integer spellings "0x10", "0b11", "0o7" and "1e3" (as 16, 3, 7 and 1000), fractions such as "1.5", and "Infinity"; all of these give None here. Cell values are integers in the model, so hexadecimal, binary, octal and exponent spellings of them are not modelled.
- Importer.ImportGrid: a cell or zero-count token spelled "0x10", "0b11", "0o7", "1e3" and so on fails the import with `Failure(BadNumber)`, where the source stores the number `Number()` reads (ParseNumber).
- DotFormat.TokenValue: a token spelled "0x10", "0b11", "0o7", "1e3" and so on is dropped as if it were 0, where the source stores the number `Number()` reads (ParseNumber).
- Importer.ImportGrid: a token that ParseNumber refuses stops the import with `Failure(BadNumber)`. In the source a NaN cell value is stored as NaN, and a NaN zero count before ":" makes the `z < zeroes` loop write no cell. A negative zero count writes no cell in both (ZeroCount).
- Importer.ImportGrid: `grid[r] = []` resets a row. Each group writes its own row index, so the reset is not modelled separately.
- RoundTrip.ExportImport: stated up to the translation by (row.min, col.min). The importer numbers rows and columns from 0.
- Solver.SolverProgress.BruteForceGridSolver: the recursion is bounded by a `fuel` parameter, because the source has no evident decreasing measure. With fuel 0 a node returns its grid without expanding it, but it still reports. Unbounded fuel is not modelled.
- Solver.SolverProgress.SolveChildren: children are solved one after another in play order. The `delayed` timer and `Promise.all` fan-out are not modelled. With concurrency, interleaved children can report in another order.
- Solver.SolverProgress.BruteForceGridSolver: the listener is modelled as the `reports` list of `Report(best, isDone, level)`. The `level` field records the `bestSoFar` logged with the report. `isRunning` is set true at the start of a top-level call and false at its end; only the final value is stated.
- Solver.SolverProgress.BruteForceGridSolver: an inner node reports when its own input `counts.length` exceeds `bestSoFar`, not its branch result's score. This follows the code. Because a branch result never scores above the `bestSoFar` it leaves behind, a node that reports has kept its own grid, so every progress report's grid scores exactly its level (Rising).
- Solver.SolveKeepsStones: only positive cells (stones) are proved to keep their values. A child drops stored zeros, and a negative cell can hold a play and be overwritten, so "every nonzero cell keeps its value" does not hold for negative cells.
- `SetSolverListener` (src/logic/solvers.ts:22-26) is not modelled: it only swaps the callback, which here is the `reports` list.
- `FindNextOne` (src/logic/solvers.ts:88-91) is not modelled: it computes a value and discards it.
- `BLOCKS` (src/logic/buildingblock.ts:4) is not modelled: it is a constant empty array.
- Every `console.log` is not modelled: in GridFilter, colors.ts, the solver and the click handlers.
- DotFormat: only the n=2 example is checked cell by cell. N4_GRID and N6_GRID are defined, but no lemma evaluates them.
- App.Game.constructor: the start-up grid `[[1], [], [0, 0, 1]]` (src/App.tsx:6) and the Import button's `gameGrid = importGrid` (src/App.tsx:365) are not modelled as separate operations; both are a Game built from the grid in question. The Import button's own text handling is Importer.ImportGrid.
- App: the helpers at src/App.tsx:8-202 copy the library. GridGet, GridSet, SumNeighbors, GridForEach and CountValues (src/App.tsx:277-285) copy grid.ts and are modelled once, by SparseGrid and NeighborSum (GridSumNeighbors, GridCount). ExportGrid and ImportGrid (src/App.tsx:106-202) copy io.ts and are modelled by Codec.ExportGrid and Importer.ImportGrid.
- App: App's Bounds (src/App.tsx:85-104) is not GridBounds: it has no includeZeroes and skips stored zeros, so App's BoundsForEach (src/App.tsx:58-75) spans only the nonzero cells, while the library's (grid.ts:80) counts stored zeros. App's BoundsForEach is not modelled separately. The only grid GridView walks with it is the sum grid, which stores no 0, so both give the same rectangle there (App.ViewBounds). The click rules are stated for every cell, drawn or not.
- App: the JSX, rendering, mode switching, clipboard and text box are not modelled. A click is modelled on the tile GridView would show for the clicked cell, including cells it does not render.
- The UI files under src/ui are not part of this model.
