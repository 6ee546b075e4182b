# Game of Life on a torus — a Dafny model

This project models the simulation core of a console Game of Life written in C#
(`Life/Program.cs`), and proves properties of that model. The core consists of:

- the `Cell` update rule;
- the `Board`: its size derived from pixel dimensions, its toroidal neighbour wiring, and its two-phase generation step;
- the `ElementCounter`, which groups live cells into 8-connected toroidal regions
  ("combinations") by flood fill;
- the `TextController` text format, which saves a board, reads it back and stamps a figure onto it.

Modules, in dependency order:

- `Wrappers`: the `Result` type standing in for the exceptions the program raises.
- `Boards`: the cell grid (`Grid`, stored row by row as `cells[y][x]`), C#'s truncating integer division, and the `Board` constructor.
- `Neighbors`: the neighbour wiring (`NeighborList`) and the flood fill's modular arithmetic (`Wrap`, `FloodNeighbors`), with the lemmas showing they agree.
- `Life`: the rule (`NextState`), the pure generation function `Step`, and the two-phase `Advance` proved equal to it.
- `Components`: the reference definition of a combination (`Component`, the least set closed under live neighbours), the flood fill `ExploreCombination`, and `CountElements`.
- `TextController`: `SaveLife`, `ReadLife`, `LoadFigure`, and a model of splitting a text into lines.

Notes on the program's behaviour that shape the model:

- The program's flood fill recurses, and so does `ExploreCombination`.
- `new Board(...)` and `Load_figure` throw exceptions; the model returns `Failure`.

## Model

| member | source | states |
|---|---|---|
| Life.CountAliveExtremes | Life/Program.cs:97 | the live count of a neighbour list is 0 exactly when no entry is alive, and equals the list length exactly when every entry is alive |
| Life.NextState | Life/Program.cs:95-102 | a live cell survives with 2 or 3 live neighbours, a dead cell is born with exactly 3, every other case is dead |
| Life.CountAliveIsMultiplicity | Life/Program.cs:97 | the live-neighbour count is the number of live entries in the neighbour list, counted with multiplicity (the multiset count of `true`) |
| Life.SingleCellBoardCountsItselfEightTimes | Life/Program.cs:97 | on a 1 x 1 board the only cell is its own neighbour eight times, so a lone live cell counts 8 live neighbours and dies |
| Life.NextCellRule | Life/Program.cs:95-102 | a board cell is alive in the next generation exactly when it has three live wired neighbours, or is alive and has two, counting a repeated wired entry as often as it occurs |
| Life.Step | Life/Program.cs:138-144 | the next generation keeps the board size and gives every cell the rule applied to the current generation's states |
| Life.DetermineNextStates | Life/Program.cs:140-141 | the first phase computes every cell's next state from the unchanged current generation |
| Life.CommitNextStates | Life/Program.cs:103-106 | the second phase copies every next state into the board, all of them |
| Life.Advance | Life/Program.cs:138-144 | the two-phase in-place update yields exactly `Step` of the board it started from |
| Life.EmptyBoardStaysEmpty | Life/Program.cs:95-102 | a board without live cells stays without live cells |
| Life.QuietCellStaysDead | Life/Program.cs:95-102 | a dead cell with no live neighbour stays dead |
| Life.StepCommutesWithShiftColumns | Life/Program.cs:145-167 | shifting the board one column around the torus and then stepping equals stepping and then shifting |
| Life.StepCommutesWithShiftRows | Life/Program.cs:145-167 | shifting the board one row around the torus and then stepping equals stepping and then shifting |
| Life.ShiftColumnsNeighborStates | Life/Program.cs:151-164 | the neighbours of a cell on the shifted board have the states of the neighbours of the cell one column to the left on the unshifted board |
| Boards.TruncDiv | Life/Program.cs:122 | the quotient rounds toward zero: the remainder has the dividend's sign and is smaller in magnitude than the divisor |
| Boards.NewBoard | Life/Program.cs:113-129 | `cellSize == 0` fails with a division by zero and no other input does. Otherwise it fails with an overflow exactly when either truncated quotient is negative or outside 32 bits, so `int.MinValue / -1` overflows for the width and for the height. On success the grid is `width / cellSize` by `height / cellSize` by truncating division, filled from the initial population. For positive arguments the board's pixel width is at most `width` and less than `width + cellSize` |
| Boards.PixelSizeFits | Life/Program.cs:115-116 | for every board the constructor builds, `Width` and `Height` (cell count times cell size) are no larger in magnitude than the requested pixel sizes, so the 32-bit products never wrap |
| Boards.HundredPixelBoard | Life.Tests/UnitTest1.cs:48-54 | a 100 x 100 pixel board with 10-pixel cells has 10 columns and 10 rows |
| Neighbors.NeighborList | Life/Program.cs:151-164 | every cell gets exactly eight neighbours, all on the board |
| Neighbors.Wrap | Life/Program.cs:221-222 | the flood fill's neighbour index is on the board: one step past either edge lands on the opposite edge, any other step moves by the offset |
| Neighbors.WiringMatchesWrap | Life/Program.cs:151-164 | each wired neighbour, computed by the edge rules, is the cell reached by `(x + dx + C) % C`, `(y + dy + R) % R` with the same offset |
| Neighbors.FloodMatchesWiring | Life/Program.cs:215-222 | the flood fill's eight neighbours are the wired eight in another order, with the same members |
| Neighbors.NeighborSymmetric | Life/Program.cs:151-164 | adjacency is symmetric: `p`'s k-th neighbour has `p` as its (7 - k)-th neighbour |
| Neighbors.NeighborsDistinct | Life.Tests/UnitTest1.cs:56-60 | on a board at least 3 x 3 the eight neighbours are distinct and differ from the cell |
| Neighbors.SingleCellIsOwnNeighbor | Life/Program.cs:151-155 | on a 1 x 1 board all eight neighbours are the cell itself |
| Components.Reach | Life/Program.cs:208-228 | the cells the flood fill can reach from a start set: it contains the start set and stays on the board |
| Components.ReachClosed | Life/Program.cs:208-228 | the fixpoint adds only live cells, and no live neighbour of a member is left outside it |
| Components.ComponentClosed | Life/Program.cs:208-228 | a combination consists of live cells and holds every live neighbour of each of its members |
| Components.NeighborSameComponent | Life/Program.cs:215-226 | a live neighbour of a live cell has the same combination as that cell |
| Components.CombinationsGrow | Life/Program.cs:192-200 | adding a new combination to a closed marking of live cells adds that combination to the counted ones exactly when it has more than one cell, and it was not counted before |
| Components.ReachLeast | Life/Program.cs:208-228 | the fixpoint lies inside every closed set containing the start set, so a combination is the least closed set around its cell |
| Components.ComponentSymmetric | Life/Program.cs:208-228 | if `q` is in `p`'s combination then `p` is in `q`'s |
| Components.ComponentOfMember | Life/Program.cs:208-228 | all members of a combination have the same combination, so combinations partition the live cells |
| Components.ComponentInsideClosed | Life/Program.cs:192-194 | a combination lies entirely inside or entirely outside a closed marking |
| Components.ExploreCombination | Life/Program.cs:208-228 | a cell that is off the board, visited or dead marks nothing and yields 0. Otherwise marks are only added; the returned size is the number of newly marked cells; the start cell is marked; every new mark is in its combination; no live neighbour of a new mark is left unmarked |
| Components.ExploreNeighbors | Life/Program.cs:215-226 | after the eight directions every live flood neighbour of the start cell is marked, and the size counts the marks added |
| Components.ExploredCombination | Life/Program.cs:192-200 | exploring an unmarked live cell from a closed marking marks exactly its combination; the combination is new and is counted iff it has more than one cell |
| Components.CountElements | Life/Program.cs:181-206 | `totalCells` is the number of live cells, `combinations` the number of combinations with more than one cell, and `2 * combinations <= totalCells` |
| TextController.SaveLife | Life/Program.cs:39-51 | one line per row, one character per column, '1' exactly for live cells and '0' otherwise |
| TextController.JoinLines | Life/Program.cs:43-50 | the written text is empty exactly when there are no lines |
| TextController.JoinedTextEndsWithNewline | Life/Program.cs:43-50 | the text of one or more written lines ends with a line break |
| TextController.JoinedLineBreaks | Life/Program.cs:43-50 | writing lines that contain no line break puts exactly one line break per line into the text |
| TextController.NewlineIndex | Life/Program.cs:55 | the position of the first line break, or the text length when there is none |
| TextController.ReadAllLines | Life/Program.cs:55 | the lines of a text contain no line break, and only the empty text has no lines |
| TextController.ReadJoinedLines | Life/Program.cs:39-55 | splitting the saved text gives back exactly the saved lines |
| TextController.JoinReadLines | Life/Program.cs:55 | re-joining the lines of a text gives the text back, with a final line break added when it had none |
| TextController.ReadLife | Life/Program.cs:53-66 | a cell covered by a character becomes alive exactly when that character is '1', so any other character reads as dead. Cells not covered, because of short lines or missing lines, keep their state |
| TextController.ReadSaved | Life/Program.cs:39-66 | reading saved lines into a board of the same size restores the saved board, whatever it held |
| TextController.ReadSavedFile | Life/Program.cs:39-66 | the same round trip through the file's text |
| TextController.SaveRead | Life/Program.cs:39-66 | saving the board read from saved lines writes the same lines |
| TextController.ReadIdempotent | Life/Program.cs:53-66 | reading the same lines twice gives the same board as reading them once |
| TextController.ReadForgetsBoard | Life/Program.cs:53-66 | lines covering the whole board determine the result regardless of the previous state |
| TextController.LoadFigure | Life/Program.cs:68-88 | an empty figure file fails with an index error. A figure wider than columns + 1 or taller than rows + 1 fails with an argument error, and no other does. A short line that lands on the board fails with an index error. On success only the figure's rectangle changes, each cell alive iff its character is '1', clipped at the board edges |
| TextController.DrawKeepsFigureOnBoard | Life/Program.cs:75-76 | an offset `Random.Next(0, extent - size + 1)` can return keeps a figure of `size` cells entirely within a board side of `extent` cells |
| TextController.LoadFittingFigure | Life/Program.cs:74-76 | a rectangular figure no bigger than the board always loads, and the random offset keeps it entirely on the board |
| TextController.LoadSavedBoard | Life/Program.cs:39-88 | loading a saved board as a figure onto a board of the same size reproduces it |

## Left out

- `Main`, `RunGameLoop`, `UpdateGame`, `Render`, `Click_handler`, `HandleFigureLoading`: console I/O, timing and key handling, with no logic of the core.
- `JSONController` and `LifeProperty`: configuration file reading.
- `Board.Randomize` and `Random`: the initial population is the `seed` parameter of `NewBoard`, and the two offsets `Load_figure` draws are the parameters `startX`, `startY`, constrained to what `Random.Next(0, max)` can return.
- The `Board`'s `double liveDensity` parameter: floating point, used only by `Randomize`.
- File handles: `SaveLife` returns the lines and `JoinLines` the text written; `ReadLife` and `LoadFigure` take the lines.
- TextController.ReadAllLines: splits on "\n" only; the runtime also treats "\r\n" and "\r" as line breaks, which `Save_life` never writes.
- TextController.ReadLife: C# measures and indexes a line in UTF-16 code units, the model in Unicode scalar values. A character outside the Basic Multilingual Plane covers two cells in the program and one in the model, shifting the later columns of that line; `Save_life` writes only '0' and '1'.
- TextController.LoadFigure: the figure width and the characters are likewise counted in UTF-16 code units by the program and in Unicode scalar values by the model, so the two differ for lines holding characters outside the Basic Multilingual Plane.
- TextController.LoadFigure: when a line is too short, the source has already changed some cells before it throws; the model returns only the error. Nothing catches the exception, so the program ends there.
- Board.Cells as mutable `Cell` objects with `neighbors` lists: cells are coordinates and neighbour lists are recomputed from them, which `WiringMatchesWrap` ties to the source's edge rules.
- Neighbors.FloodMatchesWiring: states that the two orders are the same members and gives the explicit reordering, not a multiset permutation statement.
- Components.CountElements: the fixed 6 x 6 examples of the unit tests (7 cells, 2 combinations) are not evaluated; the general theorem covers them.
- Components.CountElements: the `int` counters are unbounded. A board has at most 2^31 - 1 cells in each direction, so the count can exceed `int` only on boards far too large to allocate.
- Components.ExploreCombination: the neighbour index `(x + dx + Columns) % Columns` is a 32-bit sum. On a board of more than 2^30 columns or rows it can overflow near the far edge, C#'s `%` then gives a negative index and the program skips that neighbour; the model's unbounded sum never skips one.
- Components.ExploreCombination: deep recursion can exhaust the call stack on a large combination; the model has no stack limit.
- The pattern classifier, the stability detector and `plot_generation.py` are not part of this model.
