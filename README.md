# Game of Life generation library, modelled in Dafny

This project models `src/lib/gol.ts` of the gameoflife web application. That file is the
library behind the "next generation" button. It stores a generation as a rectangular board
of cells, each `DEAD` or `LIVE`. It builds empty boards, copies boards, reads a cell
(positions off the board read as dead), and sets one cell in place or on a copy. It counts a
cell's eight neighbours and computes the next generation under Conway's rules as stated in
the doc-comment of `getNextGen`.

The model has four modules:

- `Cells` (cells.dfy): the cell values and the pure predicates `isCellDead`,
  `isCellAlive`, `shouldDeadCellRevive` and `shouldLiveCellSurvive`.
- `Grids` (grids.dfy): generations as values (`Grid = seq<seq<Cell>>`). It defines the
  off-board read `CellAt`, the all-dead generation, and a single-cell update. The
  live-neighbour count is defined independently as the size of the set of live positions
  at Chebyshev distance one. `IntendedNextGen` states the documented rule.
- `Gol` (gol.dfy): the library's functions over mutable boards (`array2<Cell>`), with
  `for` loops where the source has them. `setGenState` writes into its argument, and
  `cloneGen`, `killCell` and `reviveCell` return fresh boards. The ghost function
  `Snapshot` gives a board's value as a `Grid`, and each method is proved against the
  `Grids` functions through it. `killCell` and `reviveCell` have no `modifies` clause, so
  the verifier checks that they leave their argument untouched.
- `Patterns` (patterns.dfy): concrete generations. Under the documented rule a block is a
  still life and a glider moves one step. `getNextGen` as written loses the block.

The source's `getNextGen` does not do what its doc-comment says: it returns an all-dead
board whatever its input (see "## Findings"). `Gol.GetNextGen` models the code as written,
and that behaviour is its proved postcondition. `Gol.GetNextGenCorrected` keeps the boards
that `reviveCell` and `killCell` return, and is proved to compute the documented rule.

## Model

| member | source | states |
|---|---|---|
| Cells.LivenessComplement | src/lib/gol.ts:172-182 | about the predicates Cells.IsCellDead (isCellDead) and Cells.IsCellAlive (isCellAlive): isCellAlive is exactly the negation of isCellDead, and a cell is alive exactly when it is `Live` |
| Cells.BirthAndSurvival | src/lib/gol.ts:92-104 | about the predicates Cells.ShouldDeadCellRevive (shouldDeadCellRevive, birth) and Cells.ShouldLiveCellSurvive (shouldLiveCellSurvive, survival): birth and survival never both hold; their disjunction holds exactly for a dead cell with 3 live neighbours or a live cell with 2 or 3 |
| Grids.EmptyGrid | src/lib/gol.ts:50-63 | the empty generation has max(rowSize, 0) rows of max(colSize, 0) cells, and every position, on or off the board, reads as Dead |
| Grids.SetCell | src/lib/gol.ts:114-116 | after the update the target position holds the new state, every other position holds what it held before, and all row lengths are kept |
| Grids.SetCellIdempotent | src/lib/gol.ts:124-140 | setting the same cell to the same state twice gives the same generation as setting it once (so reviving or killing twice is the same as once) |
| Grids.LiveFromCount | src/lib/gol.ts:190-234 | over a list of distinct positions, adding up the live ones one at a time gives the number of live positions in the list |
| Grids.LiveNeighboursUnrolled | src/lib/gol.ts:190-234 | the number of live cells at Chebyshev distance one equals the sum of the eight neighbours visited in the source's order, off-board neighbours counting as dead |
| Grids.LiveNeighboursAtMostEight | src/lib/gol.ts:190-234 | a position has at most 8 live neighbours |
| Grids.CornerAtMostThree | src/lib/gol.ts:190-234 | a corner of a rectangular board has at most 3 live neighbours, since five of its neighbours are off the board |
| Grids.IntendedNextGen | src/lib/gol.ts:3-18 | the documented next generation has the dimensions getNextGen reads: gen.length rows of gen[0].length cells |
| Grids.IntendedNextGenRule | src/lib/gol.ts:8-12 | in the documented next generation a cell is live exactly when it is dead with 3 live neighbours or live with 2 or 3; every other cell is dead |
| Gol.GetCell | src/lib/gol.ts:150-152 | an on-board position yields the stored cell; any other position, negative ones included, yields Dead; the function never fails |
| Gol.GetCellIsCellAt | src/lib/gol.ts:150-152 | getCell on a board agrees at every position, negative and off-board ones included, with Grids.CellAt (getCell on generation values: the stored cell on the grid, Dead elsewhere) applied to the board's value |
| Gol.BuildEmptyGen | src/lib/gol.ts:50-63 | a fresh board of max(rowSize, 0) by max(colSize, 0) cells, every one Dead, whose value is the empty generation |
| Gol.CloneGen | src/lib/gol.ts:69-84 | for a board with at least one row: a fresh board of the same dimensions that matches the input cell by cell |
| Gol.SetGenState | src/lib/gol.ts:114-116 | the board itself is changed: the target cell gets the state, every other cell keeps its value |
| Gol.KillCell | src/lib/gol.ts:124-128 | a fresh board of the same dimensions equal to the input except that the target is Dead; the input is not modified |
| Gol.ReviveCell | src/lib/gol.ts:136-140 | a fresh board of the same dimensions equal to the input except that the target is Live; the input is not modified |
| Gol.BoardLiveNeighbours | src/lib/gol.ts:190-234 | a board cell's number of live neighbours is the sum of the eight getCell reads, each counted 1 when alive |
| Gol.GetLiveNeighboursCount | src/lib/gol.ts:190-234 | the count returned is the number of live cells among the eight neighbours of the board's value |
| Gol.GetNextGen | src/lib/gol.ts:16-43 | as written: for a board with at least one row, the result has the input's dimensions and every cell Dead, whatever the input holds; the input is not modified |
| Gol.GetNextGenCorrected | src/lib/gol.ts:3-43 | with the returned boards kept: the result has the input's dimensions and is the documented next generation of the input; the input is not modified |
| Patterns.BoardStep | src/lib/gol.ts:8-12 | on a board built from a pattern, the documented rule at any position can be read off the pattern's live positions |
| Patterns.BoardNext | src/lib/gol.ts:8-12 | if the rule turns each cell of pattern p into the matching cell of pattern q, the documented next generation of p's board is q's board |
| Patterns.BlockCells | src/lib/gol.ts:8-12 | each of the 16 cells of the 4x4 board holding a block keeps its state under the rule |
| Patterns.BlockIsStillLife | src/lib/gol.ts:8-12 | a 2x2 block with a dead border is unchanged by the documented rule |
| Patterns.GliderSteps | src/lib/gol.ts:8-12 | the glider at (0,1), (1,2), (2,0), (2,1), (2,2) of a 5x5 board becomes live cells exactly at (1,0), (1,2), (2,1), (2,2), (3,1) |
| Patterns.BlockLostAsWritten | src/lib/gol.ts:27-38 | the all-dead board that getNextGen returns differs from the documented next generation of the block |
| Patterns.BlockStepAsWritten | src/lib/gol.ts:16-43 | getNextGen as written, applied to a board holding the block, returns the all-dead board, which is not the documented next generation |
| Patterns.BlockStepCorrected | src/lib/gol.ts:16-43 | the corrected getNextGen, applied to a board holding the block, returns the block |

## Left out

- `printGeneration` writes to the console; console output is not modelled.
- The React application and its components (`App`, `Grid`, `GridSize`, `Toolbar`,
  `NextGenBtn`, `ClearBtn`) are not part of this model.
- Board representation: the source's boards are JavaScript arrays of arrays. The model
  uses `array2`, which cannot be jagged, and whose rows cannot alias one another.
- Positions are integers. Non-integer, `NaN` or non-numeric indices, and `getCell` on an
  `undefined` board (which `?.` and `??` would also map to `DEAD`), are not modelled.
- `getDeadCell` and `getLiveCell` are the constructors `Dead` and `Live`. `CELL` comes from
  the constants module, which is not part of this model; only its two values are used.
- `buildEmptyGen` and `cloneGen` fill each row with `push`. The model allocates the board
  first and then writes every cell in the same nested-loop order.
- Gol.SetGenState, Gol.KillCell, Gol.ReviveCell: require an on-board target. For a row
  past the end or a negative row, the source throws a TypeError, because that row is
  `undefined`. For a column past the end, it grows that row sparsely. For a negative
  column, it stores the state under a property such as "-1", which `getCell` then reads
  back. None of these cases is modelled.
- Gol.GetNextGen, Gol.CloneGen: require at least one row. On an empty board the source
  reads `gen[0].length` and throws.
- Gol.GetLiveNeighboursCount: the bound of at most 8 is not in the method's contract. It
  follows from its postcondition by Grids.LiveNeighboursAtMostEight.
- Underpopulation and overpopulation (a lone cell dying, a crowded cell dying) are proved
  for all boards by Grids.IntendedNextGenRule. No concrete board is worked through for them.

## Findings

| source | as written | input that shows it | evidently intended | confidence | as-written member | corrected member |
|---|---|---|---|---|---|---|
| src/lib/gol.ts:28-38 | `reviveCell(nextGen, row, col)` and `killCell(nextGen, row, col)` return a modified copy that is thrown away, so `nextGen` stays as `buildEmptyGen` made it and getNextGen always returns an all-dead board | a 4x4 board holding a 2x2 block at rows 1-2, columns 1-2: the result is all dead, while the documented rules keep the block | `nextGen` declared with `let` and reassigned: `nextGen = reviveCell(nextGen, row, col)`, and likewise for `killCell`, giving the documented next generation | not executed | Gol.GetNextGen, Patterns.BlockStepAsWritten | Gol.GetNextGenCorrected |

The doc-comment of `getNextGen` (src/lib/gol.ts:3-15) promises Conway's rules, but the
code returns an all-dead board. The model follows the code in `Gol.GetNextGen` and states
the promised rule separately.
