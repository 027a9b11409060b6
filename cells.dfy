/** Cell values and the per-cell predicates of the generation library. */
module Cells {

  /** The two values of a cell of a generation (the CELL enumeration). */
  datatype Cell = Dead | Live

  /** isCellDead: the cell is the dead value. */
  predicate IsCellDead(cell: Cell) {
    cell == Dead
  }

  /** isCellAlive: defined in the source as the negation of isCellDead. */
  predicate IsCellAlive(cell: Cell) {
    !IsCellDead(cell)
  }

  /** The two liveness predicates are exact complements, and "alive" means Live. */
  lemma LivenessComplement(cell: Cell)
    ensures IsCellAlive(cell) != IsCellDead(cell)
    ensures IsCellAlive(cell) <==> cell == Live
  {
  }

  /** shouldDeadCellRevive: birth of a dead cell with exactly three live neighbours. */
  predicate ShouldDeadCellRevive(cell: Cell, liveNeighbours: int) {
    IsCellDead(cell) && liveNeighbours == 3
  }

  /** shouldLiveCellSurvive: survival of a live cell with two or three live neighbours. */
  predicate ShouldLiveCellSurvive(cell: Cell, liveNeighbours: int) {
    IsCellAlive(cell) && (liveNeighbours == 2 || liveNeighbours == 3)
  }

  /** Birth and survival never both apply; together they hold exactly for a dead cell
      with three live neighbours or a live cell with two or three. */
  lemma BirthAndSurvival(cell: Cell, liveNeighbours: int)
    ensures !(ShouldDeadCellRevive(cell, liveNeighbours) && ShouldLiveCellSurvive(cell, liveNeighbours))
    ensures (ShouldDeadCellRevive(cell, liveNeighbours) || ShouldLiveCellSurvive(cell, liveNeighbours))
        <==> ((cell == Dead && liveNeighbours == 3)
              || (cell == Live && (liveNeighbours == 2 || liveNeighbours == 3)))
  {
  }
}
