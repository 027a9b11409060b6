/** The generation library of src/lib/gol.ts over mutable boards.

    A generation is a rectangular `array2<Cell>`: row `i`, column `j` is `gen[i, j]`.
    `Snapshot` gives its value as a `Grid`, on which the rules are stated. */
module Gol {
  import opened Cells
  import opened Grids

  /** The value of a board: its rows as sequences of cells. */
  ghost function Snapshot(gen: array2<Cell>): (g: Grid)
    reads gen
    ensures Rectangular(g, gen.Length0, gen.Length1)
    ensures forall i, j {:trigger g[i][j]} :: 0 <= i < gen.Length0 && 0 <= j < gen.Length1 ==> g[i][j] == gen[i, j]
  {
    seq(gen.Length0, i requires 0 <= i < gen.Length0 reads gen =>
      seq(gen.Length1, j requires 0 <= j < gen.Length1 reads gen => gen[i, j]))
  }

  /** A board whose cells agree one by one with a grid of its dimensions has that grid
      as its value. */
  lemma SnapshotIs(gen: array2<Cell>, g: Grid)
    requires Rectangular(g, gen.Length0, gen.Length1)
    requires forall i, j :: 0 <= i < gen.Length0 && 0 <= j < gen.Length1 ==> gen[i, j] == g[i][j]
    ensures Snapshot(gen) == g
  {
    var s := Snapshot(gen);
    forall i | 0 <= i < gen.Length0 ensures s[i] == g[i] {
    }
  }

  /** getCell: the cell at (row, col), or Dead for any position off the board, negative
      indices included; it never fails. */
  function GetCell(gen: array2<Cell>, row: int, col: int): (cell: Cell)
    reads gen
    ensures 0 <= row < gen.Length0 && 0 <= col < gen.Length1 ==> cell == gen[row, col]
    ensures !(0 <= row < gen.Length0 && 0 <= col < gen.Length1) ==> cell == Dead
  {
    if 0 <= row < gen.Length0 && 0 <= col < gen.Length1 then gen[row, col] else Dead
  }

  /** getCell on a board reads what Grids.CellAt reads on the board's value, at every
      position, on or off the board. */
  lemma GetCellIsCellAt(gen: array2<Cell>, row: int, col: int)
    ensures GetCell(gen, row, col) == CellAt(Snapshot(gen), row, col)
  {
    var g := Snapshot(gen);
    if 0 <= row < gen.Length0 && 0 <= col < gen.Length1 {
      assert g[row][col] == gen[row, col];
    }
  }

  /** buildEmptyGen: a new board of rowSize rows of colSize dead cells. */
  method BuildEmptyGen(rowSize: int, colSize: int) returns (gen: array2<Cell>)
    ensures fresh(gen)
    ensures gen.Length0 == NonNegative(rowSize) && gen.Length1 == NonNegative(colSize)
    ensures forall i, j :: 0 <= i < gen.Length0 && 0 <= j < gen.Length1 ==> gen[i, j] == Dead
    ensures Snapshot(gen) == EmptyGrid(rowSize, colSize)
  {
    var rows, cols := NonNegative(rowSize), NonNegative(colSize);
    gen := new Cell[rows, cols];
    for row := 0 to rows
      invariant forall i, j :: 0 <= i < row && 0 <= j < cols ==> gen[i, j] == Dead
    {
      for col := 0 to cols
        invariant forall i, j :: 0 <= i < row && 0 <= j < cols ==> gen[i, j] == Dead
        invariant forall j :: 0 <= j < col ==> gen[row, j] == Dead
      {
        gen[row, col] := Dead;
      }
    }
    SnapshotIs(gen, EmptyGrid(rowSize, colSize));
  }

  /** cloneGen: a new board with the dimensions and the cells of `gen`. The source reads
      gen[0].length, so the board needs a first row. */
  method CloneGen(gen: array2<Cell>) returns (newGen: array2<Cell>)
    requires gen.Length0 > 0
    ensures fresh(newGen)
    ensures newGen.Length0 == gen.Length0 && newGen.Length1 == gen.Length1
    ensures forall i, j :: 0 <= i < gen.Length0 && 0 <= j < gen.Length1 ==> newGen[i, j] == gen[i, j]
    ensures Snapshot(newGen) == Snapshot(gen)
  {
    var rowSize, colSize := gen.Length0, gen.Length1;
    newGen := new Cell[rowSize, colSize];
    for row := 0 to rowSize
      invariant forall i, j :: 0 <= i < row && 0 <= j < colSize ==> newGen[i, j] == gen[i, j]
    {
      for col := 0 to colSize
        invariant forall i, j :: 0 <= i < row && 0 <= j < colSize ==> newGen[i, j] == gen[i, j]
        invariant forall j :: 0 <= j < col ==> newGen[row, j] == gen[row, j]
      {
        newGen[row, col] := GetCell(gen, row, col);
      }
    }
    SnapshotIs(newGen, Snapshot(gen));
  }

  /** setGenState: writes `state` into (row, col) of `gen` itself, which must be on the
      board (the source would otherwise fail or grow a row). */
  method SetGenState(gen: array2<Cell>, row: int, col: int, state: Cell)
    requires 0 <= row < gen.Length0 && 0 <= col < gen.Length1
    modifies gen
    ensures forall i, j :: 0 <= i < gen.Length0 && 0 <= j < gen.Length1 ==>
      gen[i, j] == if (i, j) == (row, col) then state else old(gen[i, j])
    ensures Snapshot(gen) == SetCell(old(Snapshot(gen)), row, col, state)
  {
    ghost var before := Snapshot(gen);
    gen[row, col] := state;
    SnapshotIs(gen, SetCell(before, row, col, state));
  }

  /** killCell: a new board equal to `gen` except that (row, col) is Dead; `gen` itself
      is left as it was. */
  method KillCell(gen: array2<Cell>, row: int, col: int) returns (newGen: array2<Cell>)
    requires 0 <= row < gen.Length0 && 0 <= col < gen.Length1
    ensures fresh(newGen)
    ensures newGen.Length0 == gen.Length0 && newGen.Length1 == gen.Length1
    ensures forall i, j :: 0 <= i < gen.Length0 && 0 <= j < gen.Length1 ==>
      newGen[i, j] == if (i, j) == (row, col) then Dead else gen[i, j]
    ensures Snapshot(newGen) == SetCell(Snapshot(gen), row, col, Dead)
  {
    newGen := CloneGen(gen);
    SetGenState(newGen, row, col, Dead);
  }

  /** reviveCell: a new board equal to `gen` except that (row, col) is Live; `gen` itself
      is left as it was. */
  method ReviveCell(gen: array2<Cell>, row: int, col: int) returns (newGen: array2<Cell>)
    requires 0 <= row < gen.Length0 && 0 <= col < gen.Length1
    ensures fresh(newGen)
    ensures newGen.Length0 == gen.Length0 && newGen.Length1 == gen.Length1
    ensures forall i, j :: 0 <= i < gen.Length0 && 0 <= j < gen.Length1 ==>
      newGen[i, j] == if (i, j) == (row, col) then Live else gen[i, j]
    ensures Snapshot(newGen) == SetCell(Snapshot(gen), row, col, Live)
  {
    newGen := CloneGen(gen);
    SetGenState(newGen, row, col, Live);
  }

  /** The live neighbours of a board's cell, read one at a time through getCell. */
  lemma BoardLiveNeighbours(gen: array2<Cell>, row: int, col: int)
    ensures LiveNeighbours(Snapshot(gen), row, col)
         == LiveCount(GetCell(gen, row - 1, col - 1)) + LiveCount(GetCell(gen, row - 1, col))
          + LiveCount(GetCell(gen, row - 1, col + 1)) + LiveCount(GetCell(gen, row, col - 1))
          + LiveCount(GetCell(gen, row, col + 1)) + LiveCount(GetCell(gen, row + 1, col - 1))
          + LiveCount(GetCell(gen, row + 1, col)) + LiveCount(GetCell(gen, row + 1, col + 1))
  {
    LiveNeighboursUnrolled(Snapshot(gen), row, col);
  }

  /** getLiveNeighboursCount: visits the eight neighbours of (row, col) and counts the
      live ones; the count is the number of live neighbours, off-board ones being dead. */
  method GetLiveNeighboursCount(gen: array2<Cell>, row: int, col: int) returns (liveNeighbourCount: int)
    ensures liveNeighbourCount == LiveNeighbours(Snapshot(gen), row, col)
  {
    liveNeighbourCount := 0;

    var topLeftNeighbour := GetCell(gen, row - 1, col - 1);
    if IsCellAlive(topLeftNeighbour) {
      liveNeighbourCount := liveNeighbourCount + 1;
    }

    var topNeighbour := GetCell(gen, row - 1, col);
    if IsCellAlive(topNeighbour) {
      liveNeighbourCount := liveNeighbourCount + 1;
    }

    var topRightNeighbour := GetCell(gen, row - 1, col + 1);
    if IsCellAlive(topRightNeighbour) {
      liveNeighbourCount := liveNeighbourCount + 1;
    }

    var leftNeighbour := GetCell(gen, row, col - 1);
    if IsCellAlive(leftNeighbour) {
      liveNeighbourCount := liveNeighbourCount + 1;
    }

    var rightNeighbour := GetCell(gen, row, col + 1);
    if IsCellAlive(rightNeighbour) {
      liveNeighbourCount := liveNeighbourCount + 1;
    }

    var bottomLeftNeighbour := GetCell(gen, row + 1, col - 1);
    if IsCellAlive(bottomLeftNeighbour) {
      liveNeighbourCount := liveNeighbourCount + 1;
    }

    var bottomNeighbour := GetCell(gen, row + 1, col);
    if IsCellAlive(bottomNeighbour) {
      liveNeighbourCount := liveNeighbourCount + 1;
    }

    var bottomRightNeighbour := GetCell(gen, row + 1, col + 1);
    if IsCellAlive(bottomRightNeighbour) {
      liveNeighbourCount := liveNeighbourCount + 1;
    }

    BoardLiveNeighbours(gen, row, col);
  }

  /** getNextGen as written. Every call to reviveCell and killCell returns a fresh copy
      that is thrown away, so `nextGen` keeps the contents buildEmptyGen gave it: the
      result is the all-dead board of the same dimensions, whatever `gen` holds. The
      source reads gen[0].length, so the board needs a first row; `gen` is not modified. */
  method GetNextGen(gen: array2<Cell>) returns (nextGen: array2<Cell>)
    requires gen.Length0 > 0
    ensures fresh(nextGen)
    ensures nextGen.Length0 == gen.Length0 && nextGen.Length1 == gen.Length1
    ensures Snapshot(nextGen) == EmptyGrid(gen.Length0, gen.Length1)
  {
    var rowSize, colSize := gen.Length0, gen.Length1;
    nextGen := BuildEmptyGen(rowSize, colSize);

    for row := 0 to rowSize
      invariant nextGen.Length0 == rowSize && nextGen.Length1 == colSize
      invariant Snapshot(nextGen) == EmptyGrid(rowSize, colSize)
    {
      for col := 0 to colSize
        invariant nextGen.Length0 == rowSize && nextGen.Length1 == colSize
        invariant Snapshot(nextGen) == EmptyGrid(rowSize, colSize)
      {
        var currentCell := GetCell(gen, row, col);
        var liveNeighboursCount := GetLiveNeighboursCount(gen, row, col);

        if ShouldDeadCellRevive(currentCell, liveNeighboursCount) {
          var _ := ReviveCell(nextGen, row, col);
          continue;
        }

        if ShouldLiveCellSurvive(currentCell, liveNeighboursCount) {
          var _ := ReviveCell(nextGen, row, col);
          continue;
        }

        var _ := KillCell(nextGen, row, col);
      }
    }
  }

  /** getNextGen with the boards returned by reviveCell and killCell kept: the next
      generation under the rules of the doc-comment, computed from `gen` alone (which
      is not modified) into a separate board. */
  method GetNextGenCorrected(gen: array2<Cell>) returns (nextGen: array2<Cell>)
    requires gen.Length0 > 0
    ensures fresh(nextGen)
    ensures nextGen.Length0 == gen.Length0 && nextGen.Length1 == gen.Length1
    ensures Snapshot(nextGen) == IntendedNextGen(Snapshot(gen))
  {
    var rowSize, colSize := gen.Length0, gen.Length1;
    ghost var current := Snapshot(gen);
    nextGen := BuildEmptyGen(rowSize, colSize);

    for row := 0 to rowSize
      invariant fresh(nextGen)
      invariant nextGen.Length0 == rowSize && nextGen.Length1 == colSize
      invariant forall i, j :: 0 <= i < rowSize && 0 <= j < colSize ==>
        nextGen[i, j] == if i < row then IntendedCell(current, i, j) else Dead
    {
      for col := 0 to colSize
        invariant fresh(nextGen)
        invariant nextGen.Length0 == rowSize && nextGen.Length1 == colSize
        invariant forall i, j :: 0 <= i < rowSize && 0 <= j < colSize ==>
          nextGen[i, j] == if i < row || (i == row && j < col) then IntendedCell(current, i, j) else Dead
      {
        var currentCell := GetCell(gen, row, col);
        var liveNeighboursCount := GetLiveNeighboursCount(gen, row, col);

        if ShouldDeadCellRevive(currentCell, liveNeighboursCount) {
          nextGen := ReviveCell(nextGen, row, col);
          continue;
        }

        if ShouldLiveCellSurvive(currentCell, liveNeighboursCount) {
          nextGen := ReviveCell(nextGen, row, col);
          continue;
        }

        nextGen := KillCell(nextGen, row, col);
      }
    }
    SnapshotIs(nextGen, IntendedNextGen(current));
  }
}
