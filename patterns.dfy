/** Concrete generations: the block still life and the glider step that the documented
    rules promise, and what getNextGen as written does to the block. */
module Patterns {
  import opened Cells
  import opened Grids
  import opened Gol

  /** The patterns used below, each given by the positions of its live cells. */
  datatype Pattern = Block | Glider | GliderMoved

  /** The position (i, j) holds a live cell of pattern p. */
  predicate LiveIn(p: Pattern, i: int, j: int) {
    match p
    // a 2x2 block of live cells, with a border of dead cells on a 4x4 board
    case Block => 1 <= i <= 2 && 1 <= j <= 2
    // a glider, and the same glider one generation later
    case Glider => (i == 0 && j == 1) || (i == 1 && j == 2) || (i == 2 && 0 <= j <= 2)
    case GliderMoved => (i == 1 && (j == 0 || j == 2)) || (i == 2 && 1 <= j <= 2) || (i == 3 && j == 1)
  }

  /** The rows x cols generation holding pattern p. */
  function Board(p: Pattern, rows: nat, cols: nat): (g: Grid)
    ensures Rectangular(g, rows, cols)
    ensures forall i, j :: 0 <= i < rows && 0 <= j < cols ==> g[i][j] == (if LiveIn(p, i, j) then Live else Dead)
  {
    seq(rows, i => seq(cols, j => if LiveIn(p, i, j) then Live else Dead))
  }

  /** 1 when (i, j) lies on the rows x cols board and holds a live cell of p, 0 otherwise. */
  function LiveOn(p: Pattern, rows: nat, cols: nat, i: int, j: int): nat {
    if 0 <= i < rows && 0 <= j < cols && LiveIn(p, i, j) then 1 else 0
  }

  /** The documented rule at (i, j) of Board(p, rows, cols), with the cell and its eight
      neighbours read off the pattern. */
  predicate LiveNextOn(p: Pattern, rows: nat, cols: nat, i: int, j: int) {
    var alive := 0 <= i < rows && 0 <= j < cols && LiveIn(p, i, j);
    var n := LiveOn(p, rows, cols, i - 1, j - 1) + LiveOn(p, rows, cols, i - 1, j)
           + LiveOn(p, rows, cols, i - 1, j + 1) + LiveOn(p, rows, cols, i, j - 1)
           + LiveOn(p, rows, cols, i, j + 1) + LiveOn(p, rows, cols, i + 1, j - 1)
           + LiveOn(p, rows, cols, i + 1, j) + LiveOn(p, rows, cols, i + 1, j + 1);
    (!alive && n == 3) || (alive && (n == 2 || n == 3))
  }

  /** On a pattern board the documented rule can be read off the pattern. */
  lemma BoardStep(p: Pattern, rows: nat, cols: nat, i: int, j: int)
    ensures IntendedCell(Board(p, rows, cols), i, j) == if LiveNextOn(p, rows, cols, i, j) then Live else Dead
  {
    var g := Board(p, rows, cols);
    LiveNeighboursUnrolled(g, i, j);
    assert forall a, b :: LiveCountAt(g, (a, b)) == LiveOn(p, rows, cols, a, b);
  }

  /** When the rule turns every cell of pattern p into the corresponding cell of pattern q,
      the documented next generation of p's board is q's board. */
  lemma BoardNext(p: Pattern, q: Pattern, rows: nat, cols: nat)
    requires rows > 0
    requires forall i, j :: 0 <= i < rows && 0 <= j < cols ==> LiveNextOn(p, rows, cols, i, j) == LiveIn(q, i, j)
    ensures IntendedNextGen(Board(p, rows, cols)) == Board(q, rows, cols)
  {
    var g, h := Board(p, rows, cols), Board(q, rows, cols);
    forall i, j | 0 <= i < rows && 0 <= j < cols ensures IntendedNextGen(g)[i][j] == h[i][j] {
      BoardStep(p, rows, cols, i, j);
    }
    assert forall i :: 0 <= i < rows ==> IntendedNextGen(g)[i] == h[i];
  }

  /** Each cell of the block's board is kept by the rule, taken one cell at a time. */
  lemma BlockCells(i: int, j: int)
    requires 0 <= i < 4 && 0 <= j < 4
    ensures LiveNextOn(Block, 4, 4, i, j) == LiveIn(Block, i, j)
  {
    if i == 0 {
      if j == 0 { } else if j == 1 { } else if j == 2 { } else if j == 3 { }
    } else if i == 1 {
      if j == 0 { } else if j == 1 { } else if j == 2 { } else if j == 3 { }
    } else if i == 2 {
      if j == 0 { } else if j == 1 { } else if j == 2 { } else if j == 3 { }
    } else if i == 3 {
      if j == 0 { } else if j == 1 { } else if j == 2 { } else if j == 3 { }
    }
  }

  /** Under the documented rules a block is a still life: each block cell has three live
      neighbours and survives, and no dead cell around it has exactly three. */
  lemma BlockIsStillLife()
    ensures IntendedNextGen(Board(Block, 4, 4)) == Board(Block, 4, 4)
  {
    forall i, j | 0 <= i < 4 && 0 <= j < 4 ensures LiveNextOn(Block, 4, 4, i, j) == LiveIn(Block, i, j) {
      BlockCells(i, j);
    }
    BoardNext(Block, Block, 4, 4);
  }

  /** Under the documented rules the glider moves one step down and to the side. */
  lemma GliderSteps()
    ensures IntendedNextGen(Board(Glider, 5, 5)) == Board(GliderMoved, 5, 5)
  {
    BoardNext(Glider, GliderMoved, 5, 5);
  }

  /** The all-dead board that getNextGen as written returns is not what the documented
      rules give for the block. */
  lemma BlockLostAsWritten()
    ensures IntendedNextGen(Board(Block, 4, 4)) != EmptyGrid(4, 4)
  {
    BlockIsStillLife();
    assert Board(Block, 4, 4)[1][1] == Live;
  }

  /** A 4x4 board holding the block. */
  method NewBlockBoard() returns (gen: array2<Cell>)
    ensures fresh(gen)
    ensures Snapshot(gen) == Board(Block, 4, 4)
  {
    gen := new Cell[4, 4]((i, j) => if 1 <= i <= 2 && 1 <= j <= 2 then Live else Dead);
    SnapshotIs(gen, Board(Block, 4, 4));
  }

  /** Stepping the block with getNextGen as written: the block disappears although the
      documented rules keep it. */
  method BlockStepAsWritten() returns (gen: array2<Cell>, next: array2<Cell>)
    ensures Snapshot(gen) == Board(Block, 4, 4)
    ensures Snapshot(next) == EmptyGrid(4, 4)
    ensures Snapshot(next) != IntendedNextGen(Snapshot(gen))
  {
    gen := NewBlockBoard();
    next := GetNextGen(gen);
    BlockLostAsWritten();
  }

  /** Stepping the block with the corrected getNextGen keeps it. */
  method BlockStepCorrected() returns (gen: array2<Cell>, next: array2<Cell>)
    ensures Snapshot(gen) == Board(Block, 4, 4)
    ensures Snapshot(next) == Board(Block, 4, 4)
  {
    gen := NewBlockBoard();
    next := GetNextGenCorrected(gen);
    BlockIsStillLife();
  }
}
