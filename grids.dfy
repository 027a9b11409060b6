/** Generations as values, and the Game of Life rule that the doc-comment of
    getNextGen promises, stated on those values. */
module Grids {
  import opened Cells

  /** A generation: a sequence of rows of cells (CELL[][]). */
  type Grid = seq<seq<Cell>>

  /** A position (row, column); positions off the grid are allowed. */
  type Pos = (int, int)

  /** The generation has `rows` rows, each of `cols` cells. */
  predicate Rectangular(g: Grid, rows: int, cols: int) {
    |g| == rows && forall i :: 0 <= i < |g| ==> |g[i]| == cols
  }

  predicate InBounds(g: Grid, row: int, col: int) {
    0 <= row < |g| && 0 <= col < |g[row]|
  }

  /** The cell at (row, col), where every position off the grid reads as Dead. */
  function CellAt(g: Grid, row: int, col: int): Cell {
    if InBounds(g, row, col) then g[row][col] else Dead
  }

  /** A loop `for (i = 0; i < n; ++i)` runs max(n, 0) times. */
  function NonNegative(n: int): nat {
    if n < 0 then 0 else n
  }

  /** The all-dead generation with `rows` rows of `cols` cells (none for a size below one). */
  function EmptyGrid(rows: int, cols: int): (e: Grid)
    ensures Rectangular(e, NonNegative(rows), NonNegative(cols))
    ensures forall i, j :: CellAt(e, i, j) == Dead
  {
    seq(NonNegative(rows), _ => seq(NonNegative(cols), _ => Dead))
  }

  /** The generation with the cell at (row, col) replaced by `state`. */
  function SetCell(g: Grid, row: int, col: int, state: Cell): (r: Grid)
    requires InBounds(g, row, col)
    ensures |r| == |g| && forall k :: 0 <= k < |g| ==> |r[k]| == |g[k]|
    ensures CellAt(r, row, col) == state
    ensures forall i, j :: (i, j) != (row, col) ==> CellAt(r, i, j) == CellAt(g, i, j)
  {
    g[row := g[row][col := state]]
  }

  /** Setting the same cell to the same state twice is the same as setting it once. */
  lemma SetCellIdempotent(g: Grid, row: int, col: int, state: Cell)
    requires InBounds(g, row, col)
    ensures SetCell(SetCell(g, row, col, state), row, col, state) == SetCell(g, row, col, state)
  {
    var once := SetCell(g, row, col, state);
    assert once[row][col := state] == once[row];
  }

  /** 1 for a live cell, 0 for a dead one. */
  function LiveCount(cell: Cell): nat {
    if IsCellAlive(cell) then 1 else 0
  }

  /** The positions at Chebyshev distance one from (row, col) holding a live cell. */
  function LiveNeighbourSet(g: Grid, row: int, col: int): set<Pos> {
    set i, j | row - 1 <= i <= row + 1 && col - 1 <= j <= col + 1 && (i, j) != (row, col)
                && IsCellAlive(CellAt(g, i, j)) :: (i, j)
  }

  /** The number of live neighbours of (row, col), off-grid positions counting as dead. */
  function LiveNeighbours(g: Grid, row: int, col: int): nat {
    |LiveNeighbourSet(g, row, col)|
  }

  /** 1 when position p holds a live cell, 0 otherwise. */
  function LiveCountAt(g: Grid, p: Pos): nat {
    LiveCount(CellAt(g, p.0, p.1))
  }

  /** The eight neighbours, one by one, in the order getLiveNeighboursCount visits them. */
  function NeighbourSum(g: Grid, row: int, col: int): nat {
    LiveCountAt(g, (row - 1, col - 1)) + LiveCountAt(g, (row - 1, col))
    + LiveCountAt(g, (row - 1, col + 1)) + LiveCountAt(g, (row, col - 1))
    + LiveCountAt(g, (row, col + 1)) + LiveCountAt(g, (row + 1, col - 1))
    + LiveCountAt(g, (row + 1, col)) + LiveCountAt(g, (row + 1, col + 1))
  }

  /** The eight neighbour positions of (row, col), in the order getLiveNeighboursCount
      visits them. */
  function Neighbourhood(row: int, col: int): seq<Pos> {
    [(row - 1, col - 1), (row - 1, col), (row - 1, col + 1), (row, col - 1),
     (row, col + 1), (row + 1, col - 1), (row + 1, col), (row + 1, col + 1)]
  }

  predicate Distinct(ps: seq<Pos>) {
    forall i, j :: 0 <= i < j < |ps| ==> ps[i] != ps[j]
  }

  /** The positions of ps[k..] holding a live cell. */
  function LiveFrom(g: Grid, ps: seq<Pos>, k: nat): set<Pos>
    requires k <= |ps|
  {
    set p | p in ps[k..] && IsCellAlive(CellAt(g, p.0, p.1))
  }

  /** The live counts of ps[k..], added one position at a time. */
  function CountFrom(g: Grid, ps: seq<Pos>, k: nat): nat
    requires k <= |ps|
    decreases |ps| - k
  {
    if k == |ps| then 0 else LiveCountAt(g, ps[k]) + CountFrom(g, ps, k + 1)
  }

  /** Over distinct positions, counting one at a time gives the number of live ones. */
  lemma {:induction false} LiveFromCount(g: Grid, ps: seq<Pos>, k: nat)
    requires Distinct(ps) && k <= |ps|
    ensures |LiveFrom(g, ps, k)| == CountFrom(g, ps, k)
    decreases |ps| - k
  {
    if k == |ps| {
      assert LiveFrom(g, ps, k) == {};
    } else {
      LiveFromCount(g, ps, k + 1);
      var here := if IsCellAlive(CellAt(g, ps[k].0, ps[k].1)) then {ps[k]} else {};
      assert ps[k..] == [ps[k]] + ps[k + 1..];
      assert LiveFrom(g, ps, k) == here + LiveFrom(g, ps, k + 1);
      assert ps[k] !in LiveFrom(g, ps, k + 1);
    }
  }

  /** Every live neighbour is a live position of the neighbourhood list. */
  lemma NeighboursListed(g: Grid, row: int, col: int)
    ensures LiveNeighbourSet(g, row, col) <= LiveFrom(g, Neighbourhood(row, col), 0)
  {
    var ps := Neighbourhood(row, col);
    assert ps[0..] == ps;
    forall p | p in LiveNeighbourSet(g, row, col) ensures p in LiveFrom(g, ps, 0) {
      assert p in ps;
    }
  }

  /** Every live position of the neighbourhood list is a live neighbour. */
  lemma ListedAreNeighbours(g: Grid, row: int, col: int)
    ensures LiveFrom(g, Neighbourhood(row, col), 0) <= LiveNeighbourSet(g, row, col)
  {
    var ps := Neighbourhood(row, col);
    assert ps[0..] == ps;
    forall p | p in LiveFrom(g, ps, 0) ensures p in LiveNeighbourSet(g, row, col) {
      assert p in ps;
    }
  }

  /** The live neighbours are the live positions of the neighbourhood list. */
  lemma NeighbourhoodLive(g: Grid, row: int, col: int)
    ensures LiveNeighbourSet(g, row, col) == LiveFrom(g, Neighbourhood(row, col), 0)
  {
    NeighboursListed(g, row, col);
    ListedAreNeighbours(g, row, col);
  }

  /** Adding up the neighbourhood list gives the eight-term sum. */
  lemma NeighbourhoodCount(g: Grid, row: int, col: int)
    ensures CountFrom(g, Neighbourhood(row, col), 0) == NeighbourSum(g, row, col)
  {
    var ps := Neighbourhood(row, col);
    assert CountFrom(g, ps, 8) == 0;
    assert CountFrom(g, ps, 7) == LiveCountAt(g, ps[7]);
    assert CountFrom(g, ps, 6) == LiveCountAt(g, ps[6]) + CountFrom(g, ps, 7);
    assert CountFrom(g, ps, 5) == LiveCountAt(g, ps[5]) + CountFrom(g, ps, 6);
    assert CountFrom(g, ps, 4) == LiveCountAt(g, ps[4]) + CountFrom(g, ps, 5);
    assert CountFrom(g, ps, 3) == LiveCountAt(g, ps[3]) + CountFrom(g, ps, 4);
    assert CountFrom(g, ps, 2) == LiveCountAt(g, ps[2]) + CountFrom(g, ps, 3);
    assert CountFrom(g, ps, 1) == LiveCountAt(g, ps[1]) + CountFrom(g, ps, 2);
  }

  /** Counting the eight neighbours one at a time gives the number of live neighbours. */
  lemma LiveNeighboursUnrolled(g: Grid, row: int, col: int)
    ensures LiveNeighbours(g, row, col) == NeighbourSum(g, row, col)
  {
    NeighbourhoodLive(g, row, col);
    NeighbourhoodCount(g, row, col);
    assert Distinct(Neighbourhood(row, col));
    LiveFromCount(g, Neighbourhood(row, col), 0);
  }

  /** A position has at most eight live neighbours. */
  lemma LiveNeighboursAtMostEight(g: Grid, row: int, col: int)
    ensures LiveNeighbours(g, row, col) <= 8
  {
    LiveNeighboursUnrolled(g, row, col);
  }

  /** A corner of a rectangular generation has at most three live neighbours, since five
      of its eight neighbours lie off the grid. */
  lemma CornerAtMostThree(g: Grid, rows: int, cols: int, row: int, col: int)
    requires Rectangular(g, rows, cols) && rows > 0 && cols > 0
    requires row == 0 || row == rows - 1
    requires col == 0 || col == cols - 1
    ensures LiveNeighbours(g, row, col) <= 3
  {
    LiveNeighboursUnrolled(g, row, col);
  }

  /** The state of (row, col) in the next generation according to the rules stated in the
      doc-comment of getNextGen: birth, else survival, else death. */
  function IntendedCell(g: Grid, row: int, col: int): Cell {
    var cell := CellAt(g, row, col);
    var n := LiveNeighbours(g, row, col);
    if ShouldDeadCellRevive(cell, n) then Live
    else if ShouldLiveCellSurvive(cell, n) then Live
    else Dead
  }

  /** The next generation according to the documented rules, of the dimensions
      getNextGen reads (gen.length rows of gen[0].length cells). */
  function IntendedNextGen(g: Grid): (next: Grid)
    requires |g| > 0
    ensures Rectangular(next, |g|, |g[0]|)
  {
    seq(|g|, i => seq(|g[0]|, j => IntendedCell(g, i, j)))
  }

  /** Each cell of the intended next generation is live exactly when it is born (dead
      with three live neighbours) or survives (live with two or three); in particular a
      live cell with fewer than two or more than three live neighbours dies. */
  lemma IntendedNextGenRule(g: Grid, row: int, col: int)
    requires |g| > 0 && 0 <= row < |g| && 0 <= col < |g[0]|
    ensures var n := LiveNeighbours(g, row, col);
      (IntendedNextGen(g)[row][col] == Live)
      <==> ((CellAt(g, row, col) == Dead && n == 3)
            || (CellAt(g, row, col) == Live && (n == 2 || n == 3)))
  {
    BirthAndSurvival(CellAt(g, row, col), LiveNeighbours(g, row, col));
  }
}
