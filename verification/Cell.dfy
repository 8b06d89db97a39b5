/** One grid cell and its operations. The source's Cell object is modelled as
    a record value; the game keeps these records in a 2D array and writes an
    updated record back where the source mutates the object's fields. */
module Cells {

  import opened CellStates
  import Moore

  /** Pixel position and size, grid position, state, the number of
      generations the cell has been alive, and its fill colour. */
  datatype Cell = Cell(x: int, y: int, size: int, row: int, column: int,
                       state: CellState, numLives: int, r: int, g: int, b: int)

  /** handleClick: an alive cell becomes dead, a cell in any other state
      becomes alive. */
  function HandleClick(c: Cell): (c': Cell)
    ensures Settled(c'.state)
    ensures (c'.state == Alive) <==> (c.state != Alive)
    ensures c' == c.(state := c'.state)
  {
    if c.state == Alive then c.(state := Dead) else c.(state := Alive)
  }

  /** Two clicks on a settled cell give back the original cell. */
  lemma HandleClickTwice(c: Cell)
    requires Settled(c.state)
    ensures HandleClick(HandleClick(c)) == c
  {
  }

  /** evolve: resolves a fate state; every generation the cell ends alive
      adds one to numLives. */
  function Evolve(c: Cell): (c': Cell)
    ensures Settled(c'.state)
    ensures (c'.state == Alive) <==> (c.state == Alive || c.state == WillRevive)
    ensures c'.numLives == c.numLives + (if c'.state == Alive then 1 else 0)
    ensures c' == c.(state := c'.state, numLives := c'.numLives)
  {
    match c.state
    case WillRevive => c.(state := Alive, numLives := c.numLives + 1)
    case WillDie => c.(state := Dead)
    case Alive => c.(numLives := c.numLives + 1)
    case Dead => c
  }

  /** history: the fill darkens by 20 per generation alive, with no clamping;
      a cell never alive is black. */
  function History(c: Cell): (c': Cell)
    ensures c' == c.(r := c'.r, g := c'.g, b := c'.b)
    ensures c.numLives <= 0 ==> c'.r == 0 && c'.g == 0 && c'.b == 0
    ensures c.numLives > 0 ==> c'.r == 230 - 20 * c.numLives &&
                               c'.g == 205 - 20 * c.numLives &&
                               c'.b == 215 - 20 * c.numLives
  {
    if c.numLives > 0 then
      c.(r := 230 - c.numLives * 20, g := 205 - c.numLives * 20, b := 215 - c.numLives * 20)
    else
      c.(r := 0, g := 0, b := 0)
  }

  /** The longer a cell has lived, the darker every component. */
  lemma HistoryDarkens(c: Cell, d: Cell)
    requires 0 < c.numLives < d.numLives
    ensures History(d).r < History(c).r && History(d).g < History(c).g && History(d).b < History(c).b
  {
  }

  /** With no clamping, green and blue go negative from eleven generations
      alive on, red from twelve on. */
  lemma HistoryNegative(c: Cell)
    ensures History(c).g < 0 <==> c.numLives >= 11
    ensures History(c).b < 0 <==> c.numLives >= 11
    ensures History(c).r < 0 <==> c.numLives >= 12
  {
  }

  // ---------------------------------------------------------------------
  // Grids as values, and the neighbour count over them
  // ---------------------------------------------------------------------

  type Grid = seq<seq<Cell>>

  /** Width of a grid, read from its first row as the source does. */
  function Cols(g: Grid): nat
  {
    if |g| == 0 then 0 else |g[0]|
  }

  predicate Rectangular(g: Grid)
  {
    forall i :: 0 <= i < |g| ==> |g[i]| == Cols(g)
  }

  /** Every cell records its own position. */
  predicate Positioned(g: Grid)
  {
    forall i, j :: 0 <= i < |g| && 0 <= j < |g[i]| ==> g[i][j].row == i && g[i][j].column == j
  }

  predicate WellFormed(g: Grid)
  {
    Rectangular(g) && Positioned(g)
  }

  /** Rows 1..rows-2 and columns 1..cols-2: the cells the step updates. */
  predicate Interior(rows: int, cols: int, i: int, j: int)
  {
    1 <= i < rows - 1 && 1 <= j < cols - 1
  }

  function Live(c: Cell): nat
  {
    if WasAlive(c.state) then 1 else 0
  }

  /** Live cells of `row` in columns [lo, hi). */
  function CountRow(row: seq<Cell>, lo: int, hi: int): nat
    requires 0 <= lo <= hi <= |row|
    decreases hi - lo
  {
    if lo == hi then 0 else CountRow(row, lo, hi - 1) + Live(row[hi - 1])
  }

  /** Live cells in rows [rlo, rhi) and columns [clo, chi). */
  function CountBlock(g: Grid, rlo: int, rhi: int, clo: int, chi: int): nat
    requires 0 <= rlo <= rhi <= |g| && 0 <= clo <= chi
    requires forall i :: rlo <= i < rhi ==> chi <= |g[i]|
    decreases rhi - rlo
  {
    if rlo == rhi then 0 else CountBlock(g, rlo, rhi - 1, clo, chi) + CountRow(g[rhi - 1], clo, chi)
  }

  /** countLiveNeighbors: live cells in the 3x3 block around (row, col), less
      one when the counting cell, in state `own`, is ALIVE. */
  function LiveNeighbors(g: Grid, row: int, col: int, own: CellState): int
    requires Rectangular(g) && Interior(|g|, Cols(g), row, col)
  {
    CountBlock(g, row - 1, row + 2, col - 1, col + 2) - (if own == Alive then 1 else 0)
  }

  /** Reference count: the eight Moore neighbours, the centre left out. */
  function MooreCount(g: Grid, row: int, col: int): nat
    requires Rectangular(g) && Interior(|g|, Cols(g), row, col)
  {
    Live(g[row - 1][col - 1]) + Live(g[row - 1][col]) + Live(g[row - 1][col + 1]) +
    Live(g[row][col - 1]) + Live(g[row][col + 1]) +
    Live(g[row + 1][col - 1]) + Live(g[row + 1][col]) + Live(g[row + 1][col + 1])
  }

  lemma CountRowOfThree(row: seq<Cell>, col: int)
    requires 1 <= col && col + 1 < |row|
    ensures CountRow(row, col - 1, col + 2) == Live(row[col - 1]) + Live(row[col]) + Live(row[col + 1])
  {
    assert CountRow(row, col - 1, col) == Live(row[col - 1]);
    assert CountRow(row, col - 1, col + 1) == Live(row[col - 1]) + Live(row[col]);
  }

  lemma CountBlockOfThree(g: Grid, row: int, col: int)
    requires Rectangular(g) && Interior(|g|, Cols(g), row, col)
    ensures CountBlock(g, row - 1, row + 2, col - 1, col + 2) ==
            CountRow(g[row - 1], col - 1, col + 2) + CountRow(g[row], col - 1, col + 2) +
            CountRow(g[row + 1], col - 1, col + 2)
  {
    assert CountBlock(g, row - 1, row, col - 1, col + 2) == CountRow(g[row - 1], col - 1, col + 2);
    assert CountBlock(g, row - 1, row + 1, col - 1, col + 2) ==
           CountRow(g[row - 1], col - 1, col + 2) + CountRow(g[row], col - 1, col + 2);
  }

  /** The 3x3-minus-self count equals the eight-neighbour count whenever the
      counting cell sits at (row, col) in a settled state; a cell marked
      WILL_DIE counts itself. Hence the count lies in [0,8] for a settled
      cell and in [0,9] always. */
  lemma LiveNeighborsIsMooreCount(g: Grid, row: int, col: int)
    requires Rectangular(g) && Interior(|g|, Cols(g), row, col)
    ensures var n := LiveNeighbors(g, row, col, g[row][col].state);
            n == MooreCount(g, row, col) + (if g[row][col].state == WillDie then 1 else 0)
    ensures 0 <= LiveNeighbors(g, row, col, g[row][col].state) <= 9
    ensures Settled(g[row][col].state) ==> LiveNeighbors(g, row, col, g[row][col].state) <= 8
  {
    CountBlockOfThree(g, row, col);
    CountRowOfThree(g[row - 1], col);
    CountRowOfThree(g[row], col);
    CountRowOfThree(g[row + 1], col);
  }

  /** Two grids of one shape that agree on which cells are live give the same
      row count. */
  lemma {:induction false} CountRowSeesOnlyLiveness(row0: seq<Cell>, row1: seq<Cell>, lo: int, hi: int)
    requires |row0| == |row1| && 0 <= lo <= hi <= |row0|
    requires forall j :: lo <= j < hi ==> WasAlive(row0[j].state) == WasAlive(row1[j].state)
    ensures CountRow(row0, lo, hi) == CountRow(row1, lo, hi)
    decreases hi - lo
  {
    if lo < hi {
      CountRowSeesOnlyLiveness(row0, row1, lo, hi - 1);
    }
  }

  predicate SameLiveness(g0: Grid, g1: Grid)
  {
    |g0| == |g1| &&
    (forall i :: 0 <= i < |g0| ==> |g0[i]| == |g1[i]|) &&
    (forall i, j :: 0 <= i < |g0| && 0 <= j < |g0[i]| ==>
       WasAlive(g0[i][j].state) == WasAlive(g1[i][j].state))
  }

  /** The neighbour count reads only which cells are live (ALIVE or WILL_DIE)
      and the counting cell's own state. */
  lemma CountSeesOnlyLiveness(g0: Grid, g1: Grid, row: int, col: int, own: CellState)
    requires Rectangular(g0) && Rectangular(g1) && Interior(|g0|, Cols(g0), row, col)
    requires SameLiveness(g0, g1)
    ensures Interior(|g1|, Cols(g1), row, col)
    ensures LiveNeighbors(g0, row, col, own) == LiveNeighbors(g1, row, col, own)
  {
    CountBlockOfThree(g0, row, col);
    CountBlockOfThree(g1, row, col);
    CountRowSeesOnlyLiveness(g0[row - 1], g1[row - 1], col - 1, col + 2);
    CountRowSeesOnlyLiveness(g0[row], g1[row], col - 1, col + 2);
    CountRowSeesOnlyLiveness(g0[row + 1], g1[row + 1], col - 1, col + 2);
  }

  /** On a grid where no cell is live, every count is zero. */
  lemma {:induction false} CountRowNoneLive(row: seq<Cell>, lo: int, hi: int)
    requires 0 <= lo <= hi <= |row|
    requires forall j :: lo <= j < hi ==> !WasAlive(row[j].state)
    ensures CountRow(row, lo, hi) == 0
    decreases hi - lo
  {
    if lo < hi {
      CountRowNoneLive(row, lo, hi - 1);
    }
  }

  // ---------------------------------------------------------------------
  // The grid in the heap
  // ---------------------------------------------------------------------

  /** The contents of a 2D array, as a grid value. */
  ghost function Snapshot(cells: array2<Cell>): (g: Grid)
    reads cells
    ensures |g| == cells.Length0 && Rectangular(g)
    ensures forall i :: 0 <= i < |g| ==> |g[i]| == cells.Length1
    ensures forall i, j :: 0 <= i < cells.Length0 && 0 <= j < cells.Length1 ==> g[i][j] == cells[i, j]
  {
    seq(cells.Length0, i requires 0 <= i < cells.Length0 reads cells =>
      seq(cells.Length1, j requires 0 <= j < cells.Length1 reads cells => cells[i, j]))
  }

  /** countLiveNeighbors, as the nested loop over the 3x3 block around the
      cell's own position. */
  method CountLiveNeighbors(cell: Cell, cells: array2<Cell>) returns (liveNeighbors: int)
    requires Interior(cells.Length0, cells.Length1, cell.row, cell.column)
    ensures liveNeighbors == LiveNeighbors(Snapshot(cells), cell.row, cell.column, cell.state)
    ensures cells[cell.row, cell.column] == cell ==>
              0 <= liveNeighbors <= 9 && (Settled(cell.state) ==> liveNeighbors <= 8)
  {
    ghost var g := Snapshot(cells);
    liveNeighbors := 0;
    var r := cell.row - 1;
    while r < cell.row + 2
      invariant cell.row - 1 <= r <= cell.row + 2
      invariant liveNeighbors == CountBlock(g, cell.row - 1, r, cell.column - 1, cell.column + 2)
    {
      var c := cell.column - 1;
      while c < cell.column + 2
        invariant cell.column - 1 <= c <= cell.column + 2
        invariant liveNeighbors == CountBlock(g, cell.row - 1, r, cell.column - 1, cell.column + 2)
                                   + CountRow(g[r], cell.column - 1, c)
      {
        if cells[r, c].state == Alive || cells[r, c].state == WillDie {
          liveNeighbors := liveNeighbors + 1;
        }
        c := c + 1;
      }
      r := r + 1;
    }
    if cell.state == Alive {
      liveNeighbors := liveNeighbors - 1;
    }
    if cells[cell.row, cell.column] == cell {
      LiveNeighborsIsMooreCount(g, cell.row, cell.column);
    }
  }

  /** applyRules: the cell's state becomes its fate under the rule set; no
      other field changes. */
  method ApplyRules(cell: Cell, cells: array2<Cell>) returns (updated: Cell)
    requires Interior(cells.Length0, cells.Length1, cell.row, cell.column)
    ensures updated == cell.(state := Moore.Fate(cell.state,
                               LiveNeighbors(Snapshot(cells), cell.row, cell.column, cell.state)))
    ensures WasAlive(updated.state) == WasAlive(cell.state)
  {
    var liveNeighbors := CountLiveNeighbors(cell, cells);
    updated := cell.(state := Moore.Fate(cell.state, liveNeighbors));
  }
}
