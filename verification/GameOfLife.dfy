/** The game: the 2D array of cells, the rule preset, and the generation step
    made of three row-major passes (fate, evolve, history). Drawing, window
    setup and event delivery belong to the graphics library and are not part
    of this module; mouse coordinates arrive as parameters. */
module Life {

  import opened CellStates
  import Moore
  import opened Cells

  /** Side of a cell in pixels. */
  const CELL_SIZE: int := 10

  /** The (birth, survival) arrays chosen by `rule`: 0 is B3/S23, 1 is B35/S4,
      any other value B3/S012345678. Every preset can build its tables. */
  function Preset(rule: int): (preset: (seq<int>, seq<int>))
    ensures Moore.InTable(preset.0) && Moore.InTable(preset.1)
    ensures preset.0 != [] && preset.1 != []
    ensures rule == 0 ==> preset.0 == [3] && preset.1 == [2, 3]
    ensures rule == 1 ==> preset.0 == [3, 5] && preset.1 == [4]
    ensures rule != 0 && rule != 1 ==> preset == ([3], [0, 1, 2, 3, 4, 5, 6, 7, 8])
  {
    if rule == 0 then ([3], [2, 3])
    else if rule == 1 then ([3, 5], [4])
    else ([3], [0, 1, 2, 3, 4, 5, 6, 7, 8])
  }

  /** The tables of the classic preset say "born on 3", yet a dead cell with
      three live neighbours is not born: the hooks never read the tables. */
  lemma ClassicPresetIgnored()
    ensures Moore.Table(Preset(0).0)[3] && Moore.Table(Preset(0).1)[2]
    ensures Moore.Fate(Dead, 3) == Dead && Moore.Fate(Alive, 2) == WillDie
  {
  }

  /** Integer division of a mouse coordinate by CELL_SIZE, truncating toward
      zero as Java's `/` does. */
  function CellIndex(coordinate: int): (index: int)
    ensures coordinate >= 0 ==> index * CELL_SIZE <= coordinate < (index + 1) * CELL_SIZE
    ensures coordinate < 0 ==> (index - 1) * CELL_SIZE < coordinate <= index * CELL_SIZE
  {
    if coordinate >= 0 then coordinate / CELL_SIZE else -((-coordinate) / CELL_SIZE)
  }

  /** Rows 0..rows-2 and columns 1..cols-2: the cells the history pass visits. */
  predicate InHistoryRange(rows: int, cols: int, i: int, j: int)
  {
    0 <= i < rows - 1 && 1 <= j < cols - 1
  }

  /** A cell after the fate pass: its state becomes its fate, computed on the
      grid as it was before the pass. */
  function Fated(g: Grid, i: int, j: int): (c: Cell)
    requires Rectangular(g) && Interior(|g|, Cols(g), i, j)
  {
    g[i][j].(state := Moore.Fate(g[i][j].state, LiveNeighbors(g, i, j, g[i][j].state)))
  }

  /** The whole grid after the fate pass, as a simultaneous update of `g`. */
  function FatePass(g: Grid): (g': Grid)
    requires WellFormed(g)
    ensures |g'| == |g| && Rectangular(g') && Cols(g') == Cols(g)
    ensures forall i, j :: 0 <= i < |g| && 0 <= j < Cols(g) ==>
              g'[i][j] == if Interior(|g|, Cols(g), i, j) then Fated(g, i, j) else g[i][j]
    ensures SameLiveness(g, g')
  {
    seq(|g|, i requires 0 <= i < |g| =>
      seq(Cols(g), j requires 0 <= j < Cols(g) =>
        if Interior(|g|, Cols(g), i, j) then Fated(g, i, j) else g[i][j]))
  }

  /** Cell (i, j) after one generation, as the simultaneous update of the
      whole grid `g`. */
  function StepCell(g: Grid, i: int, j: int): (c: Cell)
    requires Rectangular(g) && 0 <= i < |g| && 0 <= j < Cols(g)
  {
    var rows, cols := |g|, Cols(g);
    var evolved := if Interior(rows, cols, i, j) then Evolve(Fated(g, i, j)) else g[i][j];
    if InHistoryRange(rows, cols, i, j) then History(evolved) else evolved
  }

  /** One generation of the whole grid. */
  function Step(g: Grid): (g': Grid)
    requires WellFormed(g)
    ensures |g'| == |g| && Cols(g') == Cols(g) && WellFormed(g')
    ensures forall i, j :: 0 <= i < |g| && 0 <= j < Cols(g) ==> g'[i][j] == StepCell(g, i, j)
  {
    seq(|g|, i requires 0 <= i < |g| =>
      seq(Cols(g), j requires 0 <= j < Cols(g) => StepCell(g, i, j)))
  }

  /** `k` generations. */
  function Generations(g: Grid, k: nat): (g': Grid)
    requires WellFormed(g)
    ensures |g'| == |g| && Cols(g') == Cols(g) && WellFormed(g')
    decreases k
  {
    if k == 0 then g else Generations(Step(g), k - 1)
  }

  predicate AllSettled(g: Grid)
  {
    forall i, j :: 0 <= i < |g| && 0 <= j < |g[i]| ==> Settled(g[i][j].state)
  }

  predicate AllDead(g: Grid)
  {
    forall i, j :: 0 <= i < |g| && 0 <= j < |g[i]| ==> g[i][j].state == Dead
  }

  /** A border cell never changes state or life count during a generation,
      and no cell's life count decreases. */
  lemma StepKeepsBorder(g: Grid, i: int, j: int)
    requires WellFormed(g) && 0 <= i < |g| && 0 <= j < Cols(g)
    ensures !Interior(|g|, Cols(g), i, j) ==>
              Step(g)[i][j].state == g[i][j].state && Step(g)[i][j].numLives == g[i][j].numLives
    ensures Step(g)[i][j].numLives >= g[i][j].numLives
    ensures Step(g)[i][j].row == i && Step(g)[i][j].column == j
  {
  }

  /** After a generation every interior cell is settled, so a settled grid
      stays settled. */
  lemma StepKeepsSettled(g: Grid)
    requires WellFormed(g) && AllSettled(g)
    ensures AllSettled(Step(g))
  {
  }

  /** For a settled interior cell the two-phase step is the plain rule: alive
      next iff dead and born, or alive and surviving, on its eight-neighbour
      count; and it has lived one more generation iff it is alive next. */
  lemma StepIsLifeRule(g: Grid, i: int, j: int)
    requires WellFormed(g) && Interior(|g|, Cols(g), i, j) && Settled(g[i][j].state)
    ensures var n := MooreCount(g, i, j);
            (Step(g)[i][j].state == Alive) <==>
              (g[i][j].state == Dead && Moore.ShouldBeBorn(n)) ||
              (g[i][j].state == Alive && Moore.ShouldSurvive(n))
    ensures Settled(Step(g)[i][j].state)
    ensures Step(g)[i][j].numLives == g[i][j].numLives + (if Step(g)[i][j].state == Alive then 1 else 0)
  {
    LiveNeighborsIsMooreCount(g, i, j);
  }

  /** A grid with no live cell is unchanged in state by a generation. */
  lemma EmptyGridStep(g: Grid)
    requires WellFormed(g) && AllDead(g)
    ensures AllDead(Step(g))
  {
    forall i, j | 0 <= i < |g| && 0 <= j < Cols(g) && Interior(|g|, Cols(g), i, j)
      ensures Step(g)[i][j].state == Dead
    {
      CountBlockOfThree(g, i, j);
      CountRowNoneLive(g[i - 1], j - 1, j + 2);
      CountRowNoneLive(g[i], j - 1, j + 2);
      CountRowNoneLive(g[i + 1], j - 1, j + 2);
    }
  }

  /** ... nor by any number of generations. */
  lemma {:induction false} EmptyGridStaysEmpty(g: Grid, k: nat)
    requires WellFormed(g) && AllDead(g)
    ensures AllDead(Generations(g, k))
    decreases k
  {
    if k > 0 {
      EmptyGridStep(g);
      EmptyGridStaysEmpty(Step(g), k - 1);
    }
  }

  /** Border cells keep their state across any number of generations. */
  lemma {:induction false} BorderFixedForever(g: Grid, k: nat, i: int, j: int)
    requires WellFormed(g) && 0 <= i < |g| && 0 <= j < Cols(g) && !Interior(|g|, Cols(g), i, j)
    ensures Generations(g, k)[i][j].state == g[i][j].state
    decreases k
  {
    if k > 0 {
      StepKeepsBorder(g, i, j);
      BorderFixedForever(Step(g), k - 1, i, j);
    }
  }

  /** Life counts never decrease across any number of generations. */
  lemma {:induction false} NumLivesNeverDecrease(g: Grid, k: nat, i: int, j: int)
    requires WellFormed(g) && 0 <= i < |g| && 0 <= j < Cols(g)
    ensures Generations(g, k)[i][j].numLives >= g[i][j].numLives
    decreases k
  {
    if k > 0 {
      StepKeepsBorder(g, i, j);
      NumLivesNeverDecrease(Step(g), k - 1, i, j);
    }
  }

  class GameOfLife {
    var cells: array2<Cell>
    var evolve: bool
    var cellState: CellState
    var rules: Moore.MooreRules?
    var rule: int

    /** Every cell records its own position in the array. */
    ghost predicate Valid()
      reads this, cells
    {
      forall i, j :: 0 <= i < cells.Length0 && 0 <= j < cells.Length1 ==>
        cells[i, j].row == i && cells[i, j].column == j
    }

    /** No cell holds a pending fate. */
    ghost predicate Quiescent()
      reads this, cells
    {
      forall i, j :: 0 <= i < cells.Length0 && 0 <= j < cells.Length1 ==> Settled(cells[i, j].state)
    }

    /** A new game is paused and uses preset 1; it has no cells until Setup. */
    constructor ()
      ensures !evolve && rule == 1 && rules == null
      ensures cells.Length0 == 0 && cells.Length1 == 0
      ensures Valid() && Quiescent()
    {
      cells := new Cell[0, 0];
      evolve := false;
      cellState := Dead;
      rules := null;
      rule := 1;
    }

    /** setup: a (height/10) x (width/10) array of DEAD cells with no lives,
        each at pixel (column*10, row*10), and the rule set of the preset. */
    method Setup(width: int, height: int)
      requires 0 <= width && 0 <= height
      modifies this
      ensures fresh(cells) && cells.Length0 == height / CELL_SIZE && cells.Length1 == width / CELL_SIZE
      ensures forall i, j :: 0 <= i < cells.Length0 && 0 <= j < cells.Length1 ==>
                cells[i, j] == Cell(j * CELL_SIZE, i * CELL_SIZE, CELL_SIZE, i, j, Dead, 0, 0, 0, 0)
      ensures rules != null && fresh(rules)
      ensures rules.birthRules[..] == Moore.Table(Preset(rule).0)
      ensures rules.survivalRules[..] == Moore.Table(Preset(rule).1)
      ensures cellState == if cells.Length0 > 0 && cells.Length1 > 0 then Dead else old(cellState)
      ensures evolve == old(evolve) && rule == old(rule)
      ensures Valid() && Quiescent()
    {
      var grid := new Cell[height / CELL_SIZE, width / CELL_SIZE];
      var preset := Preset(rule);
      rules := new Moore.MooreRules(preset.0, preset.1, rule);
      var row := 0;
      while row < grid.Length0
        modifies grid, this`cellState
        invariant 0 <= row <= grid.Length0
        invariant cellState == if row > 0 && grid.Length1 > 0 then Dead else old(cellState)
        invariant forall i, j :: 0 <= i < row && 0 <= j < grid.Length1 ==>
                    grid[i, j] == Cell(j * CELL_SIZE, i * CELL_SIZE, CELL_SIZE, i, j, Dead, 0, 0, 0, 0)
      {
        var column := 0;
        while column < grid.Length1
          modifies grid, this`cellState
          invariant 0 <= column <= grid.Length1
          invariant cellState == if (row > 0 || column > 0) && grid.Length1 > 0 then Dead else old(cellState)
          invariant forall i, j :: 0 <= i < grid.Length0 && 0 <= j < grid.Length1 &&
                                   (i < row || (i == row && j < column)) ==>
                      grid[i, j] == Cell(j * CELL_SIZE, i * CELL_SIZE, CELL_SIZE, i, j, Dead, 0, 0, 0, 0)
        {
          // border and interior cells alike start DEAD
          if row == 0 || row == grid.Length0 - 1 || column == 0 || column == grid.Length1 - 1 {
            cellState := Dead;
          } else {
            cellState := Dead;
          }
          grid[row, column] := Cell(column * CELL_SIZE, row * CELL_SIZE, CELL_SIZE, row, column, cellState, 0, 0, 0, 0);
          column := column + 1;
        }
        row := row + 1;
      }
      cells := grid;
    }

    /** draw: when evolving, one generation (fate, evolve, history passes);
        otherwise nothing changes. */
    method Draw()
      requires Valid()
      modifies cells
      ensures Valid()
      ensures forall i, j :: 0 <= i < cells.Length0 && 0 <= j < cells.Length1 ==>
                cells[i, j] == if evolve then StepCell(old(Snapshot(cells)), i, j) else old(cells[i, j])
      ensures old(Quiescent()) ==> Quiescent()
    {
      if evolve {
        ApplyRulesPass();
        EvolvePass();
        HistoryPass();
      }
    }

    /** mouseClicked: toggles the cell under the pointer, border cells
        included; an index outside the array is the source's
        out-of-bounds exception, reported as `false` with nothing changed. */
    method MouseClicked(mouseX: int, mouseY: int) returns (ok: bool)
      requires Valid()
      modifies cells
      ensures Valid()
      ensures var row, col := CellIndex(mouseY), CellIndex(mouseX);
              ok == (0 <= row < cells.Length0 && 0 <= col < cells.Length1) &&
              forall i, j :: 0 <= i < cells.Length0 && 0 <= j < cells.Length1 ==>
                cells[i, j] == if ok && i == row && j == col then HandleClick(old(cells[i, j])) else old(cells[i, j])
      ensures old(Quiescent()) ==> Quiescent()
    {
      var col := CellIndex(mouseX);
      var row := CellIndex(mouseY);
      ok := 0 <= row < cells.Length0 && 0 <= col < cells.Length1;
      if ok {
        cells[row, col] := HandleClick(cells[row, col]);
      }
    }

    /** keyPressed: pauses or resumes evolution. */
    method KeyPressed()
      modifies this`evolve
      ensures evolve == !old(evolve)
    {
      evolve := !evolve;
    }

    /** The fate pass. Cells are updated one at a time in row-major order, yet
        every interior cell ends with the fate computed on the grid as it was
        before the pass: the simultaneous update. Border cells are untouched. */
    method ApplyRulesPass()
      requires Valid()
      modifies cells
      ensures Valid()
      ensures forall i, j :: 0 <= i < cells.Length0 && 0 <= j < cells.Length1 ==>
                cells[i, j] == if Interior(cells.Length0, cells.Length1, i, j)
                               then Fated(old(Snapshot(cells)), i, j) else old(cells[i, j])
    {
      var a := cells;
      ghost var g0 := Snapshot(a);
      ghost var target := FatePass(g0);
      var r := 1;
      while r < a.Length0 - 1
        invariant 1 <= r && (a.Length0 >= 2 ==> r <= a.Length0 - 1)
        invariant forall i, j :: 0 <= i < a.Length0 && 0 <= j < a.Length1 ==>
                    a[i, j] == if i < r then target[i][j] else g0[i][j]
      {
        var c := 1;
        while c < a.Length1 - 1
          invariant 1 <= c && (a.Length1 >= 2 ==> c <= a.Length1 - 1)
          invariant forall i, j :: 0 <= i < a.Length0 && 0 <= j < a.Length1 ==>
                      a[i, j] == if i < r || (i == r && j < c) then target[i][j] else g0[i][j]
        {
          FateAt(a, r, c, g0);
          c := c + 1;
        }
        r := r + 1;
      }
    }

    /** cells[r][c].applyRules(cells) inside the fate pass: when every cell
        is still live exactly where it was live in `g0` and the cell itself is
        not yet updated, its new state is its fate on `g0`. */
    static method FateAt(a: array2<Cell>, r: int, c: int, ghost g0: Grid)
      requires |g0| == a.Length0 && WellFormed(g0) && Cols(g0) == a.Length1
      requires Interior(a.Length0, a.Length1, r, c)
      requires forall i, j :: 0 <= i < a.Length0 && 0 <= j < a.Length1 ==>
                 a[i, j] == g0[i][j] || a[i, j] == FatePass(g0)[i][j]
      requires a[r, c] == g0[r][c]
      modifies a
      ensures a[r, c] == FatePass(g0)[r][c]
      ensures forall i, j :: 0 <= i < a.Length0 && 0 <= j < a.Length1 && (i != r || j != c) ==>
                a[i, j] == old(a[i, j])
    {
      ghost var g1 := Snapshot(a);
      assert SameLiveness(g0, g1);
      CountSeesOnlyLiveness(g0, g1, r, c, g0[r][c].state);
      var updated := Cells.ApplyRules(a[r, c], a);
      a[r, c] := updated;
    }

    /** The evolve pass: every interior cell resolves its fate; border cells
        are untouched. */
    method EvolvePass()
      requires Valid()
      modifies cells
      ensures Valid()
      ensures forall i, j :: 0 <= i < cells.Length0 && 0 <= j < cells.Length1 ==>
                cells[i, j] == if Interior(cells.Length0, cells.Length1, i, j)
                               then Evolve(old(cells[i, j])) else old(cells[i, j])
    {
      var r := 1;
      while r < cells.Length0 - 1
        invariant 1 <= r && (cells.Length0 >= 2 ==> r <= cells.Length0 - 1)
        invariant forall i, j :: 0 <= i < cells.Length0 && 0 <= j < cells.Length1 ==>
                    cells[i, j] == if Interior(cells.Length0, cells.Length1, i, j) && i < r
                                   then Evolve(old(cells[i, j])) else old(cells[i, j])
      {
        var c := 1;
        while c < cells.Length1 - 1
          invariant 1 <= c && (cells.Length1 >= 2 ==> c <= cells.Length1 - 1)
          invariant forall i, j :: 0 <= i < cells.Length0 && 0 <= j < cells.Length1 ==>
                      cells[i, j] == if Interior(cells.Length0, cells.Length1, i, j) && (i < r || (i == r && j < c))
                                     then Evolve(old(cells[i, j])) else old(cells[i, j])
        {
          cells[r, c] := Evolve(cells[r, c]);
          c := c + 1;
        }
        r := r + 1;
      }
    }

    /** The history pass: rows 0..rows-2 and columns 1..cols-2 recompute their
        colour; state and life count are untouched everywhere. */
    method HistoryPass()
      requires Valid()
      modifies cells
      ensures Valid()
      ensures forall i, j :: 0 <= i < cells.Length0 && 0 <= j < cells.Length1 ==>
                cells[i, j] == if InHistoryRange(cells.Length0, cells.Length1, i, j)
                               then History(old(cells[i, j])) else old(cells[i, j])
    {
      var r := 0;
      while r < cells.Length0 - 1
        invariant 0 <= r && (cells.Length0 >= 1 ==> r <= cells.Length0 - 1)
        invariant forall i, j :: 0 <= i < cells.Length0 && 0 <= j < cells.Length1 ==>
                    cells[i, j] == if InHistoryRange(cells.Length0, cells.Length1, i, j) && i < r
                                   then History(old(cells[i, j])) else old(cells[i, j])
      {
        var c := 1;
        while c < cells.Length1 - 1
          invariant 1 <= c && (cells.Length1 >= 2 ==> c <= cells.Length1 - 1)
          invariant forall i, j :: 0 <= i < cells.Length0 && 0 <= j < cells.Length1 ==>
                      cells[i, j] == if InHistoryRange(cells.Length0, cells.Length1, i, j) && (i < r || (i == r && j < c))
                                     then History(old(cells[i, j])) else old(cells[i, j])
        {
          cells[r, c] := History(cells[r, c]);
          c := c + 1;
        }
        r := r + 1;
      }
    }
  }
}
