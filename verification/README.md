# Game of Life engine, modelled in Dafny

This project models the simulation engine of a Game of Life sketch. The
sketch has a fixed 2D array of cells with four states: ALIVE, DEAD, and the
transient fate states WILL_DIE and WILL_REVIVE. Each generation runs three
row-major passes over the array:

1. The fate pass gives every interior cell a fate from its state and its
   live-neighbour count.
2. The evolve pass resolves those fates and counts the generations each
   interior cell has been alive.
3. The history pass recomputes each cell's fill colour from that count.

A click toggles one cell. A key press pauses or resumes evolution. The
rule set is a Moore-neighbourhood rule set. Its constructor fills a birth
table and a survival table from a preset. The birth and survival tests it
actually uses are hard-coded: born on 2 or 5, survive on 4. They never read
the tables, and the model keeps that behaviour.

Modules, one per source file:

- `CellStates` (CellState.dfy): the four-state enumeration, plus the two
  predicates the engine relies on. `WasAlive` is ALIVE or WILL_DIE, the
  neighbour-count test. `Settled` is ALIVE or DEAD.
- `Rules` (Rules.dfy): the shared rule step `applyRules`. The two abstract
  hooks are passed in as functions.
- `Moore` (MooreRules.dfy): the class holding the two tables, its
  constructor, and the two hard-coded hooks.
- `Cells` (Cell.dfy): a cell as a record value, with `handleClick`,
  `evolve`, `history` and `applyRules`. It also has the neighbour count as a
  loop over the array, and its specification on grid values.
- `Life` (GameOfLife.dfy): the game class. It holds `setup`, `draw`, the
  three passes, `mouseClicked` and `keyPressed`, and the lemmas about whole
  generations.

The central result is the postcondition of `Life.GameOfLife.ApplyRulesPass`.
The fate pass updates cells one at a time in row-major order, yet it leaves
every interior cell holding the fate computed on the grid as it was before
the pass. In other words, it is the simultaneous update. This holds for
every grid whose cells record their own row and column, settled or not; the
count is taken around the cell's own position fields (src/Cell.java:148-149).
It holds for two reasons. The rule step never
changes whether a cell counts as live (`Rules.ApplyRules` ensures
`WasAlive(fate) == WasAlive(cellState)`). And the count reads only that
distinction, plus the visited cell's own state, which is still the old one
when the cell is visited (`Cells.CountSeesOnlyLiveness`).

Where the source's comments and its code disagree, the model follows the
code. Cell.java:122 says the colour falls by 10 per generation, and
GameOfLife.java:16-19 say rule 1 is B35/S4. What the code does:

- The rule set's tables are never read. The hooks are fixed at B25/S4 for
  every preset (`Life.ClassicPresetIgnored`).
- A click is not bounds-checked against the border. It toggles any cell in
  the array, whatever its state.
- The history colour falls by 20 per generation alive and is not clamped.
  Green and blue go negative from 11 generations on, red from 12
  (`Cells.HistoryNegative`).
- The history pass covers rows 0..rows-2. It includes the top border row and
  leaves out the bottom one.
- `numLives` grows for every generation an interior cell ends alive,
  including generations where an ALIVE cell stays ALIVE. The evolve pass
  skips the border, so a border cell made ALIVE by a click keeps its count.

Getting a cell's state (`getCellState`) is the record's `state` field. The
Java `Cell` constructor is the `Cell` datatype constructor with colour
(0, 0, 0), as Java's default field values give.

## Model

| member | source | states |
|---|---|---|
| `Rules.ApplyRules` | src/Rules.java:17-25 | a DEAD cell that should be born becomes WILL_REVIVE; an ALIVE cell that should not survive becomes WILL_DIE; every other state is returned as it is; the result is ALIVE only from ALIVE and DEAD only from DEAD; "counts as live" is the same before and after |
| `Rules.ApplyRulesIdempotent` | src/Rules.java:17-25 | applying the rule step to its own result changes nothing |
| `Moore.Table` | src/MooreRules.java:20-28 | the table the for-each loop builds always has NUM_NEIGHBORS = 9 entries |
| `Moore.TableMembership` | src/MooreRules.java:23-28 | entry k of a table is true exactly when k is one of the values given |
| `Moore.MooreRules.constructor` | src/MooreRules.java:18-29 | both tables are fresh, distinct and of length 9, and equal the tables of the birth and survival values; `rule` affects no field; every value must be in [0,8] |
| `Moore.Fate` | src/MooreRules.java:38-59 | with the hard-coded hooks `Moore.ShouldBeBorn` (2 or 5, MooreRules.java:37-43) and `Moore.ShouldSurvive` (4, MooreRules.java:52-58): a DEAD cell is marked to revive iff it has 2 or 5 live neighbours, and an ALIVE cell is marked to die iff it does not have 4; fate states are kept; liveness is kept |
| `Cells.HandleClick` | src/Cell.java:63-69 | the result is settled and ALIVE exactly when the cell was not ALIVE; no other field changes |
| `Cells.HandleClickTwice` | src/Cell.java:63-69 | two clicks on a settled cell give back the same cell |
| `Cells.Evolve` | src/Cell.java:85-97 | the result is settled, ALIVE exactly when the cell was ALIVE or WILL_REVIVE, and numLives grows by one exactly when the result is ALIVE; no other field changes |
| `Cells.History` | src/Cell.java:126-136 | only the colour changes: (230−20n, 205−20n, 215−20n) for n = numLives > 0, black otherwise |
| `Cells.HistoryDarkens` | src/Cell.java:126-136 | more generations alive gives a strictly darker colour in every component |
| `Cells.HistoryNegative` | src/Cell.java:127-130 | with no clamping, green and blue are negative exactly from 11 generations alive on, red exactly from 12 on |
| `Cells.LiveNeighborsIsMooreCount` | src/Cell.java:146-159 | the 3x3-minus-self count equals the count of the eight neighbours plus one when the cell is WILL_DIE; it lies in [0,9], and in [0,8] for a settled cell |
| `Cells.CountSeesOnlyLiveness` | src/Cell.java:150 | two grids that agree on which cells are ALIVE or WILL_DIE give the same count at every interior position |
| `Cells.CountLiveNeighbors` | src/Cell.java:146-159 | the nested loop returns the 3x3 live count around the cell's position, less one when the cell is ALIVE, within [0,9] and [0,8] for a settled cell in place |
| `Cells.ApplyRules` | src/Cell.java:77-79 | the cell's state becomes its fate for its live-neighbour count in the array; no other field changes, and liveness is kept |
| `Life.Preset` | src/GameOfLife.java:65-93 | rule 0 gives {3}/{2,3}, rule 1 gives {3,5}/{4}, any other gives {3}/{0,1,2,3,4,5,6,7,8}; every preset's values fit the tables, so construction cannot fail |
| `Life.ClassicPresetIgnored` | src/GameOfLife.java:65-71 | the classic preset's tables say born on 3 and survive on 2, yet a DEAD cell with 3 neighbours stays DEAD and an ALIVE cell with 2 is marked to die |
| `Life.CellIndex` | src/GameOfLife.java:136-137 | the cell index of a mouse coordinate is its quotient by CELL_SIZE, truncated toward zero |
| `Life.FatePass` | src/GameOfLife.java:164-170 | the simultaneous fate update of a grid keeps its shape and which cells count as live |
| `Life.Step` | src/GameOfLife.java:116-124 | one generation keeps the grid's shape and each cell's position |
| `Life.Generations` | src/GameOfLife.java:116-124 | any number of generations keeps the grid's shape and each cell's position |
| `Life.StepKeepsBorder` | src/GameOfLife.java:164-180 | a generation changes no border cell's state or life count, and no cell's life count decreases |
| `Life.StepKeepsSettled` | src/GameOfLife.java:173-180 | if every cell is ALIVE or DEAD before a generation, every cell is ALIVE or DEAD after it |
| `Life.StepIsLifeRule` | src/GameOfLife.java:118-121 | for a settled interior cell, the three passes give ALIVE iff it was DEAD and should be born, or ALIVE and should survive, on its eight-neighbour count |
| `Life.EmptyGridStep` | src/GameOfLife.java:118-122 | a grid with every cell DEAD is still all DEAD after a generation, because no cell is born on 0 neighbours |
| `Life.EmptyGridStaysEmpty` | src/GameOfLife.java:116-124 | an all-DEAD grid stays all DEAD for any number of generations |
| `Life.BorderFixedForever` | src/GameOfLife.java:164-180 | border cells keep their state for any number of generations |
| `Life.NumLivesNeverDecrease` | src/Cell.java:85-97 | no cell's life count decreases over any number of generations |
| `Life.GameOfLife.constructor` | src/GameOfLife.java:40-43 | a new game is paused, uses preset 1 and has no cells yet |
| `Life.GameOfLife.Setup` | src/GameOfLife.java:62-107 | a (height/10) x (width/10) array of DEAD cells with no lives and no colour, each at its own row and column and pixel (column·10, row·10); the rule set holds the tables of the selected preset; every cell is settled |
| `Life.GameOfLife.Draw` | src/GameOfLife.java:116-124 | when evolving, every cell becomes its one-generation successor computed on the old grid; when paused, nothing changes; "all settled" is preserved |
| `Life.GameOfLife.MouseClicked` | src/GameOfLife.java:133-139 | toggles exactly the cell at [mouseY/10][mouseX/10], border cells included; an index outside the array changes nothing and is reported; "all settled" is preserved |
| `Life.GameOfLife.KeyPressed` | src/GameOfLife.java:147-151 | the evolve flag is flipped |
| `Life.GameOfLife.ApplyRulesPass` | src/GameOfLife.java:164-170 | after the row-major in-place pass, each interior cell holds its fate computed on the grid before the pass (the simultaneous update); border cells are unchanged |
| `Life.GameOfLife.FateAt` | src/GameOfLife.java:167 | updating one cell in place, while every cell still has its old value or its new fate, gives that cell its fate on the old grid and changes no other cell |
| `Life.GameOfLife.EvolvePass` | src/GameOfLife.java:173-180 | each interior cell is evolved; border cells are unchanged |
| `Life.GameOfLife.HistoryPass` | src/GameOfLife.java:193-200 | cells in rows 0..rows-2 and columns 1..cols-2 get their colour recomputed; no other cell changes |

## Left out

- Drawing is not modelled. This covers `Cell.display` and `GameOfLife.display`, which are calls into the graphics library.
- Window and run setup are not modelled: `settings`/`size`, `frameRate`, `main`/`runSketch`, and inheriting from the library's applet class. The window's width and height are parameters of `Setup`.
- The static `app` instance and `getApp` are not modelled. They exist only so that the drawing code can reach the game.
- Mouse and key events are delivered by the graphics library. The pointer coordinates are parameters of `MouseClicked`, and the call to the superclass handler is not modelled.
- `CellState.randomState`, `STATES` and `RANDOM` are not modelled. They are private, never called, and use a random generator.
- `Cell.getSize` is not modelled. Nothing in the source calls it; drawing reads the `size` field directly, and the pixel position and size are kept as fields.
- Each cell is a record value in a 2D array, not an object. The source never shares a cell object between two array slots, so no aliasing is lost. A cell's `rules` reference is not carried either. Every cell gets the same rule set, and the hooks that rule set supplies read none of its fields.
- Before `setup`, the source's cell array is null. The model uses a 0 x 0 array.
- Life.GameOfLife.constructor: the source's `cellState` field is null until `setup` assigns it. The model starts it at DEAD. Nothing reads the field before `setup` writes it, so the difference cannot be observed.
- Moore.MooreRules.constructor: a birth or survival value outside [0,8] makes the source throw an index-out-of-bounds exception. The model rules such values out with a precondition. Every preset satisfies it (`Life.Preset`).
- Cells.History: does not model 32-bit overflow of `numLives * 20`, which needs more than 10^8 generations alive.
- Cells.Evolve: does not model 32-bit wrap-around of `numLives`.
- The unused local `cellstate` in `setup` is left out. The `cellState` field that `setup` assigns is kept.
