/** The rule step shared by every rule set: a dead cell may be marked to be
    born, an alive cell may be marked to die. The two hooks that a concrete
    rule set supplies are passed in as functions. */
module Rules {

  import opened CellStates

  /** The fate state of a cell in `cellState` with `liveNeighbors` live
      neighbours. */
  function ApplyRules(shouldBeBorn: int -> bool, shouldSurvive: int -> bool,
                      cellState: CellState, liveNeighbors: int): (fate: CellState)
    // a dead cell that the hook lets be born is marked to revive
    ensures cellState == Dead && shouldBeBorn(liveNeighbors) ==> fate == WillRevive
    // an alive cell that the hook does not let survive is marked to die
    ensures cellState == Alive && !shouldSurvive(liveNeighbors) ==> fate == WillDie
    // in every other case the state is kept, transient states included
    ensures fate != cellState ==>
              (cellState == Dead && shouldBeBorn(liveNeighbors)) ||
              (cellState == Alive && !shouldSurvive(liveNeighbors))
    // whether the cell counts as live this generation never changes
    ensures WasAlive(fate) == WasAlive(cellState)
    ensures fate == Alive ==> cellState == Alive
    ensures fate == Dead ==> cellState == Dead
  {
    if cellState == Dead && shouldBeBorn(liveNeighbors) then WillRevive
    else if cellState == Alive && !shouldSurvive(liveNeighbors) then WillDie
    else cellState
  }

  /** Computing the fate of a cell that already holds its fate changes nothing. */
  lemma ApplyRulesIdempotent(shouldBeBorn: int -> bool, shouldSurvive: int -> bool,
                             cellState: CellState, liveNeighbors: int)
    ensures var fate := ApplyRules(shouldBeBorn, shouldSurvive, cellState, liveNeighbors);
            ApplyRules(shouldBeBorn, shouldSurvive, fate, liveNeighbors) == fate
  {
  }
}
