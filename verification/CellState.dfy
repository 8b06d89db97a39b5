/** The four lifecycle phases of a cell. WILL_DIE and WILL_REVIVE are the
    transient "fate" states written by the rule pass and resolved by the
    evolve pass. */
module CellStates {

  datatype CellState = Alive | Dead | WillDie | WillRevive

  /** Live for the neighbour count of the current generation: ALIVE, or ALIVE
      and already marked to die (the test in Cell.countLiveNeighbors). */
  predicate WasAlive(s: CellState)
  {
    s == Alive || s == WillDie
  }

  /** A state with no pending fate. */
  predicate Settled(s: CellState)
  {
    s == Alive || s == Dead
  }
}
