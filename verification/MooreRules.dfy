/** The Moore-neighbourhood rule set. Its constructor fills a birth table and a
    survival table, but the two hooks it supplies are fixed (born on 2 or 5,
    survive on 4) and never consult those tables. */
module Moore {

  import opened CellStates
  import Rules

  /** Size of both tables: neighbour counts 0 through 8. */
  const NUM_NEIGHBORS: nat := 9

  /** Every value can index a table. */
  predicate InTable(values: seq<int>)
  {
    forall k :: 0 <= k < |values| ==> 0 <= values[k] < NUM_NEIGHBORS
  }

  /** The table that the constructor's for-each loop leaves behind: all false,
      then entry `v` set to true for each value `v` in turn. */
  function Table(values: seq<int>): (table: seq<bool>)
    requires InTable(values)
    ensures |table| == NUM_NEIGHBORS
    decreases |values|
  {
    if values == [] then seq(NUM_NEIGHBORS, _ => false)
    else Table(values[..|values| - 1])[values[|values| - 1] := true]
  }

  /** Entry k of the table is set exactly when k is one of the values. */
  lemma {:induction false} TableMembership(values: seq<int>, k: int)
    requires InTable(values) && 0 <= k < NUM_NEIGHBORS
    ensures Table(values)[k] <==> k in values
    decreases |values|
  {
    if values != [] {
      var init := values[..|values| - 1];
      TableMembership(init, k);
      assert values == init + [values[|values| - 1]];
    }
  }

  /** Birth hook: reads no field of a MooreRules object, whatever its tables hold. */
  function ShouldBeBorn(liveNeighbors: int): bool
  {
    liveNeighbors == 2 || liveNeighbors == 5
  }

  /** Survival hook: reads no field of a MooreRules object, whatever its tables hold. */
  function ShouldSurvive(liveNeighbors: int): bool
  {
    liveNeighbors == 4
  }

  /** The inherited rule step, run with the two hooks above. */
  function Fate(cellState: CellState, liveNeighbors: int): (fate: CellState)
    ensures cellState == Dead ==>
              (fate == WillRevive <==> liveNeighbors == 2 || liveNeighbors == 5)
    ensures cellState == Alive ==> (fate == WillDie <==> liveNeighbors != 4)
    ensures !Settled(cellState) ==> fate == cellState
    ensures WasAlive(fate) == WasAlive(cellState)
  {
    Rules.ApplyRules(ShouldBeBorn, ShouldSurvive, cellState, liveNeighbors)
  }

  class MooreRules {
    var birthRules: array<bool>
    var survivalRules: array<bool>

    /** Builds both tables. `rule` is accepted and ignored. */
    constructor (birthNeighbors: seq<int>, survivalNeighbors: seq<int>, rule: int)
      requires InTable(birthNeighbors) && InTable(survivalNeighbors)
      ensures fresh(birthRules) && fresh(survivalRules) && birthRules != survivalRules
      ensures birthRules.Length == NUM_NEIGHBORS && survivalRules.Length == NUM_NEIGHBORS
      ensures birthRules[..] == Table(birthNeighbors)
      ensures survivalRules[..] == Table(survivalNeighbors)
    {
      var born := new bool[NUM_NEIGHBORS](_ => false);
      var survive := new bool[NUM_NEIGHBORS](_ => false);
      var i := 0;
      while i < |birthNeighbors|
        invariant 0 <= i <= |birthNeighbors|
        invariant born[..] == Table(birthNeighbors[..i])
        invariant survive[..] == Table([])
      {
        born[birthNeighbors[i]] := true;
        assert birthNeighbors[..i + 1][..i] == birthNeighbors[..i];
        i := i + 1;
      }
      assert birthNeighbors[..i] == birthNeighbors;
      i := 0;
      while i < |survivalNeighbors|
        invariant 0 <= i <= |survivalNeighbors|
        invariant survive[..] == Table(survivalNeighbors[..i])
        invariant born[..] == Table(birthNeighbors)
      {
        survive[survivalNeighbors[i]] := true;
        assert survivalNeighbors[..i + 1][..i] == survivalNeighbors[..i];
        i := i + 1;
      }
      assert survivalNeighbors[..i] == survivalNeighbors;
      birthRules := born;
      survivalRules := survive;
    }
  }
}
