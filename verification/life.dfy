/**
 * The Life rule B3/S23 (`Cell.DetermineNextLiveState`) and the double-buffered
 * generation step (`Board.Advance`).
 */
module Life {
  import opened Boards
  import opened Neighbors

  /**
   * `neighbors.Where(x => x.IsAlive).Count()`: the number of live entries of a
   * neighbour list, an entry that occurs twice counting twice.
   */
  function CountAlive(states: seq<bool>): (n: nat)
    ensures n <= |states|
  {
    if |states| == 0 then 0
    else (if states[0] then 1 else 0) + CountAlive(states[1..])
  }

  /** No live neighbour counts 0 and only an all-live list counts its full length. */
  lemma {:induction false} CountAliveExtremes(states: seq<bool>)
    ensures CountAlive(states) == 0 <==> true !in states
    ensures CountAlive(states) == |states| <==> false !in states
  {
    if |states| > 0 {
      CountAliveExtremes(states[1..]);
      assert states == [states[0]] + states[1..];
    }
  }

  /** The live count is the multiplicity of `true` in the list. */
  lemma {:induction false} CountAliveIsMultiplicity(states: seq<bool>)
    ensures CountAlive(states) == multiset(states)[true]
  {
    if |states| > 0 {
      assert states == [states[0]] + states[1..];
      CountAliveIsMultiplicity(states[1..]);
    }
  }

  /**
   * `Cell.DetermineNextLiveState` given the live-neighbour count: a live cell
   * survives with 2 or 3 live neighbours, a dead cell is born with exactly 3, every
   * other case yields a dead cell.
   */
  function NextState(alive: bool, liveNeighbors: nat): (next: bool)
    ensures next <==> liveNeighbors == 3 || (alive && liveNeighbors == 2)
    ensures !alive && next ==> liveNeighbors == 3
  {
    if alive then liveNeighbors == 2 || liveNeighbors == 3 else liveNeighbors == 3
  }

  /** The states of the eight wired neighbours of `p`, in wiring order. */
  function NeighborStates(g: Grid, p: Pos): (states: seq<bool>)
    requires g.Valid() && g.Contains(p)
    ensures |states| == 8
  {
    var n := NeighborList(g, p);
    [g.Alive(n[0]), g.Alive(n[1]), g.Alive(n[2]), g.Alive(n[3]),
     g.Alive(n[4]), g.Alive(n[5]), g.Alive(n[6]), g.Alive(n[7])]
  }

  /** The next state of the cell at `p`, computed from the current generation only. */
  function NextCell(g: Grid, p: Pos): bool
    requires g.Valid() && g.Contains(p)
  {
    NextState(g.cells[p.y][p.x], CountAlive(NeighborStates(g, p)))
  }

  /**
   * A cell of the next generation is alive exactly when it has three live wired
   * neighbours, or it is alive and has two, every wired entry counted as often as
   * it occurs in the neighbour list.
   */
  lemma NextCellRule(g: Grid, p: Pos)
    requires g.Valid() && g.Contains(p)
    ensures var live := multiset(NeighborStates(g, p))[true];
      NextCell(g, p) <==> live == 3 || (g.Alive(p) && live == 2)
  {
    CountAliveIsMultiplicity(NeighborStates(g, p));
  }

  /** One generation: every cell of the new grid follows from the old grid alone. */
  function Step(g: Grid): (r: Grid)
    requires g.Valid()
    ensures r.Valid() && r.columns == g.columns && r.rows == g.rows
    ensures forall y, x | 0 <= y < g.rows && 0 <= x < g.columns :: r.cells[y][x] == NextCell(g, Pos(x, y))
  {
    Build(g.columns, g.rows, (x: nat, y: nat) => if x < g.columns && y < g.rows then NextCell(g, Pos(x, y)) else false)
  }

  /** Visited before (x, y) by `foreach` over `Cell[x, y]`: x is the outer index, y the inner. */
  predicate VisitedBefore(i: int, j: int, x: int, y: int) {
    i < x || (i == x && j < y)
  }

  /** `rows` rows of `columns` entries each. */
  predicate IsMatrix(m: seq<seq<bool>>, columns: nat, rows: nat) {
    |m| == rows && forall j | 0 <= j < rows :: |m[j]| == columns
  }

  /**
   * The first pass of `Board.Advance`: `Cell.DetermineNextLiveState` on every cell,
   * in the program's `foreach` order (x outer, y inner), filling the next-state
   * buffers while the current states stay untouched.
   */
  method DetermineNextStates(g: Grid) returns (aliveNext: seq<seq<bool>>)
    requires g.Valid()
    ensures IsMatrix(aliveNext, g.columns, g.rows)
    ensures forall j, i | 0 <= j < g.rows && 0 <= i < g.columns :: aliveNext[j][i] == NextCell(g, Pos(i, j))
  {
    aliveNext := g.cells;
    var x := 0;
    while x < g.columns
      invariant 0 <= x <= g.columns
      invariant IsMatrix(aliveNext, g.columns, g.rows)
      invariant forall j, i | 0 <= j < g.rows && 0 <= i < x :: aliveNext[j][i] == NextCell(g, Pos(i, j))
    {
      aliveNext := DetermineColumn(g, x, aliveNext);
      x := x + 1;
    }
  }

  /** The inner loop of the first pass: the buffers of column `x`, top to bottom. */
  method DetermineColumn(g: Grid, x: nat, aliveNext: seq<seq<bool>>) returns (updated: seq<seq<bool>>)
    requires g.Valid() && x < g.columns && IsMatrix(aliveNext, g.columns, g.rows)
    ensures IsMatrix(updated, g.columns, g.rows)
    ensures forall j, i | 0 <= j < g.rows && 0 <= i < g.columns ::
      updated[j][i] == if i == x then NextCell(g, Pos(i, j)) else aliveNext[j][i]
  {
    updated := aliveNext;
    var y := 0;
    while y < g.rows
      invariant 0 <= y <= g.rows
      invariant IsMatrix(updated, g.columns, g.rows)
      invariant forall j, i | 0 <= j < g.rows && 0 <= i < g.columns ::
        updated[j][i] == if i == x && j < y then NextCell(g, Pos(i, j)) else aliveNext[j][i]
    {
      updated := SetCell(updated, g.columns, g.rows, x, y, NextCell(g, Pos(x, y)));
      y := y + 1;
    }
  }

  /** The matrix `m` with the entry at column `x`, row `y` replaced by `v`. */
  function SetCell(m: seq<seq<bool>>, columns: nat, rows: nat, x: nat, y: nat, v: bool): (r: seq<seq<bool>>)
    requires IsMatrix(m, columns, rows) && x < columns && y < rows
    ensures IsMatrix(r, columns, rows)
    ensures forall j, i | 0 <= j < rows && 0 <= i < columns :: r[j][i] == if j == y && i == x then v else m[j][i]
  {
    m[y := m[y][x := v]]
  }

  /** The second pass of `Board.Advance`: `Cell.Advance` copies every buffer into its cell's state. */
  method CommitNextStates(alive: seq<seq<bool>>, aliveNext: seq<seq<bool>>, columns: nat, rows: nat) returns (committed: seq<seq<bool>>)
    requires IsMatrix(alive, columns, rows) && IsMatrix(aliveNext, columns, rows)
    ensures committed == aliveNext
  {
    committed := alive;
    var x := 0;
    while x < columns
      invariant 0 <= x <= columns
      invariant IsMatrix(committed, columns, rows)
      invariant forall j, i | 0 <= j < rows && 0 <= i < x :: committed[j][i] == aliveNext[j][i]
    {
      var y := 0;
      while y < rows
        invariant 0 <= y <= rows
        invariant IsMatrix(committed, columns, rows)
        invariant forall j, i | 0 <= j < rows && 0 <= i < columns && VisitedBefore(i, j, x, y) :: committed[j][i] == aliveNext[j][i]
      {
        committed := committed[y := committed[y][x := aliveNext[y][x]]];
        y := y + 1;
      }
      x := x + 1;
    }
    assert forall j | 0 <= j < rows :: committed[j] == aliveNext[j];
  }

  /**
   * `Board.Advance`: every cell first computes its next state from the current
   * generation, then every cell commits it. Because the first pass writes no
   * state, the result is exactly one `Step`.
   */
  method Advance(g: Grid) returns (r: Grid)
    requires g.Valid()
    ensures r == Step(g)
  {
    var aliveNext := DetermineNextStates(g);
    var alive := CommitNextStates(g.cells, aliveNext, g.columns, g.rows);
    r := Grid(g.columns, g.rows, alive);
    assert forall j | 0 <= j < g.rows :: r.cells[j] == Step(g).cells[j];
  }

  function Indicator(b: bool): nat {
    if b then 1 else 0
  }

  lemma CountUnfold(states: seq<bool>)
    requires |states| > 0
    ensures CountAlive(states) == Indicator(states[0]) + CountAlive(states[1..])
  {
  }

  /** The live count of eight neighbour states, written out. */
  lemma CountEight(s: seq<bool>)
    requires |s| == 8
    ensures CountAlive(s) == Indicator(s[0]) + Indicator(s[1]) + Indicator(s[2]) + Indicator(s[3])
                           + Indicator(s[4]) + Indicator(s[5]) + Indicator(s[6]) + Indicator(s[7])
  {
    CountUnfold(s); CountUnfold(s[1..]); CountUnfold(s[2..]); CountUnfold(s[3..]);
    CountUnfold(s[4..]); CountUnfold(s[5..]); CountUnfold(s[6..]); CountUnfold(s[7..]);
    assert s[1..][1..] == s[2..] && s[2..][1..] == s[3..] && s[3..][1..] == s[4..];
    assert s[4..][1..] == s[5..] && s[5..][1..] == s[6..] && s[6..][1..] == s[7..] && s[7..][1..] == s[8..];
    assert s[1..][0] == s[1] && s[2..][0] == s[2] && s[3..][0] == s[3] && s[4..][0] == s[4];
    assert s[5..][0] == s[5] && s[6..][0] == s[6] && s[7..][0] == s[7];
    assert CountAlive(s[8..]) == 0;
  }

  /** A dead cell none of whose neighbours is alive stays dead. */
  lemma QuietCellStaysDead(g: Grid, p: Pos)
    requires g.Valid() && g.Contains(p) && !g.cells[p.y][p.x]
    requires forall k | 0 <= k < 8 :: !g.Alive(NeighborList(g, p)[k])
    ensures !NextCell(g, p)
  {
    CountEight(NeighborStates(g, p));
  }

  /** A grid of the same size whose every cell is the rule's verdict is the next generation. */
  lemma StepIs(g: Grid, h: Grid)
    requires g.Valid() && h.Valid() && h.columns == g.columns && h.rows == g.rows
    requires forall y, x | 0 <= y < g.rows && 0 <= x < g.columns :: h.cells[y][x] == NextCell(g, Pos(x, y))
    ensures Step(g) == h
  {
    var r := Step(g);
    forall y | 0 <= y < g.rows
      ensures r.cells[y] == h.cells[y]
    {
    }
  }

  /** A board with no live cell stays without one. */
  lemma EmptyBoardStaysEmpty(g: Grid)
    requires g.Valid() && forall y, x | 0 <= y < g.rows && 0 <= x < g.columns :: !g.cells[y][x]
    ensures Step(g) == g
  {
    forall y, x | 0 <= y < g.rows && 0 <= x < g.columns
      ensures g.cells[y][x] == NextCell(g, Pos(x, y))
    {
      QuietCellStaysDead(g, Pos(x, y));
    }
    StepIs(g, g);
  }

  /**
   * The 1 x 1 board: its cell appears eight times in its own neighbour list, so a
   * live cell counts 8 live neighbours and dies, where a lone cell would die anyway
   * but with 0.
   */
  lemma SingleCellBoardCountsItselfEightTimes(g: Grid)
    requires g == Grid(1, 1, [[true]])
    ensures CountAlive(NeighborStates(g, Pos(0, 0))) == 8
    ensures Step(g) == Grid(1, 1, [[false]])
  {
    var states := NeighborStates(g, Pos(0, 0));
    assert states == [true, true, true, true, true, true, true, true];
    CountEight(states);
    assert Step(g).cells[0] == [false];
  }

  /** The live-neighbour count of `p`, one term per wired neighbour. */
  lemma NeighborCount(g: Grid, p: Pos)
    requires g.Valid() && g.Contains(p)
    ensures var n := NeighborList(g, p);
      CountAlive(NeighborStates(g, p))
        == Indicator(g.Alive(n[0])) + Indicator(g.Alive(n[1])) + Indicator(g.Alive(n[2])) + Indicator(g.Alive(n[3]))
         + Indicator(g.Alive(n[4])) + Indicator(g.Alive(n[5])) + Indicator(g.Alive(n[6])) + Indicator(g.Alive(n[7]))
  {
    CountEight(NeighborStates(g, p));
  }

  /** The board rotated one column to the right on the torus: column x takes column x - 1's states. */
  function ShiftColumns(g: Grid): (h: Grid)
    requires g.Valid()
    ensures h.Valid() && h.columns == g.columns && h.rows == g.rows
    ensures forall y, x | 0 <= y < g.rows && 0 <= x < g.columns :: h.cells[y][x] == g.cells[y][Before(x, g.columns)]
  {
    Build(g.columns, g.rows, (x: nat, y: nat) => if x < g.columns && y < g.rows then g.cells[y][Before(x, g.columns)] else false)
  }

  /** The board rotated one row down on the torus: row y takes row y - 1's states. */
  function ShiftRows(g: Grid): (h: Grid)
    requires g.Valid()
    ensures h.Valid() && h.columns == g.columns && h.rows == g.rows
    ensures forall y, x | 0 <= y < g.rows && 0 <= x < g.columns :: h.cells[y][x] == g.cells[Before(y, g.rows)][x]
  {
    Build(g.columns, g.rows, (x: nat, y: nat) => if x < g.columns && y < g.rows then g.cells[Before(y, g.rows)][x] else false)
  }

  /** After a column rotation a cell sees exactly what its source cell saw. */
  lemma ShiftColumnsNeighborStates(g: Grid, p: Pos)
    requires g.Valid() && g.Contains(p)
    ensures NeighborStates(ShiftColumns(g), p) == NeighborStates(g, Pos(Before(p.x, g.columns), p.y))
  {
    RingInverse(p.x, g.columns);
    RingInverse(Before(p.x, g.columns), g.columns);
    RingInverse(After(p.x, g.columns), g.columns);
    RingInverse(p.y, g.rows);
  }

  /** After a row rotation a cell sees exactly what its source cell saw. */
  lemma ShiftRowsNeighborStates(g: Grid, p: Pos)
    requires g.Valid() && g.Contains(p)
    ensures NeighborStates(ShiftRows(g), p) == NeighborStates(g, Pos(p.x, Before(p.y, g.rows)))
  {
    RingInverse(p.y, g.rows);
    RingInverse(Before(p.y, g.rows), g.rows);
    RingInverse(After(p.y, g.rows), g.rows);
    RingInverse(p.x, g.columns);
  }

  /**
   * The wiring has no edges: rotating the torus by a column and then advancing a
   * generation is the same as advancing and then rotating.
   */
  lemma StepCommutesWithShiftColumns(g: Grid)
    requires g.Valid()
    ensures Step(ShiftColumns(g)) == ShiftColumns(Step(g))
  {
    forall y, x | 0 <= y < g.rows && 0 <= x < g.columns
      ensures ShiftColumns(Step(g)).cells[y][x] == NextCell(ShiftColumns(g), Pos(x, y))
    {
      ShiftColumnsCell(g, x, y);
    }
    StepIs(ShiftColumns(g), ShiftColumns(Step(g)));
  }

  /** One cell of `StepCommutesWithShiftColumns`. */
  lemma ShiftColumnsCell(g: Grid, x: nat, y: nat)
    requires g.Valid() && x < g.columns && y < g.rows
    ensures ShiftColumns(Step(g)).cells[y][x] == NextCell(ShiftColumns(g), Pos(x, y))
  {
    var h := ShiftColumns(g);
    var left := Before(x, g.columns);
    RingInverse(x, g.columns);
    ShiftColumnsNeighborStates(g, Pos(x, y));
    assert h.cells[y][x] == g.cells[y][left];
    assert ShiftColumns(Step(g)).cells[y][x] == Step(g).cells[y][left] == NextCell(g, Pos(left, y));
  }

  /** Rotating the torus by a row commutes with advancing a generation. */
  lemma StepCommutesWithShiftRows(g: Grid)
    requires g.Valid()
    ensures Step(ShiftRows(g)) == ShiftRows(Step(g))
  {
    forall y, x | 0 <= y < g.rows && 0 <= x < g.columns
      ensures ShiftRows(Step(g)).cells[y][x] == NextCell(ShiftRows(g), Pos(x, y))
    {
      ShiftRowsCell(g, x, y);
    }
    StepIs(ShiftRows(g), ShiftRows(Step(g)));
  }

  /** One cell of `StepCommutesWithShiftRows`. */
  lemma ShiftRowsCell(g: Grid, x: nat, y: nat)
    requires g.Valid() && x < g.columns && y < g.rows
    ensures ShiftRows(Step(g)).cells[y][x] == NextCell(ShiftRows(g), Pos(x, y))
  {
    var h := ShiftRows(g);
    var above := Before(y, g.rows);
    RingInverse(y, g.rows);
    ShiftRowsNeighborStates(g, Pos(x, y));
    assert h.cells[y][x] == g.cells[above][x];
    assert ShiftRows(Step(g)).cells[y][x] == Step(g).cells[above][x] == NextCell(g, Pos(x, above));
  }
}
