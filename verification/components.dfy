/**
 * `ElementCounter`: live cells grouped into 8-connected regions ("combinations")
 * with toroidal wrap-around, found by flood fill over a `visited` marking.
 *
 * The reference definition is `Component`: the least set that contains a live cell
 * and every live neighbour of each of its members. The flood fill is proved to
 * mark exactly one such component per start cell, so `CountElements` returns the
 * number of live cells and the number of components with more than one cell.
 */
module Components {
  import opened Boards
  import opened Neighbors

  /** The live cells wired to some cell of `S`. */
  function LiveNeighborsOf(g: Grid, S: set<Pos>): (r: set<Pos>)
    requires g.Valid() && S <= g.Positions()
    ensures r <= g.Positions()
    ensures forall q | q in r :: g.Alive(q)
  {
    set p, k | p in S && 0 <= k < 8 && g.Alive(NeighborList(g, p)[k]) :: NeighborList(g, p)[k]
  }

  /** Every live neighbour of a cell of `S` is in `S`. */
  ghost predicate Closed(g: Grid, S: set<Pos>)
    requires g.Valid() && S <= g.Positions()
  {
    forall p, k | p in S && 0 <= k < 8 :: g.Alive(NeighborList(g, p)[k]) ==> NeighborList(g, p)[k] in S
  }

  lemma SubsetCard<T>(a: set<T>, b: set<T>)
    requires a <= b
    ensures |b| == |a| + |b - a|
  {
    assert b == a + (b - a);
    assert a * (b - a) == {};
  }

  /**
   * Adding live neighbours until nothing changes. Its closure facts are stated by
   * `ReachClosed` rather than here, so that they are only in scope where a proof
   * asks for them.
   */
  ghost function Reach(g: Grid, S: set<Pos>): (r: set<Pos>)
    requires g.Valid() && S <= g.Positions()
    ensures S <= r <= g.Positions()
    decreases |g.Positions() - S|
  {
    var next := S + LiveNeighborsOf(g, S);
    if next == S then S
    else
      SubsetCard(g.Positions() - next, g.Positions() - S);
      Reach(g, next)
  }

  /** The fixpoint is closed under live neighbours and adds only live cells. */
  lemma {:induction false} ReachClosed(g: Grid, S: set<Pos>)
    requires g.Valid() && S <= g.Positions()
    ensures Closed(g, Reach(g, S))
    ensures forall q | q in Reach(g, S) - S :: g.Alive(q)
    decreases |g.Positions() - S|
  {
    var next := S + LiveNeighborsOf(g, S);
    if next == S {
      forall p, k | p in S && 0 <= k < 8 && g.Alive(NeighborList(g, p)[k])
        ensures NeighborList(g, p)[k] in S
      {
        assert NeighborList(g, p)[k] in LiveNeighborsOf(g, S);
      }
    } else {
      SubsetCard(g.Positions() - next, g.Positions() - S);
      ReachClosed(g, next);
    }
  }

  /** `Reach(S)` lies inside every closed set that contains `S`. */
  lemma {:induction false} ReachLeast(g: Grid, S: set<Pos>, T: set<Pos>)
    requires g.Valid() && S <= T <= g.Positions() && Closed(g, T)
    ensures Reach(g, S) <= T
    decreases |g.Positions() - S|
  {
    var next := S + LiveNeighborsOf(g, S);
    if next != S {
      assert LiveNeighborsOf(g, S) <= T;
      SubsetCard(g.Positions() - next, g.Positions() - S);
      ReachLeast(g, next, T);
    }
  }

  /** The combination of the live cell `p`: every cell 8-connected to it through live cells. */
  ghost function Component(g: Grid, p: Pos): (c: set<Pos>)
    requires g.Valid() && g.Alive(p)
    ensures p in c && c <= g.Positions()
  {
    Reach(g, {p})
  }

  /** A combination is made of live cells and holds every live neighbour of its members. */
  lemma ComponentClosed(g: Grid, p: Pos)
    requires g.Valid() && g.Alive(p)
    ensures Component(g, p) <= g.LiveCells() && Closed(g, Component(g, p))
  {
    ReachClosed(g, {p});
  }

  /** A live cell outside a closed set `C` is never wired to a member of `C`. */
  lemma ComplementClosed(g: Grid, C: set<Pos>)
    requires g.Valid() && C <= g.Positions() && Closed(g, C)
    ensures Closed(g, g.LiveCells() - C)
  {
    var T := g.LiveCells() - C;
    forall t, k | t in T && 0 <= k < 8 && g.Alive(NeighborList(g, t)[k])
      ensures NeighborList(g, t)[k] in T
    {
      var u := NeighborList(g, t)[k];
      NeighborSymmetric(g, t, k);
    }
  }

  /** Connection is symmetric: if `q` is in `p`'s combination then `p` is in `q`'s. */
  lemma ComponentSymmetric(g: Grid, p: Pos, q: Pos)
    requires g.Valid() && g.Alive(p) && q in Component(g, p)
    ensures g.Alive(q) && p in Component(g, q)
  {
    ComponentClosed(g, p);
    if p !in Component(g, q) {
      ComponentClosed(g, q);
      var T := g.LiveCells() - Component(g, q);
      ComplementClosed(g, Component(g, q));
      ReachLeast(g, {p}, T);
    }
  }

  /** Every member of a combination has that same combination. */
  lemma ComponentOfMember(g: Grid, p: Pos, q: Pos)
    requires g.Valid() && g.Alive(p) && q in Component(g, p)
    ensures g.Alive(q) && Component(g, q) == Component(g, p)
  {
    ComponentSymmetric(g, p, q);
    ComponentClosed(g, p);
    ComponentClosed(g, q);
    ReachLeast(g, {q}, Component(g, p));
    ReachLeast(g, {p}, Component(g, q));
  }

  /** A combination that has a cell in a closed set lies entirely inside it. */
  lemma ComponentInsideClosed(g: Grid, V: set<Pos>, p: Pos)
    requires g.Valid() && V <= g.Positions() && Closed(g, V) && g.Alive(p)
    ensures p in V ==> Component(g, p) <= V
    ensures p !in V ==> Component(g, p) !! V
  {
    if p in V {
      ReachLeast(g, {p}, V);
    } else {
      forall c | c in Component(g, p)
        ensures c !in V
      {
        ComponentSymmetric(g, p, c);
        if c in V {
          ReachLeast(g, {c}, V);
        }
      }
    }
  }

  /** Every live neighbour of a newly marked cell is marked. */
  ghost predicate NewCellsClosed(g: Grid, before: set<Pos>, after: set<Pos>)
    requires g.Valid() && after <= g.Positions()
  {
    forall p, k | p in after - before && 0 <= k < 8 :: g.Alive(NeighborList(g, p)[k]) ==> NeighborList(g, p)[k] in after
  }

  /** Marking only grows: a newly marked set's closure facts compose. */
  lemma NewCellsClosedTrans(g: Grid, a: set<Pos>, b: set<Pos>, c: set<Pos>)
    requires g.Valid() && a <= b <= c <= g.Positions()
    requires NewCellsClosed(g, a, b) && NewCellsClosed(g, b, c)
    ensures NewCellsClosed(g, a, c)
  {
  }

  lemma CardStep<T>(a: set<T>, b: set<T>, c: set<T>)
    requires a <= b <= c
    ensures |c - a| == |b - a| + |c - b|
  {
    SubsetCard(b - a, c - a);
    assert (c - a) - (b - a) == c - b;
  }

  lemma Shrinks<T>(all: set<T>, a: set<T>, b: set<T>, e: T)
    requires a <= b <= all && e in b - a
    ensures |all - b| < |all - a|
  {
    SubsetCard(all - b, all - a);
    assert e in (all - a) - (all - b);
  }

  /** A live cell wired to a live cell is in the same combination. */
  lemma NeighborSameComponent(g: Grid, s: Pos, n: Pos)
    requires g.Valid() && g.Alive(s) && n in NeighborList(g, s) && g.Alive(n)
    ensures Component(g, n) == Component(g, s)
  {
    var k :| 0 <= k < 8 && NeighborList(g, s)[k] == n;
    assert n in Component(g, s);
    ComponentOfMember(g, s, n);
  }

  /** The k-th cell the flood fill visits from `p`, in the program's arithmetic. */
  lemma FloodNeighborAt(g: Grid, p: Pos, k: int, nx: int, ny: int)
    requires g.Contains(p) && 0 <= k < 8
    requires nx == (p.x + FloodDirections[k].0 + g.columns) % g.columns
    requires ny == (p.y + FloodDirections[k].1 + g.rows) % g.rows
    ensures Pos(nx, ny) == FloodNeighbors(g, p)[k]
  {
  }

  /**
   * The state of `ExploreCombination` from the live, unvisited `start` after
   * exploring its first `k` flood-fill neighbours.
   */
  ghost predicate Exploring(g: Grid, visited: set<Pos>, start: Pos, marked: set<Pos>, size: nat, k: int)
    requires g.Valid()
  {
    && 0 <= k <= 8 && g.Alive(start) && start !in visited
    && visited + {start} <= marked <= g.Positions()
    && size == |marked - visited|
    && marked - visited <= Component(g, start)
    && (forall j | 0 <= j < k :: g.Alive(FloodNeighbors(g, start)[j]) ==> FloodNeighbors(g, start)[j] in marked)
    && NewCellsClosed(g, visited + {start}, marked)
  }

  /** One turn of the loop over the eight directions keeps `Exploring`. */
  lemma ExploreStep(g: Grid, visited: set<Pos>, start: Pos, marked: set<Pos>, size: nat, k: int,
                    n: Pos, after: set<Pos>, found: nat)
    requires g.Valid() && Exploring(g, visited, start, marked, size, k) && k < 8
    requires n == FloodNeighbors(g, start)[k]
    requires marked <= after <= g.Positions() && found == |after - marked|
    requires !g.Alive(n) || n in marked ==> after == marked
    requires g.Alive(n) && n !in marked ==> n in after && after - marked <= Component(g, n)
    requires NewCellsClosed(g, marked, after)
    ensures Exploring(g, visited, start, after, size + found, k + 1)
  {
    CardStep(visited, marked, after);
    NewCellsClosedTrans(g, visited + {start}, marked, after);
    if g.Alive(n) && n !in marked {
      FloodMatchesWiring(g, start);
      NeighborSameComponent(g, start, n);
    }
  }

  /** After all eight directions, no live neighbour of a newly marked cell is unmarked. */
  lemma ExploreDone(g: Grid, visited: set<Pos>, start: Pos, marked: set<Pos>, size: nat)
    requires g.Valid() && Exploring(g, visited, start, marked, size, 8)
    ensures NewCellsClosed(g, visited, marked)
  {
    FloodMatchesWiring(g, start);
    forall k | 0 <= k < 8 && g.Alive(NeighborList(g, start)[k])
      ensures NeighborList(g, start)[k] in marked
    {
      var n := NeighborList(g, start)[k];
      assert n in FloodNeighbors(g, start);
    }
  }

  /**
   * `ExploreCombination(x, y)`: nothing happens, and 0 is returned, for a cell off
   * the board, already visited or dead. Otherwise the cell is marked and each of its
   * eight neighbours `((x + dx + C) % C, (y + dy + R) % R)` is explored in turn; the
   * result is the number of cells this call marked. Marks are never removed, every
   * newly marked cell is live and in the start cell's combination, and no live
   * neighbour of a newly marked cell is left unmarked.
   */
  method ExploreCombination(g: Grid, visited: set<Pos>, x: int, y: int) returns (marked: set<Pos>, size: nat)
    requires g.Valid() && visited <= g.Positions()
    ensures visited <= marked <= g.Positions()
    ensures size == |marked - visited|
    ensures !g.Alive(Pos(x, y)) || Pos(x, y) in visited ==> marked == visited && size == 0
    ensures g.Alive(Pos(x, y)) && Pos(x, y) !in visited ==>
      Pos(x, y) in marked && marked - visited <= Component(g, Pos(x, y))
    ensures NewCellsClosed(g, visited, marked)
    decreases |g.Positions() - visited|, 0
  {
    if x < 0 || x >= g.columns || y < 0 || y >= g.rows || Pos(x, y) in visited || !g.cells[y][x] {
      return visited, 0;
    }
    var start := Pos(x, y);
    Shrinks(g.Positions(), visited, visited + {start}, start);
    marked, size := ExploreNeighbors(g, visited, start, visited + {start}, 1);
    ExploreDone(g, visited, start, marked, size);
  }

  /**
   * The loop of `ExploreCombination` over the eight directions `(dx, dy)`, dx outer,
   * dy inner, from the just-marked `start`, with the program's wrap-around
   * arithmetic for the neighbour's coordinates.
   */
  method ExploreNeighbors(g: Grid, visited: set<Pos>, start: Pos, marked0: set<Pos>, size0: nat)
    returns (marked: set<Pos>, size: nat)
    requires g.Valid() && Exploring(g, visited, start, marked0, size0, 0)
    ensures Exploring(g, visited, start, marked, size, 8)
    decreases |g.Positions() - marked0|, 1
  {
    marked, size := marked0, size0;
    var k := 0;
    while k < 8
      invariant Exploring(g, visited, start, marked, size, k)
      invariant marked0 <= marked
    {
      var d := FloodDirections[k];
      var nx := (start.x + d.0 + g.columns) % g.columns;
      var ny := (start.y + d.1 + g.rows) % g.rows;
      FloodNeighborAt(g, start, k, nx, ny);
      SubsetCard(g.Positions() - marked, g.Positions() - marked0);
      var after, found := ExploreCombination(g, marked, nx, ny);
      ExploreStep(g, visited, start, marked, size, k, Pos(nx, ny), after, found);
      marked, size := after, size + found;
      k := k + 1;
    }
  }

  /** The combinations found among the marked cells `V` that have more than one cell. */
  ghost function CombinationsAmong(g: Grid, V: set<Pos>): set<set<Pos>>
    requires g.Valid() && V <= g.LiveCells()
  {
    set p {:trigger Component(g, p)} | p in V && |Component(g, p)| > 1 :: Component(g, p)
  }

  /** All combinations of the board with more than one cell. */
  ghost function Combinations(g: Grid): set<set<Pos>>
    requires g.Valid()
  {
    CombinationsAmong(g, g.LiveCells())
  }

  /**
   * Exploring an unvisited live cell from a closed marking marks exactly its
   * combination, keeps the marking closed, and adds that combination, if it has
   * more than one cell, as a new one.
   */
  lemma ExploredCombination(g: Grid, before: set<Pos>, after: set<Pos>, s: Pos)
    requires g.Valid() && before <= g.LiveCells() && Closed(g, before)
    requires g.Alive(s) && s !in before
    requires before <= after <= g.Positions() && s in after
    requires after - before <= Component(g, s) && NewCellsClosed(g, before, after)
    ensures after - before == Component(g, s)
    ensures after <= g.LiveCells() && Closed(g, after)
    ensures CombinationsAmong(g, after) == CombinationsAmong(g, before) + (if |Component(g, s)| > 1 then {Component(g, s)} else {})
    ensures Component(g, s) !in CombinationsAmong(g, before)
  {
    ClosedExtend(g, before, after);
    ReachLeast(g, {s}, after);
    CombinationsGrow(g, before, s);
    assert after == before + Component(g, s);
  }

  /** A closed marking extended by cells whose live neighbours are all marked is closed. */
  lemma ClosedExtend(g: Grid, before: set<Pos>, after: set<Pos>)
    requires g.Valid() && before <= after <= g.Positions()
    requires Closed(g, before) && NewCellsClosed(g, before, after)
    ensures Closed(g, after)
  {
  }

  /**
   * Adding the combination of an unmarked live cell to a closed marking adds it,
   * when it has more than one cell, as a combination not found before.
   */
  lemma CombinationsGrow(g: Grid, before: set<Pos>, s: Pos)
    requires g.Valid() && before <= g.LiveCells() && Closed(g, before)
    requires g.Alive(s) && s !in before
    ensures before + Component(g, s) <= g.LiveCells()
    ensures Component(g, s) !! before
    ensures CombinationsAmong(g, before + Component(g, s)) ==
      CombinationsAmong(g, before) + (if |Component(g, s)| > 1 then {Component(g, s)} else {})
    ensures Component(g, s) !in CombinationsAmong(g, before)
  {
    ComponentClosed(g, s);
    ComponentInsideClosed(g, before, s);
    MembersShareComponent(g, s);
    CombinationsOfUnion(g, before, s);
  }

  /** Every member of a combination is live and has that combination. */
  lemma MembersShareComponent(g: Grid, s: Pos)
    requires g.Valid() && g.Alive(s)
    ensures forall p | p in Component(g, s) :: g.Alive(p) && Component(g, p) == Component(g, s)
  {
    forall p | p in Component(g, s)
      ensures g.Alive(p) && Component(g, p) == Component(g, s)
    {
      ComponentOfMember(g, s, p);
    }
  }

  /** Marking a whole combination, disjoint from the marking, adds it and nothing else. */
  lemma CombinationsOfUnion(g: Grid, V: set<Pos>, s: Pos)
    requires g.Valid() && g.Alive(s)
    requires V + Component(g, s) <= g.LiveCells() && Component(g, s) !! V
    requires forall p | p in Component(g, s) :: Component(g, p) == Component(g, s)
    ensures CombinationsAmong(g, V + Component(g, s)) ==
      CombinationsAmong(g, V) + (if |Component(g, s)| > 1 then {Component(g, s)} else {})
    ensures Component(g, s) !in CombinationsAmong(g, V)
  {
    UnionCombinationsOld(g, V, s);
    UnionCombinationsNew(g, V, s);
    ComponentNotAmong(g, V, s);
  }

  /** A combination with no marked cell is not among the combinations found in the marking. */
  lemma ComponentNotAmong(g: Grid, V: set<Pos>, s: Pos)
    requires g.Valid() && g.Alive(s) && V <= g.LiveCells() && Component(g, s) !! V
    ensures Component(g, s) !in CombinationsAmong(g, V)
  {
    forall d | d in CombinationsAmong(g, V)
      ensures d != Component(g, s)
    {
      var p :| p in V && |Component(g, p)| > 1 && Component(g, p) == d;
      assert p in d;
    }
  }

  /** Every combination found in the union was found in `V` or is the added one. */
  lemma UnionCombinationsOld(g: Grid, V: set<Pos>, s: Pos)
    requires g.Valid() && g.Alive(s)
    requires V + Component(g, s) <= g.LiveCells()
    requires forall p | p in Component(g, s) :: Component(g, p) == Component(g, s)
    ensures CombinationsAmong(g, V + Component(g, s)) <=
      CombinationsAmong(g, V) + (if |Component(g, s)| > 1 then {Component(g, s)} else {})
  {
    var c := Component(g, s);
    forall d | d in CombinationsAmong(g, V + c)
      ensures d in CombinationsAmong(g, V) + (if |c| > 1 then {c} else {})
    {
      var p :| p in V + c && |Component(g, p)| > 1 && Component(g, p) == d;
      if p in V {
        assert d in CombinationsAmong(g, V);
      }
    }
  }

  /** The combinations found in `V`, and the added one when it has several cells, are found in the union. */
  lemma UnionCombinationsNew(g: Grid, V: set<Pos>, s: Pos)
    requires g.Valid() && g.Alive(s)
    requires V + Component(g, s) <= g.LiveCells()
    ensures CombinationsAmong(g, V) + (if |Component(g, s)| > 1 then {Component(g, s)} else {}) <=
      CombinationsAmong(g, V + Component(g, s))
  {
    var c := Component(g, s);
    forall d | d in CombinationsAmong(g, V)
      ensures d in CombinationsAmong(g, V + c)
    {
      var p :| p in V && |Component(g, p)| > 1 && Component(g, p) == d;
      assert p in V + c;
    }
    if |c| > 1 {
      assert s in V + c;
    }
  }

  /**
   * The counter's state after scanning every cell before (x, y) in the program's
   * order (x outer, y inner): the marking is closed, holds exactly live cells, holds
   * every scanned live cell, and the two totals describe it.
   */
  ghost predicate Scanned(g: Grid, visited: set<Pos>, totalCells: nat, combinations: nat, x: int, y: int)
    requires g.Valid()
  {
    && visited <= g.LiveCells()
    && Closed(g, visited)
    && (forall p | p in g.LiveCells() && (p.x < x || (p.x == x && p.y < y)) :: p in visited)
    && totalCells == |visited|
    && combinations == |CombinationsAmong(g, visited)|
    && 2 * combinations <= totalCells
  }

  /** Scanning a cell that starts a new combination. */
  lemma ScanExplored(g: Grid, visited: set<Pos>, totalCells: nat, combinations: nat, x: int, y: int,
                     marked: set<Pos>, size: nat)
    requires g.Valid() && Scanned(g, visited, totalCells, combinations, x, y)
    requires g.Alive(Pos(x, y)) && Pos(x, y) !in visited
    requires visited <= marked <= g.Positions() && size == |marked - visited|
    requires Pos(x, y) in marked && marked - visited <= Component(g, Pos(x, y))
    requires NewCellsClosed(g, visited, marked)
    ensures Scanned(g, marked, totalCells + size, combinations + (if size > 1 then 1 else 0), x, y + 1)
  {
    ExploredCombination(g, visited, marked, Pos(x, y));
    SubsetCard(visited, marked);
  }

  /** Scanning a cell that is dead or already marked. */
  lemma ScanSkipped(g: Grid, visited: set<Pos>, totalCells: nat, combinations: nat, x: int, y: int)
    requires g.Valid() && Scanned(g, visited, totalCells, combinations, x, y)
    requires !g.Alive(Pos(x, y)) || Pos(x, y) in visited
    ensures Scanned(g, visited, totalCells, combinations, x, y + 1)
  {
  }

  /** A finished column. */
  lemma ScanColumn(g: Grid, visited: set<Pos>, totalCells: nat, combinations: nat, x: int)
    requires g.Valid() && Scanned(g, visited, totalCells, combinations, x, g.rows)
    ensures Scanned(g, visited, totalCells, combinations, x + 1, 0)
  {
  }

  /** After the last column every live cell is marked. */
  lemma ScanFinished(g: Grid, visited: set<Pos>, totalCells: nat, combinations: nat)
    requires g.Valid() && Scanned(g, visited, totalCells, combinations, g.columns, 0)
    ensures visited == g.LiveCells()
  {
  }

  /**
   * `CountElements`: `totalCells` is the number of live cells and `combinations`
   * the number of 8-connected toroidal combinations of more than one cell.
   */
  method CountElements(g: Grid) returns (totalCells: nat, combinations: nat)
    requires g.Valid()
    ensures totalCells == |g.LiveCells()|
    ensures combinations == |Combinations(g)|
    ensures 2 * combinations <= totalCells
  {
    var visited: set<Pos> := {};
    totalCells, combinations := 0, 0;
    var x := 0;
    while x < g.columns
      invariant 0 <= x <= g.columns
      invariant Scanned(g, visited, totalCells, combinations, x, 0)
    {
      var y := 0;
      while y < g.rows
        invariant 0 <= y <= g.rows
        invariant Scanned(g, visited, totalCells, combinations, x, y)
      {
        if Pos(x, y) !in visited && g.cells[y][x] {
          var marked, combinationSize := ExploreCombination(g, visited, x, y);
          ScanExplored(g, visited, totalCells, combinations, x, y, marked, combinationSize);
          visited := marked;
          totalCells := totalCells + combinationSize;
          if combinationSize > 1 {
            combinations := combinations + 1;
          }
        } else {
          ScanSkipped(g, visited, totalCells, combinations, x, y);
        }
        y := y + 1;
      }
      ScanColumn(g, visited, totalCells, combinations, x);
      x := x + 1;
    }
    ScanFinished(g, visited, totalCells, combinations);
  }
}
