/**
 * The toroidal Moore neighbourhood. The program wires every cell, once, to a
 * list of eight neighbour references (`Board.ConnectNeighbors`); here the list is
 * computed on demand from the coordinates. The flood fill of the element counter
 * uses a second, arithmetic description of the same neighbourhood; the lemmas
 * below show that the two agree.
 */
module Neighbors {
  import opened Boards

  /** The previous index on a ring of `n` indices (`xL`, `yT` in the wiring). */
  function Before(i: int, n: int): int {
    if i > 0 then i - 1 else n - 1
  }

  /** The next index on a ring of `n` indices (`xR`, `yB` in the wiring). */
  function After(i: int, n: int): int {
    if i < n - 1 then i + 1 else 0
  }

  /** The eight (dx, dy) offsets in the order the wiring appends neighbours. */
  const Directions: seq<(int, int)> :=
    [(-1, -1), (0, -1), (1, -1), (-1, 0), (1, 0), (-1, 1), (0, 1), (1, 1)]

  /** The eight offsets in the order the flood fill visits them: dx outer, dy inner, (0, 0) skipped. */
  const FloodDirections: seq<(int, int)> :=
    [(-1, -1), (-1, 0), (-1, 1), (0, -1), (0, 1), (1, -1), (1, 0), (1, 1)]

  /**
   * The flood fill's neighbour of `p` in direction `d`: `(x + dx + columns) % columns`
   * and likewise for rows. For boards of at most 2^30 columns and rows the 32-bit
   * sum neither overflows nor goes negative, so C#'s truncating `%` and Dafny's
   * Euclidean `%` agree there; the model does not wrap the sum.
   */
  function Wrap(g: Grid, p: Pos, d: (int, int)): (q: Pos)
    requires g.Contains(p)
    requires -1 <= d.0 <= 1 && -1 <= d.1 <= 1
    ensures g.Contains(q)
    ensures q.x == if p.x + d.0 < 0 then g.columns - 1 else if p.x + d.0 == g.columns then 0 else p.x + d.0
    ensures q.y == if p.y + d.1 < 0 then g.rows - 1 else if p.y + d.1 == g.rows then 0 else p.y + d.1
  {
    RingStep(p.x, g.columns);
    RingStep(p.y, g.rows);
    Pos((p.x + d.0 + g.columns) % g.columns, (p.y + d.1 + g.rows) % g.rows)
  }

  /** `%` is determined by any decomposition `v == q * n + r` with `0 <= r < n`. */
  lemma ModUnique(v: int, n: int, q: int, r: int)
    requires 0 < n && 0 <= r < n && v == q * n + r
    ensures v % n == r
  {
    var q', r' := v / n, v % n;
    assert (q - q') * n == r' - r;
    if q > q' {
      ProductAtLeast(q - q', n);
    } else if q < q' {
      ProductAtLeast(q' - q, n);
    }
  }

  /** The wiring's edge rules and the flood fill's modular offsets pick the same index. */
  lemma RingStep(i: int, n: int)
    requires 0 <= i < n
    ensures Before(i, n) == (i - 1 + n) % n
    ensures i == (i + n) % n
    ensures After(i, n) == (i + 1 + n) % n
  {
    ModUnique(i + n, n, 1, i);
    if i > 0 {
      ModUnique(i - 1 + n, n, 1, i - 1);
    } else {
      ModUnique(i - 1 + n, n, 0, n - 1);
    }
    if i < n - 1 {
      ModUnique(i + 1 + n, n, 1, i + 1);
    } else {
      ModUnique(i + 1 + n, n, 2, 0);
    }
  }

  /**
   * The neighbour list `ConnectNeighbors` builds for the cell at `p`: eight entries,
   * one per offset of `Directions`, each computed by the edge rules for `xL`, `xR`,
   * `yT`, `yB`.
   */
  function NeighborList(g: Grid, p: Pos): (r: seq<Pos>)
    requires g.Contains(p)
    ensures |r| == 8
    ensures forall k | 0 <= k < 8 :: g.Contains(r[k])
  {
    var xL, xR := Before(p.x, g.columns), After(p.x, g.columns);
    var yT, yB := Before(p.y, g.rows), After(p.y, g.rows);
    [Pos(xL, yT), Pos(p.x, yT), Pos(xR, yT),
     Pos(xL, p.y), Pos(xR, p.y),
     Pos(xL, yB), Pos(p.x, yB), Pos(xR, yB)]
  }

  /**
   * Every wired neighbour is the cell the flood fill's `(x + dx + C) % C`,
   * `(y + dy + R) % R` arithmetic reaches with the same offset.
   */
  lemma WiringMatchesWrap(g: Grid, p: Pos)
    requires g.Contains(p)
    ensures forall k | 0 <= k < 8 :: NeighborList(g, p)[k] == Wrap(g, p, Directions[k])
  {
    RingStep(p.x, g.columns);
    RingStep(p.y, g.rows);
  }

  /** The neighbours of `p` in the order the flood fill visits them. */
  function FloodNeighbors(g: Grid, p: Pos): (r: seq<Pos>)
    requires g.Contains(p)
    ensures |r| == 8
  {
    seq(8, k requires 0 <= k < 8 => Wrap(g, p, FloodDirections[k]))
  }

  /**
   * The flood fill visits the wired neighbours, each reached through the same
   * offset, only in another order.
   */
  lemma FloodMatchesWiring(g: Grid, p: Pos)
    requires g.Contains(p)
    ensures FloodNeighbors(g, p) == [NeighborList(g, p)[0], NeighborList(g, p)[3], NeighborList(g, p)[5], NeighborList(g, p)[1],
                                     NeighborList(g, p)[6], NeighborList(g, p)[2], NeighborList(g, p)[4], NeighborList(g, p)[7]]
    ensures forall q :: q in FloodNeighbors(g, p) <==> q in NeighborList(g, p)
  {
    var w, f := NeighborList(g, p), FloodNeighbors(g, p);
    WiringMatchesWrap(g, p);
    var order := [0, 3, 5, 1, 6, 2, 4, 7];
    var permuted := [w[0], w[3], w[5], w[1], w[6], w[2], w[4], w[7]];
    forall k | 0 <= k < 8
      ensures f[k] == permuted[k]
    {
      assert FloodDirections[k] == Directions[order[k]];
      assert permuted[k] == w[order[k]];
    }
    assert f == permuted;
    Reorder(w[0], w[1], w[2], w[3], w[4], w[5], w[6], w[7]);
    assert w == [w[0], w[1], w[2], w[3], w[4], w[5], w[6], w[7]];
  }

  /** Listing eight values in the flood fill's order instead of the wiring's keeps the same members. */
  lemma Reorder<T>(a: T, b: T, c: T, d: T, e: T, f: T, g: T, h: T)
    ensures forall q :: q in [a, d, f, b, g, c, e, h] <==> q in [a, b, c, d, e, f, g, h]
  {
  }

  lemma RingInverse(i: int, n: int)
    requires 0 <= i < n
    ensures After(Before(i, n), n) == i && Before(After(i, n), n) == i
    ensures 0 <= Before(i, n) < n && 0 <= After(i, n) < n
  {
  }

  /**
   * Adjacency is symmetric: if `q` is the k-th neighbour of `p` then `p` is the
   * (7 - k)-th neighbour of `q` (the opposite direction).
   */
  lemma NeighborSymmetric(g: Grid, p: Pos, k: int)
    requires g.Contains(p) && 0 <= k < 8
    ensures g.Contains(NeighborList(g, p)[k])
    ensures NeighborList(g, NeighborList(g, p)[k])[7 - k] == p
  {
    RingInverse(p.x, g.columns);
    RingInverse(p.y, g.rows);
  }

  /**
   * On a board at least 3 cells wide and high the eight neighbours are distinct
   * cells, none of them the cell itself: the ordinary Moore neighbourhood.
   */
  lemma NeighborsDistinct(g: Grid, p: Pos)
    requires g.Contains(p) && g.columns >= 3 && g.rows >= 3
    ensures forall i, j | 0 <= i < j < 8 :: NeighborList(g, p)[i] != NeighborList(g, p)[j]
    ensures p !in NeighborList(g, p)
  {
    var n := NeighborList(g, p);
    var xL, xR := Before(p.x, g.columns), After(p.x, g.columns);
    var yT, yB := Before(p.y, g.rows), After(p.y, g.rows);
    assert xL != p.x && p.x != xR && xR != xL;
    assert yT != p.y && p.y != yB && yB != yT;
  }

  /** On a 1 x 1 board the single cell is all eight of its own neighbours. */
  lemma SingleCellIsOwnNeighbor(g: Grid)
    requires g.columns == 1 && g.rows == 1
    ensures NeighborList(g, Pos(0, 0)) == seq(8, _ => Pos(0, 0))
  {
  }
}
