/**
 * The board of cells: a `columns` x `rows` grid of alive/dead states, and the
 * `Board` constructor that derives the grid size from pixel dimensions.
 *
 * `Life/Program.cs` stores `Cell[,] Cells` indexed `Cells[x, y]`; here the states are
 * kept row by row, `cells[y][x]`, which is also the order of the text format.
 */
module Boards {
  import opened Wrappers

  /** A cell coordinate; `x` is the column, `y` the row. */
  datatype Pos = Pos(x: int, y: int)

  /** The liveness of every cell of a `columns` x `rows` board. */
  datatype Grid = Grid(columns: nat, rows: nat, cells: seq<seq<bool>>) {

    /** `rows` rows of `columns` cells each. */
    predicate Valid() {
      |cells| == rows && forall y | 0 <= y < rows :: |cells[y]| == columns
    }

    predicate Contains(p: Pos) {
      0 <= p.x < columns && 0 <= p.y < rows
    }

    /** The cell at `p` exists and is alive. */
    predicate Alive(p: Pos)
      requires Valid()
    {
      Contains(p) && cells[p.y][p.x]
    }

    /** Every coordinate of the board. */
    function Positions(): (all: set<Pos>)
      ensures forall p :: p in all <==> Contains(p)
    {
      var all := set x, y | 0 <= x < columns && 0 <= y < rows :: Pos(x, y);
      assert forall p | Contains(p) :: p in all by {
        forall p | Contains(p) ensures p in all {
          assert p == Pos(p.x, p.y);
        }
      }
      all
    }

    /** The coordinates of the live cells. */
    function LiveCells(): (live: set<Pos>)
      requires Valid()
      ensures live <= Positions()
      ensures forall p :: p in live <==> Alive(p)
    {
      set p | p in Positions() && cells[p.y][p.x]
    }
  }

  /** The grid whose cell (x, y) is `state(x, y)`. */
  function Build(columns: nat, rows: nat, state: (nat, nat) -> bool): (g: Grid)
    ensures g.Valid() && g.columns == columns && g.rows == rows
    ensures forall y, x | 0 <= y < rows && 0 <= x < columns :: g.cells[y][x] == state(x, y)
  {
    Grid(columns, rows, seq(rows, y requires 0 <= y < rows => seq(columns, x requires 0 <= x < columns => state(x, y))))
  }

  /** Two well-formed grids of one size with the same cell states are the same grid. */
  lemma SameGrid(a: Grid, b: Grid)
    requires a.Valid() && b.Valid() && a.columns == b.columns && a.rows == b.rows
    requires forall y, x | 0 <= y < a.rows && 0 <= x < a.columns :: a.cells[y][x] == b.cells[y][x]
    ensures a == b
  {
    forall y | 0 <= y < a.rows
      ensures a.cells[y] == b.cells[y]
    {
    }
  }

  const MinInt32: int := -0x8000_0000
  const MaxInt32: int := 0x7fff_ffff

  predicate IsInt32(n: int) {
    MinInt32 <= n <= MaxInt32
  }

  function Abs(n: int): nat {
    if n < 0 then -n else n
  }

  lemma ProductAtLeast(a: int, n: int)
    requires 1 <= a && 0 < n
    ensures a * n >= n
  {
    assert a * n == (a - 1) * n + n;
  }

  /** Euclidean division of naturals, spelled out for the solver. */
  lemma DivisionOfNaturals(a: nat, b: nat)
    requires 0 < b
    ensures a == (a / b) * b + a % b && 0 <= a % b < b
    ensures 0 <= a / b <= a
  {
    var n := a / b;
    if n > 0 {
      ProductAtLeast(b, n);
      assert n * b == b * n;
    }
  }

  /**
   * C#'s integer `/`: the quotient rounded toward zero (Dafny's own `/` is
   * Euclidean, which differs for negative operands).
   */
  function TruncDiv(a: int, b: int): (q: int)
    requires b != 0
    ensures var rest := a - q * b;
      && (a >= 0 ==> 0 <= rest) && (a <= 0 ==> rest <= 0) && Abs(rest) < Abs(b)
    ensures Abs(q) <= Abs(a)
    ensures (0 <= a && 0 < b) || (a <= 0 && b < 0) ==> 0 <= q
    ensures (0 <= a && b < 0) || (a <= 0 && 0 < b) ==> q <= 0
  {
    var n := Abs(a) / Abs(b);
    DivisionOfNaturals(Abs(a), Abs(b));
    ProductSigns(n, Abs(b));
    if (a < 0) == (b < 0) then n else -n
  }

  lemma ProductSigns(n: int, m: int)
    ensures n * -m == -(n * m) && -n * -m == n * m && -n * m == -(n * m)
  {
  }

  /** The exceptions `new Board(...)` can raise. */
  datatype BoardError =
    | DivideByZero   // cellSize == 0
    | Overflow       // int.MinValue / -1, or a negative array dimension

  /** A board: the cell grid and the pixel size of one cell. */
  datatype Board = Board(cellSize: int, grid: Grid) {

    function Columns(): nat { grid.columns }

    function Rows(): nat { grid.rows }

    /** The pixel width, recomputed from the truncated column count. */
    function Width(): int { grid.columns * cellSize }

    /** The pixel height, recomputed from the truncated row count. */
    function Height(): int { grid.rows * cellSize }
  }

  /**
   * `new Board(width, height, cellSize, liveDensity)`: `width / cellSize` columns
   * and `height / cellSize` rows by 32-bit truncating division. The random initial
   * population is the parameter `seed`.
   */
  function NewBoard(width: int, height: int, cellSize: int, seed: (nat, nat) -> bool): (r: Result<Board, BoardError>)
    requires IsInt32(width) && IsInt32(height) && IsInt32(cellSize)
    ensures cellSize == 0 <==> r == Failure(DivideByZero)
    ensures r.Success? ==>
      && r.value.cellSize == cellSize
      && r.value.grid.Valid()
      && r.value.Columns() == TruncDiv(width, cellSize)
      && r.value.Rows() == TruncDiv(height, cellSize)
      && forall y, x | 0 <= y < r.value.Rows() && 0 <= x < r.value.Columns() :: r.value.grid.cells[y][x] == seed(x, y)
    ensures 0 < cellSize && 0 <= width && 0 <= height ==>
      && r.Success?
      && r.value.Width() <= width < r.value.Width() + cellSize
      && r.value.Height() <= height < r.value.Height() + cellSize
    ensures cellSize != 0 ==>
      (r == Failure(Overflow) <==>
        || !IsInt32(TruncDiv(width, cellSize)) || TruncDiv(width, cellSize) < 0
        || !IsInt32(TruncDiv(height, cellSize)) || TruncDiv(height, cellSize) < 0)
    ensures cellSize == -1 && (width == MinInt32 || height == MinInt32) ==> r == Failure(Overflow)
  {
    if cellSize == 0 then Failure(DivideByZero)
    else
      var columns := TruncDiv(width, cellSize);
      var rows := TruncDiv(height, cellSize);
      if !IsInt32(columns) || !IsInt32(rows) || columns < 0 || rows < 0 then Failure(Overflow)
      else Success(Board(cellSize, Build(columns, rows, seed)))
  }

  /**
   * `Width` and `Height` multiply in 32 bits: for every board the constructor
   * builds, the products are no larger in magnitude than the requested pixel sizes,
   * so they never wrap around.
   */
  lemma PixelSizeFits(width: int, height: int, cellSize: int, seed: (nat, nat) -> bool)
    requires IsInt32(width) && IsInt32(height) && IsInt32(cellSize)
    requires NewBoard(width, height, cellSize, seed).Success?
    ensures var b := NewBoard(width, height, cellSize, seed).value;
      && Abs(b.Width()) <= Abs(width) && IsInt32(b.Width())
      && Abs(b.Height()) <= Abs(height) && IsInt32(b.Height())
  {
  }

  /** A 100 x 100 pixel board with 10-pixel cells has 10 columns and 10 rows. */
  lemma HundredPixelBoard(seed: (nat, nat) -> bool)
    ensures NewBoard(100, 100, 10, seed).Success?
    ensures NewBoard(100, 100, 10, seed).value.Columns() == 10 && NewBoard(100, 100, 10, seed).value.Rows() == 10
  {
    var q := TruncDiv(100, 10);
    assert q == 10;
  }
}
