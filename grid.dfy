/**
 * The grid the NPCs live on: the screen constants of constants.py, grid
 * cells, and the 4-connected neighbourhood the search walks.
 */
module Grid {

  /** Screen size in pixels and the side of one grid cell, in pixels. */
  const ScreenWidth: int := 800
  const ScreenHeight: int := 600
  const GridSize: int := 10

  /** `SCREEN_WIDTH // GRID_SIZE` columns and `SCREEN_HEIGHT // GRID_SIZE` rows. */
  const Cols: int := ScreenWidth / GridSize
  const Rows: int := ScreenHeight / GridSize

  /** A grid coordinate, the `(x, y)` tuple of the source. */
  datatype Cell = Cell(x: int, y: int)

  predicate InBounds(c: Cell) {
    0 <= c.x < Cols && 0 <= c.y < Rows
  }

  function Abs(n: int): nat {
    if n < 0 then -n else n
  }

  function Manhattan(a: Cell, b: Cell): nat {
    Abs(a.x - b.x) + Abs(a.y - b.y)
  }

  /** The larger of the two coordinate distances. */
  function Chebyshev(a: Cell, b: Cell): nat {
    if Abs(a.x - b.x) >= Abs(a.y - b.y) then Abs(a.x - b.x) else Abs(a.y - b.y)
  }

  /** Two cells one 4-connected step apart. */
  predicate Adjacent(a: Cell, b: Cell) {
    Manhattan(a, b) == 1
  }

  /**
   * The cells the search tries around `c`, in the order of the move list
   * `[(0, -1), (0, 1), (-1, 0), (1, 0)]`: exactly the cells adjacent to `c`.
   */
  function Neighbours(c: Cell): (ns: seq<Cell>)
    ensures |ns| == 4
    ensures forall n :: n in ns <==> Adjacent(c, n)
    ensures forall i, j :: 0 <= i < j < |ns| ==> ns[i] != ns[j]
  {
    [Cell(c.x, c.y - 1), Cell(c.x, c.y + 1), Cell(c.x - 1, c.y), Cell(c.x + 1, c.y)]
  }

  /** The search's heuristic: squared Euclidean distance. */
  function SquaredDistance(a: Cell, b: Cell): int {
    (a.x - b.x) * (a.x - b.x) + (a.y - b.y) * (a.y - b.y)
  }

  lemma AdjacentSymmetric(a: Cell, b: Cell)
    ensures Adjacent(a, b) <==> Adjacent(b, a)
  {
  }

  /** Adjacent cells differ by exactly one in exactly one coordinate. */
  lemma AdjacentIsUnitStep(a: Cell, b: Cell)
    requires Adjacent(a, b)
    ensures (a.x == b.x && Abs(a.y - b.y) == 1) || (a.y == b.y && Abs(a.x - b.x) == 1)
  {
  }

  /** Cells of the first `rows` rows. */
  ghost function CellsBelow(rows: int): set<Cell> {
    set x, y | 0 <= x < Cols && 0 <= y < rows :: Cell(x, y)
  }

  /** The first `cols` cells of row `y`. */
  ghost function RowCells(y: int, cols: int): set<Cell> {
    set x | 0 <= x < cols :: Cell(x, y)
  }

  /** Every cell of the grid. */
  ghost function GridCells(): set<Cell> {
    CellsBelow(Rows)
  }

  lemma InBoundsIsGridCell(c: Cell)
    ensures InBounds(c) <==> c in GridCells()
  {
    if InBounds(c) {
      assert c == Cell(c.x, c.y);
    }
  }

  lemma {:induction false} RowCount(y: int, cols: nat)
    ensures |RowCells(y, cols)| == cols
  {
    if cols > 0 {
      RowCount(y, cols - 1);
      assert RowCells(y, cols) == RowCells(y, cols - 1) + {Cell(cols - 1, y)};
    } else {
      assert RowCells(y, cols) == {};
    }
  }

  lemma CellsBelowStep(rows: nat)
    requires rows > 0
    ensures CellsBelow(rows) == CellsBelow(rows - 1) + RowCells(rows - 1, Cols)
    ensures CellsBelow(rows - 1) !! RowCells(rows - 1, Cols)
  {
    forall c | c in CellsBelow(rows)
      ensures c in CellsBelow(rows - 1) + RowCells(rows - 1, Cols)
    {
      if c.y < rows - 1 {
        assert c == Cell(c.x, c.y);
      } else {
        assert c == Cell(c.x, rows - 1);
      }
    }
  }

  lemma {:induction false} CellsBelowCount(rows: nat)
    ensures |CellsBelow(rows)| == Cols * rows
  {
    if rows > 0 {
      CellsBelowCount(rows - 1);
      RowCount(rows - 1, Cols);
      CellsBelowStep(rows);
      var a, b := CellsBelow(rows - 1), RowCells(rows - 1, Cols);
      assert |a + b| == |a| + |b|;
      assert Cols == 80;
    } else {
      assert CellsBelow(rows) == {};
    }
  }

  /** The grid has `80 * 60` cells. */
  lemma GridCellCount()
    ensures |GridCells()| == Cols * Rows == 4800
  {
    assert Cols == 80 && Rows == 60;
    CellsBelowCount(Rows);
    assert GridCells() == CellsBelow(Rows);
  }
}
