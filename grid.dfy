/** Cells, positions and the rectangular grid that a minesweeper board holds. */
module Grid {

  /** One cell record of the board. */
  datatype Cell = Cell(isMined: bool, isFlagged: bool, isCovered: bool, neighboringMines: nat)

  /** The record every cell of a new board starts with. */
  const Blank := Cell(false, false, true, 0)

  /** A zero-based [row][col] position. */
  datatype Pos = Pos(row: int, col: int)

  /** The grid: a sequence of rows, each a sequence of cells. */
  type Cells = seq<seq<Cell>>

  /** Every row has the length of the first one. */
  predicate Rectangular(g: Cells) {
    forall i :: 0 <= i < |g| ==> |g[i]| == |g[0]|
  }

  predicate InBounds(g: Cells, p: Pos) {
    0 <= p.row < |g| && 0 <= p.col < |g[p.row]|
  }

  function At(g: Cells, p: Pos): Cell
    requires InBounds(g, p)
  {
    g[p.row][p.col]
  }

  /** Two grids with the same number of rows, row by row of the same length. */
  predicate SameShape(g: Cells, h: Cells) {
    |g| == |h| && forall i :: 0 <= i < |g| ==> |g[i]| == |h[i]|
  }

  /** The grid with the cell at `p` replaced by `x`. */
  function Put(g: Cells, p: Pos, x: Cell): (r: Cells)
    requires InBounds(g, p)
    ensures SameShape(g, r) && (Rectangular(g) ==> Rectangular(r))
    ensures forall q :: InBounds(g, q) <==> InBounds(r, q)
    ensures forall q :: InBounds(g, q) ==> At(r, q) == if q == p then x else At(g, q)
  {
    g[p.row := g[p.row][p.col := x]]
  }

  /** `q` is one of the (at most eight) cells surrounding `p`. */
  predicate Adjacent(p: Pos, q: Pos) {
    p != q && p.row - 1 <= q.row <= p.row + 1 && p.col - 1 <= q.col <= p.col + 1
  }

  /** `p` comes strictly before `q` in row-major order. */
  predicate Before(p: Pos, q: Pos) {
    p.row < q.row || (p.row == q.row && p.col < q.col)
  }

  /** A new board's grid: `height` rows of `width` blank cells. */
  function Fresh(height: nat, width: nat): (g: Cells)
    ensures |g| == height && Rectangular(g)
    ensures forall i :: 0 <= i < height ==> |g[i]| == width
    ensures forall p :: InBounds(g, p) ==> At(g, p) == Blank
  {
    seq(height, _ => seq(width, _ => Blank))
  }

  lemma SameShapeInBounds(g: Cells, h: Cells)
    requires SameShape(g, h)
    ensures forall q :: InBounds(g, q) <==> InBounds(h, q)
    ensures Rectangular(g) ==> Rectangular(h)
  {
  }

  /** Grids of the same shape that agree on every cell are equal. */
  lemma Extensionality(g: Cells, h: Cells)
    requires SameShape(g, h)
    requires forall p :: InBounds(g, p) ==> At(g, p) == At(h, p)
    ensures g == h
  {
    forall i | 0 <= i < |g|
      ensures g[i] == h[i]
    {
      forall j | 0 <= j < |g[i]|
        ensures g[i][j] == h[i][j]
      {
        assert InBounds(g, Pos(i, j));
      }
    }
  }
}
