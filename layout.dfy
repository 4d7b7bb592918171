/** The fixed geometry of the game window: where the 9 × 16 grid of cells
    sits in the captured image, and which pixels of a cell are sampled. */
module Layout {
  /** A position given row first; used for pixels, pixel offsets and board cells. */
  datatype Point = Point(row: int, col: int)

  /** Pixel origin of the grid and size of one cell. */
  const CELL_TOP: int := 141
  const CELL_LEFT: int := 64
  const CELL_HEIGHT: int := 50
  const CELL_WIDTH: int := 40

  /** Rows and columns of cells on the playing field. */
  const CELL_MAX_ROW: int := 9
  const CELL_MAX_COL: int := 16

  /** Number of sampled pixels per cell. */
  const ID_POINT_COUNT: int := 64

  /** Top-left pixel of cell (x, y); the cell index is recovered from it by division. */
  function CellPoint(x: nat, y: nat): (p: Point)
    ensures p.row >= CELL_TOP && (p.row - CELL_TOP) % CELL_HEIGHT == 0 && (p.row - CELL_TOP) / CELL_HEIGHT == x
    ensures p.col >= CELL_LEFT && (p.col - CELL_LEFT) % CELL_WIDTH == 0 && (p.col - CELL_LEFT) / CELL_WIDTH == y
  {
    Point(CELL_TOP + CELL_HEIGHT * x, CELL_LEFT + CELL_WIDTH * y)
  }

  /** Two cells' pixel boxes never overlap: a pixel inside a cell's box
      belongs to that cell alone. */
  lemma CellBoxesDisjoint(x1: nat, y1: nat, x2: nat, y2: nat, d1: Point, d2: Point)
    requires 0 <= d1.row < CELL_HEIGHT && 0 <= d1.col < CELL_WIDTH
    requires 0 <= d2.row < CELL_HEIGHT && 0 <= d2.col < CELL_WIDTH
    requires CellPoint(x1, y1).row + d1.row == CellPoint(x2, y2).row + d2.row
    requires CellPoint(x1, y1).col + d1.col == CellPoint(x2, y2).col + d2.col
    ensures x1 == x2 && y1 == y2 && d1 == d2
  {
  }

  /** The k-th sampled offset: an 8 × 8 lattice with pitch 4, rows from 11, columns from 6. */
  function IdPoint(k: nat): Point {
    Point(11 + 4 * (k / 8), 6 + 4 * (k % 8))
  }

  /** The list of sampled offsets in the order the fingerprint uses them. */
  function IdPoints(): seq<Point> {
    seq(ID_POINT_COUNT, k requires 0 <= k => IdPoint(k))
  }

  /** The 64 sampled offsets lie inside a cell and are pairwise distinct. */
  lemma IdPointsInCell()
    ensures |IdPoints()| == ID_POINT_COUNT
    ensures forall k :: 0 <= k < ID_POINT_COUNT ==>
              0 <= IdPoints()[k].row < CELL_HEIGHT && 0 <= IdPoints()[k].col < CELL_WIDTH
    ensures forall k, l :: 0 <= k < l < ID_POINT_COUNT ==> IdPoints()[k] != IdPoints()[l]
  {
  }

  /** Builds the sampled offsets as the source does: rows 11, 15, … below
      CELL_HEIGHT - 10, and for each, columns 6, 10, … below CELL_WIDTH - 5. */
  method InitIdPoints() returns (res: seq<Point>)
    ensures |res| == ID_POINT_COUNT
    ensures forall k :: 0 <= k < |res| ==> res[k] == IdPoint(k)
    ensures res == IdPoints()
  {
    res := [];
    var dx, i := 11, 0;
    while dx < CELL_HEIGHT - 10
      invariant dx == 11 + 4 * i && 0 <= i <= 8
      invariant |res| == 8 * i
      invariant forall k :: 0 <= k < |res| ==> res[k] == IdPoint(k)
    {
      var dy, j := 6, 0;
      while dy < CELL_WIDTH - 5
        invariant dy == 6 + 4 * j && 0 <= j <= 8
        invariant |res| == 8 * i + j
        invariant forall k :: 0 <= k < |res| ==> res[k] == IdPoint(k)
      {
        assert (8 * i + j) / 8 == i && (8 * i + j) % 8 == j;
        res := res + [Point(dx, dy)];
        dy, j := dy + 4, j + 1;
      }
      dx, i := dx + 4, i + 1;
    }
  }
}
