/**
 * Geometry of a height-by-width board: which cells exist and which cells
 * surround a given one.  The board's own mine layout is never seen by the AI;
 * it appears here only as a ghost set, to state what a correct observation is.
 */
module Board {

  /** A board cell, as the pair (row, column). */
  type Cell = (int, int)

  /** The cell lies on a board of the given size. */
  predicate OnBoard(c: Cell, height: int, width: int)
  {
    0 <= c.0 < height && 0 <= c.1 < width
  }

  /** Every cell of the set lies on the board. */
  predicate OnBoardAll(cells: set<Cell>, height: int, width: int)
  {
    forall c :: c in cells ==> OnBoard(c, height, width)
  }

  /** The cells `p` and `q` differ and lie within one row and one column of each other. */
  predicate Adjacent(p: Cell, q: Cell)
  {
    p != q && q.0 - 1 <= p.0 <= q.0 + 1 && q.1 - 1 <= p.1 <= q.1 + 1
  }

  /** All cells of the board. */
  function Grid(height: int, width: int): (r: set<Cell>)
    ensures forall p :: p in r <==> OnBoard(p, height, width)
  {
    set i, j | 0 <= i < height && 0 <= j < width :: (i, j)
  }

  /** The cells on the board that surround `cell`, not counting `cell` itself. */
  function Neighbours(cell: Cell, height: int, width: int): (r: set<Cell>)
    ensures forall p :: p in r <==> Adjacent(p, cell) && OnBoard(p, height, width)
  {
    set i, j | cell.0 - 1 <= i <= cell.0 + 1 && cell.1 - 1 <= j <= cell.1 + 1
               && 0 <= i < height && 0 <= j < width && (i, j) != cell :: (i, j)
  }

  /** A cell has at most eight neighbours, fewer at an edge or a corner. */
  lemma NeighbourCount(cell: Cell, height: int, width: int)
    ensures |Neighbours(cell, height, width)| <= 8
  {
    var (r, c) := cell;
    var ring := {(r - 1, c - 1), (r - 1, c), (r - 1, c + 1),
                 (r, c - 1),                 (r, c + 1),
                 (r + 1, c - 1), (r + 1, c), (r + 1, c + 1)};
    assert Neighbours(cell, height, width) <= ring;
    SubsetSize(Neighbours(cell, height, width), ring);
  }

  /** A subset is no larger than its superset. */
  lemma SubsetSize<T>(a: set<T>, b: set<T>)
    requires a <= b
    ensures |a| <= |b|
  {
    assert b * a == a;
    assert |b - a| == |b| - |b * a|;
  }

  /**
   * What the board reports for a revealed cell: the number of mines among
   * its neighbours.
   */
  ghost function NearbyMines(board: set<Cell>, cell: Cell, height: int, width: int): (n: nat)
    ensures n <= 8
  {
    NeighbourCount(cell, height, width);
    SubsetSize(Neighbours(cell, height, width) * board, Neighbours(cell, height, width));
    |Neighbours(cell, height, width) * board|
  }
}
