/** Squares of the bordered 11x11 grid, their linearised indices, and moves.

    Columns and rows are integers: 0..6 is the playing area (columns a..g,
    rows 1..7); -2, -1, 7 and 8 are the two rings of border squares. */
module Squares {

  /** Number of squares on a side of the playing area. */
  const Side: int := 7
  /** A side plus the two-deep border on both ends. */
  const ExtendedSide: int := 11
  /** Number of cells in the backing grid. */
  const GridSize: int := 121

  /** (c, r) names a square of the backing grid, border included. */
  predicate OnGrid(c: int, r: int)
  {
    -2 <= c <= 8 && -2 <= r <= 8
  }

  /** (c, r) names a square of the 7x7 playing area. */
  predicate Interior(c: int, r: int)
  {
    0 <= c < 7 && 0 <= r < 7
  }

  /** Row-major linearised index of square (c, r); rows are 11 cells wide. */
  function Index(c: int, r: int): (i: int)
    ensures OnGrid(c, r) ==> 0 <= i < GridSize
  {
    (r + 2) * 11 + (c + 2)
  }

  /** Column of the square with linearised index i. */
  function Col(i: int): (col: int)
  {
    i % 11 - 2
  }

  /** Row of the square with linearised index i. */
  function Row(i: int): (row: int)
  {
    i / 11 - 2
  }

  /** Index of the square dc columns and dr rows away from the square with index sq. */
  function Neighbor(sq: int, dc: int, dr: int): (nb: int)
  {
    sq + dc + dr * 11
  }

  /** Moving by (dc, dr) on indices is moving by (dc, dr) on coordinates. */
  lemma NeighborOfIndex(c: int, r: int, dc: int, dr: int)
    ensures Neighbor(Index(c, r), dc, dr) == Index(c + dc, r + dr)
  {
  }

  /** Index is injective on the backing grid. */
  lemma IndexInjective(c1: int, r1: int, c2: int, r2: int)
    requires OnGrid(c1, r1) && OnGrid(c2, r2)
    ensures Index(c1, r1) == Index(c2, r2) <==> c1 == c2 && r1 == r2
  {
  }

  /** Every cell of the backing grid is the index of exactly the square (Col(i), Row(i)). */
  lemma IndexOnto(i: int)
    requires 0 <= i < GridSize
    ensures OnGrid(Col(i), Row(i)) && Index(Col(i), Row(i)) == i
  {
  }

  /** The square obtained by reflecting coordinate x across the middle row or column. */
  function Reflect(x: int): (y: int)
    ensures x + y == 6
    ensures -2 <= x <= 8 <==> -2 <= y <= 8
    ensures 0 <= x < 7 <==> 0 <= y < 7
  {
    6 - x
  }

  /** A move: a pass, or a piece moving from (col0, row0) to (col1, row1). */
  datatype Move = Pass | Play(col0: int, row0: int, col1: int, row1: int)

  function Abs(x: int): (a: nat)
  {
    if x < 0 then -x else x
  }

  /** Chebyshev distance between the two squares of a move. */
  function Distance(m: Move): (d: nat)
    requires m.Play?
    ensures Abs(m.col1 - m.col0) <= d && Abs(m.row1 - m.row0) <= d
    ensures d == Abs(m.col1 - m.col0) || d == Abs(m.row1 - m.row0)
  {
    var dc := Abs(m.col1 - m.col0);
    var dr := Abs(m.row1 - m.row0);
    if dc < dr then dr else dc
  }

  /** An extend clones a piece onto an adjacent square. */
  predicate IsExtend(m: Move)
  {
    m.Play? && Distance(m) == 1
  }

  /** A jump moves a piece exactly two squares away. */
  predicate IsJump(m: Move)
  {
    m.Play? && Distance(m) == 2
  }
}
