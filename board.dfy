/** Board shape, cell access, 4-adjacency and board creation. */
module Boards {
  import opened Types

  /** `b` has exactly `rows` rows, each of length `cols`. */
  predicate IsBoard(b: Board, rows: int, cols: int) {
    |b| == rows && forall i :: 0 <= i < |b| ==> |b[i]| == cols
  }

  predicate InBounds(x: Coord, rows: int, cols: int) {
    0 <= x.r < rows && 0 <= x.c < cols
  }

  function At(b: Board, rows: int, cols: int, x: Coord): Player
    requires IsBoard(b, rows, cols) && InBounds(x, rows, cols)
  {
    b[x.r][x.c]
  }

  /** The two cells share a side. */
  predicate Adjacent(x: Coord, y: Coord) {
    (x.r == y.r && (x.c == y.c + 1 || y.c == x.c + 1)) ||
    (x.c == y.c && (x.r == y.r + 1 || y.r == x.r + 1))
  }

  /** Up, down, left, right: the order in which the game's TypeScript implementation visits neighbours. */
  const Directions: seq<(int, int)> := [(-1, 0), (1, 0), (0, -1), (0, 1)]

  function Neighbour(x: Coord, d: nat): (y: Coord)
    requires d < |Directions|
    ensures Adjacent(x, y)
  {
    Coord(x.r + Directions[d].0, x.c + Directions[d].1)
  }

  /** The four directions reach exactly the adjacent cells. */
  lemma AdjacentIsNeighbour(x: Coord, y: Coord)
    requires Adjacent(x, y)
    ensures exists d :: 0 <= d < |Directions| && Neighbour(x, d) == y
  {
    if y.r == x.r - 1 {
      assert Neighbour(x, 0) == y;
    } else if y.r == x.r + 1 {
      assert Neighbour(x, 1) == y;
    } else if y.c == x.c - 1 {
      assert Neighbour(x, 2) == y;
    } else {
      assert Neighbour(x, 3) == y;
    }
  }

  /** Every in-bounds cell of a rows x cols board. */
  function AllCells(rows: nat, cols: nat): (s: set<Coord>)
    ensures forall x :: x in s <==> InBounds(x, rows, cols)
  {
    set r, c | 0 <= r < rows && 0 <= c < cols :: Coord(r, c)
  }

  /** An all-empty board of the given dimensions. */
  function CreateBoard(rows: nat, cols: nat): (b: Board)
    ensures IsBoard(b, rows, cols)
    ensures forall i, j :: 0 <= i < rows && 0 <= j < cols ==> b[i][j] == Empty
  {
    seq(rows, _ => seq(cols, _ => Empty))
  }

  /** Row-major order: the order in which nested row/column loops visit cells. */
  predicate RowMajorBefore(x: Coord, y: Coord) {
    x.r < y.r || (x.r == y.r && x.c < y.c)
  }

  /** The board with cell `x` set to `p` and every other cell unchanged. */
  function SetCell(b: Board, rows: int, cols: int, x: Coord, p: Player): (b': Board)
    requires IsBoard(b, rows, cols) && InBounds(x, rows, cols)
    ensures IsBoard(b', rows, cols)
    ensures forall y :: InBounds(y, rows, cols) ==>
      At(b', rows, cols, y) == if y == x then p else At(b, rows, cols, y)
  {
    b[x.r := b[x.r][x.c := p]]
  }

  /** The board with every cell of `cells` set to `p` and every other cell
      unchanged. */
  function Paint(b: Board, rows: int, cols: int, cells: set<Coord>, p: Player): (b': Board)
    requires IsBoard(b, rows, cols)
    ensures IsBoard(b', rows, cols)
    ensures forall y :: InBounds(y, rows, cols) ==>
      At(b', rows, cols, y) == if y in cells then p else At(b, rows, cols, y)
  {
    seq(|b|, i requires 0 <= i < |b| =>
      seq(|b[i]|, j requires 0 <= j < |b[i]| =>
        if Coord(i, j) in cells then p else b[i][j]))
  }

  /** Two boards of the same shape are equal when they agree on every cell. */
  lemma BoardExtensionality(b1: Board, b2: Board, rows: int, cols: int)
    requires IsBoard(b1, rows, cols) && IsBoard(b2, rows, cols)
    requires forall y :: InBounds(y, rows, cols) ==> At(b1, rows, cols, y) == At(b2, rows, cols, y)
    ensures b1 == b2
  {
    forall i | 0 <= i < rows
      ensures b1[i] == b2[i]
    {
      forall j | 0 <= j < cols
        ensures b1[i][j] == b2[i][j]
      {
        assert At(b1, rows, cols, Coord(i, j)) == At(b2, rows, cols, Coord(i, j));
      }
    }
  }
}
