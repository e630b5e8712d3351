/** Coordinates, the board as a row-major grid of tiles, adjacency and the
    tile swap (Game.cpp: isAdjacent, swapTiles). */
module Grid {
  import opened Constants
  import opened Tiles

  /** A (row, column) coordinate; ordered like std::pair, row first. */
  datatype Pos = Pos(row: int, col: int)

  /** The board: ROWS rows of COLS tiles each. */
  type Board = seq<seq<Tile>>

  predicate InBounds(p: Pos) {
    0 <= p.row < ROWS && 0 <= p.col < COLS
  }

  /** A ROWS x COLS grid of anything (tiles, visited flags). */
  predicate Shaped<T>(g: seq<seq<T>>) {
    |g| == ROWS && forall r :: 0 <= r < ROWS ==> |g[r]| == COLS
  }

  function Cell<T>(g: seq<seq<T>>, p: Pos): (x: T)
    requires Shaped(g) && InBounds(p)
  {
    g[p.row][p.col]
  }

  /** The grid with the cell at p replaced by x. */
  function Put<T>(g: seq<seq<T>>, p: Pos, x: T): (r: seq<seq<T>>)
    requires Shaped(g) && InBounds(p)
    ensures Shaped(r) && Cell(r, p) == x
    ensures forall q :: InBounds(q) && q != p ==> Cell(r, q) == Cell(g, q)
  {
    g[p.row := g[p.row][p.col := x]]
  }

  /** A grid of ROWS x COLS copies of x. */
  function Filled<T>(x: T): (r: seq<seq<T>>)
    ensures Shaped(r) && forall p :: InBounds(p) ==> Cell(r, p) == x
  {
    seq(ROWS, _ => seq(COLS, _ => x))
  }

  /** Two grids that agree on every cell are equal. */
  lemma GridExt<T>(a: seq<seq<T>>, b: seq<seq<T>>)
    requires Shaped(a) && Shaped(b)
    requires forall p :: InBounds(p) ==> Cell(a, p) == Cell(b, p)
    ensures a == b
  {
    forall r | 0 <= r < ROWS
      ensures a[r] == b[r]
    {
      forall c | 0 <= c < COLS
        ensures a[r][c] == b[r][c]
      {
        assert Cell(a, Pos(r, c)) == Cell(b, Pos(r, c));
      }
    }
  }

  /** The four coordinates the flood fill looks at, in its order: up, down,
      left, right (some may lie outside the board). */
  function Neighbours(p: Pos): (ns: seq<Pos>) {
    [Pos(p.row - 1, p.col), Pos(p.row + 1, p.col), Pos(p.row, p.col - 1), Pos(p.row, p.col + 1)]
  }

  function Abs(x: int): (a: nat) {
    if x < 0 then -x else x
  }

  /** Four-connected adjacency: Manhattan distance exactly 1. The two cells
      are adjacent exactly when the second is one of the four neighbours
      the flood fill visits from the first. */
  function IsAdjacent(row1: int, col1: int, row2: int, col2: int): (adjacent: bool)
    ensures adjacent <==> Pos(row2, col2) in Neighbours(Pos(row1, col1))
    ensures adjacent <==> Pos(row1, col1) in Neighbours(Pos(row2, col2))
    ensures adjacent ==> Pos(row1, col1) != Pos(row2, col2)
  {
    Abs(row1 - row2) + Abs(col1 - col2) == 1
  }

  /** IsAdjacent on positions: the form the flood fill and the match
      predicate use, kept apart from IsAdjacent, which has the signature of
      Game::isAdjacent. */
  predicate Adjacent(p: Pos, q: Pos) {
    IsAdjacent(p.row, p.col, q.row, q.col)
  }

  /** The board after exchanging colour and bonus of the cells at p and q;
      selection flags stay where they were and every other cell is untouched. */
  function SwapCells(b: Board, p: Pos, q: Pos): (r: Board)
    requires Shaped(b) && InBounds(p) && InBounds(q)
    ensures Shaped(r)
    ensures Cell(r, p) == Cell(b, p).(color := Cell(b, q).color, bonus := Cell(b, q).bonus)
    ensures Cell(r, q) == Cell(b, q).(color := Cell(b, p).color, bonus := Cell(b, p).bonus)
    ensures forall x :: InBounds(x) && x != p && x != q ==> Cell(r, x) == Cell(b, x)
  {
    var tp, tq := Cell(b, p), Cell(b, q);
    Put(Put(b, p, tp.(color := tq.color, bonus := tq.bonus)), q, tq.(color := tp.color, bonus := tp.bonus))
  }

  /** Swapping the same two cells twice restores the board. */
  lemma SwapInvolution(b: Board, p: Pos, q: Pos)
    requires Shaped(b) && InBounds(p) && InBounds(q)
    ensures SwapCells(SwapCells(b, p, q), p, q) == b
  {
    var once := SwapCells(b, p, q);
    GridExt(SwapCells(once, p, q), b);
  }
}
