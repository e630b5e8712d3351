/** What applyGravity (Game.cpp:418-482) does to each column, stated as a
    relation between the board before and after, and what follows from it. */
module Gravity {
  import opened Constants
  import opened Tiles
  import opened Grid

  /** Column c of the board, top row first. */
  function Column(b: Board, c: int): (col: seq<Tile>)
    requires Shaped(b) && 0 <= c < COLS
    ensures |col| == ROWS && forall r :: 0 <= r < ROWS ==> col[r] == b[r][c]
  {
    seq(ROWS, r requires 0 <= r < ROWS => b[r][c])
  }

  /** The non-empty tiles of a column, top to bottom: the tiles gravity keeps. */
  function Kept(s: seq<Tile>): (kept: seq<Tile>)
  {
    if s == [] then []
    else (if s[0].color != EMPTY then [s[0]] else []) + Kept(s[1..])
  }

  /** Every kept tile is a non-empty tile of the column. */
  lemma {:induction false} KeptFromColumn(s: seq<Tile>)
    ensures |Kept(s)| <= |s|
    ensures forall i :: 0 <= i < |Kept(s)| ==> Kept(s)[i].color != EMPTY && Kept(s)[i] in s
  {
    if s != [] {
      KeptFromColumn(s[1..]);
      var k := Kept(s);
      var head := if s[0].color != EMPTY then [s[0]] else [];
      forall i | 0 <= i < |k|
        ensures k[i].color != EMPTY && k[i] in s
      {
        if i >= |head| {
          assert k[i] == Kept(s[1..])[i - |head|];
        }
      }
    }
  }

  /** Peeling the top tile off a column. */
  lemma KeptCons(s: seq<Tile>, i: int)
    requires 0 <= i < |s|
    ensures Kept(s[i..]) == (if s[i].color != EMPTY then [s[i]] else []) + Kept(s[i + 1..])
  {
    assert s[i..][1..] == s[i + 1..];
  }

  /** A column keeps all its tiles exactly when none is empty. */
  lemma {:induction false} KeptAll(s: seq<Tile>)
    ensures |Kept(s)| == |s| <==> forall i :: 0 <= i < |s| ==> s[i].color != EMPTY
    ensures (forall i :: 0 <= i < |s| ==> s[i].color != EMPTY) ==> Kept(s) == s
  {
    if s != [] {
      KeptAll(s[1..]);
      KeptFromColumn(s[1..]);
      if s[0].color != EMPTY {
        if |Kept(s)| == |s| {
          forall i | 0 <= i < |s|
            ensures s[i].color != EMPTY
          {
            if i > 0 {
              assert s[i] == s[1..][i - 1];
            }
          }
        }
      } else {
        assert |Kept(s)| < |s|;
      }
    }
  }

  /** The number of non-empty tiles, counted from the bottom end. */
  function CountFilled(s: seq<Tile>): (n: nat) {
    if s == [] then 0
    else CountFilled(s[..|s| - 1]) + (if s[|s| - 1].color != EMPTY then 1 else 0)
  }

  lemma {:induction false} CountCons(x: Tile, t: seq<Tile>)
    ensures CountFilled([x] + t) == (if x.color != EMPTY then 1 else 0) + CountFilled(t)
    decreases |t|
  {
    if t != [] {
      assert ([x] + t)[..|t|] == [x] + t[..|t| - 1];
      CountCons(x, t[..|t| - 1]);
    }
  }

  lemma {:induction false} CountSplit(s: seq<Tile>, i: int)
    requires 0 <= i <= |s|
    ensures CountFilled(s) == CountFilled(s[..i]) + CountFilled(s[i..])
    ensures CountFilled(s[i..]) <= |s| - i
    decreases |s|
  {
    if i < |s| {
      var t := s[..|s| - 1];
      CountSplit(t, i);
      assert t[..i] == s[..i];
      assert s[i..][..|s| - i - 1] == t[i..];
    } else {
      assert s[..i] == s;
    }
  }

  /** Kept holds exactly as many tiles as the column has non-empty ones. */
  lemma {:induction false} KeptLength(s: seq<Tile>)
    ensures |Kept(s)| == CountFilled(s)
  {
    if s != [] {
      KeptLength(s[1..]);
      CountCons(s[0], s[1..]);
      assert s == [s[0]] + s[1..];
    }
  }

  /** The non-empty tile at index i is the one Kept holds after all the
      non-empty tiles above it. */
  lemma {:induction false} KeptRank(s: seq<Tile>, i: int)
    requires 0 <= i < |s| && s[i].color != EMPTY
    ensures CountFilled(s[..i]) < |Kept(s)| && Kept(s)[CountFilled(s[..i])] == s[i]
  {
    if i > 0 {
      KeptRank(s[1..], i - 1);
      assert s[..i] == [s[0]] + s[1..][..i - 1];
      CountCons(s[0], s[1..][..i - 1]);
    }
  }

  /** Row at which gravity lands the non-empty tile of row i: below it sit
      exactly the non-empty tiles that were below it. */
  function Landing(col: seq<Tile>, i: int): (row: int)
    requires 0 <= i <= |col|
  {
    |col| - CountFilled(col) + CountFilled(col[..i])
  }

  /** Landing rows keep the tiles' top-to-bottom order and never lie above
      the row a tile started from. */
  lemma {:induction false} LandingOrder(col: seq<Tile>, i: int, j: int)
    requires 0 <= i < j <= |col| && col[i].color != EMPTY
    ensures Landing(col, i) < Landing(col, j)
    ensures i <= Landing(col, i)
    decreases j - i
  {
    CountSplit(col, i);
    if j == i + 1 {
      assert col[..i + 1][..i] == col[..i];
    } else {
      LandingOrder(col, i, j - 1);
      assert col[..j][..j - 1] == col[..j - 1];
    }
  }

  /** After gravity, the non-empty tile of row i sits at its landing row
      with its colour and bonus, the filled rows are exactly as many as the
      non-empty tiles before, and every row above them is refilled. */
  lemma SettledLanding(col0: seq<Tile>, col1: seq<Tile>, i: int)
    requires |col0| == ROWS && |col1| == ROWS && ColumnSettled(col0, col1)
    requires 0 <= i < ROWS && col0[i].color != EMPTY
    ensures i <= Landing(col0, i) < ROWS
    ensures col1[Landing(col0, i)].color == col0[i].color && col1[Landing(col0, i)].bonus == col0[i].bonus
  {
    KeptRank(col0, i);
    KeptLength(col0);
    CountSplit(col0, i);
    assert col1[Landing(col0, i)].color == Kept(col0)[CountFilled(col0[..i])].color;
  }

  /** The tile at row r is non-empty and nothing below it is empty, so gravity
      leaves it where it is. */
  ghost predicate Stationary(col: seq<Tile>, r: int)
    requires 0 <= r <= |col|
  {
    forall r' :: r <= r' < |col| ==> col[r'].color != EMPTY
  }

  /** Whether the cell at row r keeps its selection flag through gravity,
      when it ends up holding a kept tile: applyGravity never copies the
      flag, clears it on every tile it moves away, and leaves it on the
      cells it moves tiles into. */
  ghost predicate KeepsFlag(col: seq<Tile>, r: int)
    requires 0 <= r < |col|
  {
    col[r].isSelected && (col[r].color == EMPTY || Stationary(col, r))
  }

  /** One column after applyGravity: the kept tiles, in their order, fill the
      bottom rows with their colour and bonus; every row above holds a fresh
      colour, no bonus and no selection. */
  ghost predicate ColumnSettled(col0: seq<Tile>, col1: seq<Tile>)
    requires |col0| == ROWS && |col1| == ROWS
  {
    var k := Kept(col0);
    var top := ROWS - |k|;
    forall r :: 0 <= r < ROWS ==>
      if r < top then
        ValidColor(col1[r].color) && col1[r].bonus == None && !col1[r].isSelected
      else
        col1[r].color == k[r - top].color && col1[r].bonus == k[r - top].bonus &&
        (col1[r].isSelected <==> KeepsFlag(col0, r))
  }

  /** Every cell outside column `c` is the same in both boards. */
  ghost predicate SameOutsideColumn(b0: Board, b1: Board, c: int)
    requires Shaped(b0) && Shaped(b1)
  {
    forall p :: InBounds(p) && p.col != c ==> Cell(b1, p) == Cell(b0, p)
  }

  /** Boards equal outside column `c` have the same other columns. */
  lemma SameOutsideColumns(b0: Board, b1: Board, c: int)
    requires Shaped(b0) && Shaped(b1) && SameOutsideColumn(b0, b1, c)
    ensures forall c' :: 0 <= c' < COLS && c' != c ==> Column(b1, c') == Column(b0, c')
  {
    forall c' | 0 <= c' < COLS && c' != c
      ensures Column(b1, c') == Column(b0, c')
    {
      forall r | 0 <= r < ROWS
        ensures Column(b1, c')[r] == Column(b0, c')[r]
      {
        assert Cell(b1, Pos(r, c')) == Cell(b0, Pos(r, c'));
      }
    }
  }

  lemma SameOutsidePut(b0: Board, b: Board, p: Pos, t: Tile)
    requires Shaped(b0) && Shaped(b) && InBounds(p) && SameOutsideColumn(b0, b, p.col)
    ensures SameOutsideColumn(b0, Put(b, p, t), p.col)
  {
  }

  /** Writing a cell changes its column at one row and no other column. */
  lemma ColumnPut(b: Board, p: Pos, t: Tile)
    requires Shaped(b) && InBounds(p)
    ensures Column(Put(b, p, t), p.col) == Column(b, p.col)[p.row := t]
    ensures forall c :: 0 <= c < COLS && c != p.col ==> Column(Put(b, p, t), c) == Column(b, c)
  {
    var b1 := Put(b, p, t);
    forall c | 0 <= c < COLS && c != p.col
      ensures Column(b1, c) == Column(b, c)
    {
      forall r | 0 <= r < ROWS
        ensures Column(b1, c)[r] == Column(b, c)[r]
      {
        assert Cell(b1, Pos(r, c)) == Cell(b, Pos(r, c));
      }
    }
    forall r | 0 <= r < ROWS
      ensures Column(b1, p.col)[r] == Column(b, p.col)[p.row := t][r]
    {
      if r != p.row {
        assert Cell(b1, Pos(r, p.col)) == Cell(b, Pos(r, p.col));
      }
    }
  }

  /** The state of the compaction walk in column col0 once the rows below
      `row` are done, with k the tiles kept from those rows: rows up to `row`
      are untouched; rows from `row` + 1 to `empty` are empty (their tiles,
      if any, moved down), and when there are such rows, `hole` is an empty
      cell of col0 at or below them, while when there are none, no walked
      row was empty; below `empty` lie the tiles of k. */
  ghost predicate Compacting(col0: seq<Tile>, cur: seq<Tile>, row: int, empty: int, k: seq<Tile>, hole: int)
    requires |col0| == ROWS && |cur| == ROWS
  {
    -1 <= row <= empty < ROWS && empty == ROWS - 1 - |k| &&
    (row < empty ==> empty <= hole < ROWS && col0[hole].color == EMPTY) &&
    (row == empty ==> Stationary(col0, row + 1)) &&
    (forall r :: 0 <= r <= row ==> cur[r] == col0[r]) &&
    (forall r :: row < r <= empty ==>
      cur[r].color == EMPTY && (cur[r].isSelected <==> col0[r].isSelected && col0[r].color == EMPTY)) &&
    (forall r :: empty < r < ROWS ==>
      cur[r].color == k[r - empty - 1].color && cur[r].bonus == k[r - empty - 1].bonus &&
      (cur[r].isSelected <==> KeepsFlag(col0, r)))
  }

  lemma CompactStart(col0: seq<Tile>)
    requires |col0| == ROWS
    ensures Compacting(col0, col0, ROWS - 1, ROWS - 1, [], 0)
  {
  }

  /** An empty cell is passed over; it becomes (or extends) the gap. */
  lemma CompactSkip(col0: seq<Tile>, cur: seq<Tile>, row: int, empty: int, k: seq<Tile>, hole: int)
    requires |col0| == ROWS && |cur| == ROWS && Compacting(col0, cur, row, empty, k, hole)
    requires row >= 0 && cur[row].color == EMPTY
    ensures Compacting(col0, cur, row - 1, empty, k, if row == empty then row else hole)
  {
  }

  /** A non-empty tile already at the lowest free row stays put: nothing
      below it is empty. */
  lemma CompactStay(col0: seq<Tile>, cur: seq<Tile>, row: int, empty: int, k: seq<Tile>, hole: int)
    requires |col0| == ROWS && |cur| == ROWS && Compacting(col0, cur, row, empty, k, hole)
    requires row >= 0 && cur[row].color != EMPTY && row == empty
    ensures Compacting(col0, cur, row - 1, empty - 1, [cur[row]] + k, hole)
  {
    var k' := [cur[row]] + k;
    assert Stationary(col0, row);
    forall r | empty - 1 < r < ROWS
      ensures cur[r].color == k'[r - (empty - 1) - 1].color
      ensures cur[r].bonus == k'[r - (empty - 1) - 1].bonus
      ensures cur[r].isSelected <==> KeepsFlag(col0, r)
    {
      var i := r - empty;
      if i > 0 {
        assert k'[i] == k[i - 1];
      }
    }
  }

  /** A non-empty tile above the lowest free row moves down to it: the free
      row takes its colour and bonus, its own cell is cleared. */
  lemma CompactMove(col0: seq<Tile>, cur: seq<Tile>, row: int, empty: int, k: seq<Tile>, hole: int)
    requires |col0| == ROWS && |cur| == ROWS && Compacting(col0, cur, row, empty, k, hole)
    requires row >= 0 && cur[row].color != EMPTY && row != empty
    ensures Compacting(col0,
      cur[empty := cur[empty].(color := cur[row].color, bonus := cur[row].bonus)]
         [row := cur[row].(color := EMPTY, bonus := None, isSelected := false)],
      row - 1, empty - 1, [cur[row]] + k, hole)
  {
    var t := cur[row];
    var next := cur[empty := cur[empty].(color := t.color, bonus := t.bonus)]
                   [row := t.(color := EMPTY, bonus := None, isSelected := false)];
    var k' := [t] + k;
    assert t == col0[row];
    forall r | 0 <= r <= row - 1
      ensures next[r] == col0[r]
    {
      assert next[r] == cur[r];
    }
    forall r | row - 1 < r <= empty - 1
      ensures next[r].color == EMPTY
      ensures next[r].isSelected <==> col0[r].isSelected && col0[r].color == EMPTY
    {
      if r != row {
        assert next[r] == cur[r];
      }
    }
    assert KeepsFlag(col0, empty) <==> cur[empty].isSelected by {
      if col0[empty].color != EMPTY {
        assert col0[hole].color == EMPTY;
        assert !Stationary(col0, empty);
      }
    }
    forall r | empty - 1 < r < ROWS
      ensures next[r].color == k'[r - (empty - 1) - 1].color
      ensures next[r].bonus == k'[r - (empty - 1) - 1].bonus
      ensures next[r].isSelected <==> KeepsFlag(col0, r)
    {
      var i := r - empty;
      if i > 0 {
        assert next[r] == cur[r];
        assert k'[i] == k[i - 1];
      }
    }
  }

  /** The refill walk from the top of the gap upwards: rows above `row` up
      to `empty` are refilled, below `empty` the kept tiles k are in place. */
  ghost predicate Refilling(col0: seq<Tile>, cur: seq<Tile>, row: int, empty: int, k: seq<Tile>)
    requires |col0| == ROWS && |cur| == ROWS
  {
    -1 <= row <= empty < ROWS && empty == ROWS - 1 - |k| &&
    (forall r :: row < r <= empty ==>
      ValidColor(cur[r].color) && cur[r].bonus == None && !cur[r].isSelected) &&
    (forall r :: empty < r < ROWS ==>
      cur[r].color == k[r - empty - 1].color && cur[r].bonus == k[r - empty - 1].bonus &&
      (cur[r].isSelected <==> KeepsFlag(col0, r)))
  }

  lemma RefillStart(col0: seq<Tile>, cur: seq<Tile>, empty: int, k: seq<Tile>, hole: int)
    requires |col0| == ROWS && |cur| == ROWS && Compacting(col0, cur, -1, empty, k, hole)
    ensures Refilling(col0, cur, empty, empty, k)
  {
  }

  /** Refilling row `row` with a fresh colour. */
  lemma RefillStep(col0: seq<Tile>, cur: seq<Tile>, row: int, empty: int, k: seq<Tile>, color: int)
    requires |col0| == ROWS && |cur| == ROWS && Refilling(col0, cur, row, empty, k)
    requires row >= 0 && ValidColor(color)
    ensures Refilling(col0, cur[row := cur[row].(color := color, bonus := None, isSelected := false)], row - 1, empty, k)
  {
  }

  lemma RefillDone(col0: seq<Tile>, cur: seq<Tile>, empty: int, k: seq<Tile>)
    requires |col0| == ROWS && |cur| == ROWS && Refilling(col0, cur, -1, empty, k) && k == Kept(col0)
    ensures ColumnSettled(col0, cur)
  {
  }

  /** The whole board after applyGravity. */
  ghost predicate Settled(b0: Board, b1: Board)
  {
    Shaped(b0) && Shaped(b1) &&
    forall c :: 0 <= c < COLS ==> ColumnSettled(Column(b0, c), Column(b1, c))
  }

  ghost predicate AllColorOrEmpty(b: Board)
    requires Shaped(b)
  {
    forall p :: InBounds(p) ==> ColorOrEmpty(Cell(b, p).color)
  }

  /** No cell is empty. */
  ghost predicate Full(b: Board)
    requires Shaped(b)
  {
    forall p :: InBounds(p) ==> ValidColor(Cell(b, p).color)
  }

  ghost predicate NoBonus(b: Board)
    requires Shaped(b)
  {
    forall p :: InBounds(p) ==> Cell(b, p).bonus == None
  }

  lemma FullIsAllColorOrEmpty(b: Board)
    requires Shaped(b) && Full(b)
    ensures AllColorOrEmpty(b)
  {
  }

  /** After gravity no cell is empty. */
  lemma SettledIsFull(b0: Board, b1: Board)
    requires Settled(b0, b1) && AllColorOrEmpty(b0)
    ensures Full(b1)
  {
    forall p | InBounds(p)
      ensures ValidColor(Cell(b1, p).color)
    {
      var col0, col1 := Column(b0, p.col), Column(b1, p.col);
      assert ColumnSettled(col0, col1);
      var k := Kept(col0);
      var top := ROWS - |k|;
      KeptFromColumn(col0);
      if p.row >= top {
        assert col1[p.row].color == k[p.row - top].color;
        var i :| 0 <= i < ROWS && col0[i] == k[p.row - top];
        assert ColorOrEmpty(Cell(b0, Pos(i, p.col)).color);
      }
    }
  }

  /** On a board with no empty cell gravity changes nothing, and nothing but
      the unchanged board is a possible outcome. */
  lemma SettledFullIsIdentity(b0: Board, b1: Board)
    requires Shaped(b0) && Shaped(b1) && Full(b0)
    ensures Settled(b0, b1) <==> b1 == b0
  {
    forall c | 0 <= c < COLS
      ensures Kept(Column(b0, c)) == Column(b0, c)
      ensures forall r :: 0 <= r < ROWS ==> Stationary(Column(b0, c), r)
    {
      var col := Column(b0, c);
      forall i | 0 <= i < ROWS
        ensures col[i].color != EMPTY
      {
        assert ValidColor(Cell(b0, Pos(i, c)).color);
      }
      KeptAll(col);
    }
    if Settled(b0, b1) {
      forall p | InBounds(p)
        ensures Cell(b1, p) == Cell(b0, p)
      {
        assert ColumnSettled(Column(b0, p.col), Column(b1, p.col));
      }
      GridExt(b1, b0);
    }
  }

  /** Gravity brings in no bonus: refilled cells get None, kept tiles keep theirs. */
  lemma SettledKeepsNoBonus(b0: Board, b1: Board)
    requires Settled(b0, b1) && NoBonus(b0)
    ensures NoBonus(b1)
  {
    forall p | InBounds(p)
      ensures Cell(b1, p).bonus == None
    {
      var col0, col1 := Column(b0, p.col), Column(b1, p.col);
      assert ColumnSettled(col0, col1);
      var k := Kept(col0);
      var top := ROWS - |k|;
      KeptFromColumn(col0);
      if p.row >= top {
        var i :| 0 <= i < ROWS && col0[i] == k[p.row - top];
        assert Cell(b0, Pos(i, p.col)).bonus == None;
      }
    }
  }

  /** Gravity never selects a cell: a flag after it was already there before. */
  lemma SettledFlagsFromOld(b0: Board, b1: Board)
    requires Settled(b0, b1)
    ensures forall p :: InBounds(p) && Cell(b1, p).isSelected ==> Cell(b0, p).isSelected
  {
    forall p | InBounds(p) && Cell(b1, p).isSelected
      ensures Cell(b0, p).isSelected
    {
      assert ColumnSettled(Column(b0, p.col), Column(b1, p.col));
    }
  }

  /** Applying gravity a second time changes nothing. */
  lemma SettledIdempotent(b0: Board, b1: Board, b2: Board)
    requires Settled(b0, b1) && Settled(b1, b2) && AllColorOrEmpty(b0)
    ensures b2 == b1
  {
    SettledIsFull(b0, b1);
    SettledFullIsIdentity(b1, b2);
  }
}
