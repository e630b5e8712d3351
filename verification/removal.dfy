/** What removeMatches (Game.cpp:355-416) does to the board: the listed
    cells become empty, and the only bonuses that change are fresh ones
    spawned on intact cells near a listed cell. */
module Removal {
  import opened Constants
  import opened Tiles
  import opened Grid

  /** Chebyshev distance at most 3: the reach of the bonus offsets and of
      the Recolor vicinity. */
  predicate Near(a: Pos, b: Pos) {
    Abs(a.row - b.row) <= 3 && Abs(a.col - b.col) <= 3
  }

  /** The cells of `done` are empty, every other cell kept its colour, and
      no selection flag moved. */
  ghost predicate Marked(b0: Board, b1: Board, done: seq<Pos>)
    requires Shaped(b0) && Shaped(b1)
  {
    forall p :: InBounds(p) ==>
      Cell(b1, p).color == (if p in done then EMPTY else Cell(b0, p).color) &&
      Cell(b1, p).isSelected == Cell(b0, p).isSelected
  }

  /** Every bonus that differs between the boards was spawned: on a cell not
      being destroyed, which had no bonus and was not empty, within reach of
      one of the first n listed cells, and it is Recolor or Bomb. */
  ghost predicate Spawned(b0: Board, b1: Board, matches: seq<Pos>, n: int)
    requires Shaped(b0) && Shaped(b1) && 0 <= n <= |matches|
  {
    forall p :: InBounds(p) && Cell(b1, p).bonus != Cell(b0, p).bonus ==>
      p !in matches && Cell(b0, p).bonus == None && Cell(b0, p).color != EMPTY &&
      Cell(b1, p).bonus != None &&
      exists j :: 0 <= j < n && Near(matches[j], p)
  }

  ghost predicate SameBonuses(b0: Board, b1: Board)
    requires Shaped(b0) && Shaped(b1)
  {
    forall p :: InBounds(p) ==> Cell(b1, p).bonus == Cell(b0, p).bonus
  }

  /** Marking the i-th listed cell empty. */
  lemma MarkStep(b0: Board, b: Board, matches: seq<Pos>, i: int)
    requires Shaped(b0) && Shaped(b) && 0 <= i < |matches| && InBounds(matches[i])
    requires Marked(b0, b, matches[..i]) && Spawned(b0, b, matches, i)
    ensures Marked(b0, Put(b, matches[i], Cell(b, matches[i]).(color := EMPTY)), matches[..i + 1])
    ensures Spawned(b0, Put(b, matches[i], Cell(b, matches[i]).(color := EMPTY)), matches, i + 1)
  {
    var m := matches[i];
    var b1 := Put(b, m, Cell(b, m).(color := EMPTY));
    assert matches[..i + 1] == matches[..i] + [m];
    forall p | InBounds(p) && Cell(b1, p).bonus != Cell(b0, p).bonus
      ensures exists j :: 0 <= j < i + 1 && Near(matches[j], p)
    {
      var j :| 0 <= j < i && Near(matches[j], p);
    }
  }

  /** Spawning a bonus of kind `kind` on the intact, bonus-free, unlisted cell
      q within reach of the i-th listed cell. */
  lemma SpawnStep(b0: Board, b: Board, matches: seq<Pos>, i: int, q: Pos, kind: BonusType)
    requires Shaped(b0) && Shaped(b) && 0 <= i < |matches| && InBounds(q)
    requires Marked(b0, b, matches[..i + 1]) && Spawned(b0, b, matches, i + 1)
    requires q !in matches && Cell(b, q).bonus == None && Cell(b, q).color != EMPTY
    requires Near(matches[i], q) && kind != None
    ensures Marked(b0, Put(b, q, Cell(b, q).(bonus := kind)), matches[..i + 1])
    ensures Spawned(b0, Put(b, q, Cell(b, q).(bonus := kind)), matches, i + 1)
  {
    assert q !in matches[..i + 1];
    assert Cell(b0, q).bonus == None;
  }

  /** Marking keeps every colour a colour or EMPTY. */
  lemma MarkedColours(b0: Board, b1: Board, done: seq<Pos>)
    requires Shaped(b0) && Shaped(b1) && Marked(b0, b1, done)
    requires forall p :: InBounds(p) ==> ColorOrEmpty(Cell(b0, p).color)
    ensures forall p :: InBounds(p) ==> ColorOrEmpty(Cell(b1, p).color)
  {
    forall p | InBounds(p)
      ensures ColorOrEmpty(Cell(b1, p).color)
    {
      assert Cell(b1, p).color == (if p in done then EMPTY else Cell(b0, p).color);
    }
  }
}
