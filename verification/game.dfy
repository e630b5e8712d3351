/** The game object: the board, the score and the selection, and the
    operations of Game.cpp that change them. */
module Engine {
  import opened Constants
  import opened Tiles
  import opened Grid
  import opened Gravity
  import opened Removal
  import opened Matching
  import opened Bonus
  import Oracle

  /** No cell carries the selection flag. */
  ghost predicate NoneSelected(b: Board)
    requires Shaped(b)
  {
    forall p :: InBounds(p) ==> !Cell(b, p).isSelected
  }

  /** The Recolor effect on the board (Game.cpp:487-540): two distinct
      cells other than the origin and within its reach take the origin's
      colour and lose their bonus, the origin loses its bonus, and no other
      cell changes. */
  ghost predicate Recolored(b0: Board, b1: Board, origin: Pos, first: Pos, second: Pos)
    requires Shaped(b0) && Shaped(b1) && InBounds(origin)
  {
    InBounds(first) && InBounds(second) && first != second &&
    first != origin && second != origin && Near(origin, first) && Near(origin, second) &&
    Cell(b1, first) == Cell(b0, first).(color := Cell(b0, origin).color, bonus := None) &&
    Cell(b1, second) == Cell(b0, second).(color := Cell(b0, origin).color, bonus := None) &&
    Cell(b1, origin) == Cell(b0, origin).(bonus := None) &&
    forall p :: InBounds(p) && p != first && p != second && p != origin ==> Cell(b1, p) == Cell(b0, p)
  }

  /** The blast of a Bomb (Game.cpp:557-587): the origin and four other
      distinct cells become empty and lose their bonus; no other cell
      changes. */
  ghost predicate Blasted(b0: Board, b1: Board, origin: Pos, destroyed: seq<Pos>)
    requires Shaped(b0) && Shaped(b1)
  {
    |destroyed| == 5 && destroyed[0] == origin && Distinct(destroyed) &&
    (forall i :: 0 <= i < |destroyed| ==> InBounds(destroyed[i])) &&
    forall p :: InBounds(p) ==>
      Cell(b1, p) == if p in destroyed then Cell(b0, p).(color := EMPTY, bonus := None) else Cell(b0, p)
  }

  /** The whole Bomb effect (Game.cpp:542-606), from b0 to b2 for `gained`
      points: the blast gives `blasted`, gravity gives `settled`, and then
      `rounds` cascade rounds run: none unless `settled` has a match, at most
      MAX_MATCH_CHECKS, and fewer only when no match is left. The blast
      scores exactly 5 * BOMB_POINTS and each round at least three matched
      cells. */
  ghost predicate Bombed(b0: Board, b2: Board, origin: Pos, destroyed: seq<Pos>,
                         blasted: Board, settled: Board, rounds: nat, gained: int)
    requires Shaped(b0) && Shaped(b2)
  {
    Shaped(blasted) && Shaped(settled) &&
    Blasted(b0, blasted, origin, destroyed) && Settled(blasted, settled) && Full(b2) &&
    rounds <= MAX_MATCH_CHECKS && (rounds < MAX_MATCH_CHECKS ==> !HasMatch(b2)) &&
    (rounds > 0 ==> HasMatch(settled)) &&
    (rounds == 0 ==> b2 == settled && gained == 5 * BOMB_POINTS) &&
    gained >= 5 * BOMB_POINTS + 3 * MATCH_POINTS * rounds
  }

  /** The cells and boards that witness a bonus effect: the two recoloured
      cells of a Recolor; the destroyed cells, the blasted and the settled
      board and the number of cascade rounds of a Bomb. */
  datatype Effect =
    | NoEffect
    | RecolorEffect(first: Pos, second: Pos)
    | BombEffect(destroyed: seq<Pos>, blasted: Board, settled: Board, rounds: nat)

  /** The cascade rounds run inside a bonus effect. */
  function BombRounds(e: Effect): (n: nat) {
    if e.BombEffect? then e.rounds else 0
  }

  /** What applyBonus (Game.cpp:484-606) of kind `kind` at `origin` does to
      the board b0, giving b1 for `gained` points, as witnessed by `e`. */
  ghost predicate Fired(kind: BonusType, b0: Board, b1: Board, origin: Pos, gained: int, e: Effect)
    requires Shaped(b0) && Shaped(b1) && InBounds(origin)
  {
    match kind
    case None => e == NoEffect && b1 == b0 && gained == 0
    case Recolor =>
      e.RecolorEffect? && Recolored(b0, b1, origin, e.first, e.second) && gained == RECOLOR_POINTS
    case Bomb =>
      e.BombEffect? && Bombed(b0, b1, origin, e.destroyed, e.blasted, e.settled, e.rounds, gained)
  }

  /** Clearing the matches of a swap (Game.cpp:167-177), for `gained`
      points: removing `matches` from `swapped` gives `removed`, gravity gives
      `settled`; the removal alone scores exactly MATCH_POINTS per match.
      A cascade round runs only when `settled` has a match; its list
      `firstList` is then the stale `matches` plus the matched cells of
      `settled`, so its removal (`again`) empties the cells of `matches`
      once more and scores them a second time. */
  ghost predicate SwapCleared(swapped: Board, removed: Board, settled: Board, again: Board,
                              matches: seq<Pos>, firstList: seq<Pos>, rounds: nat, gained: int)
    requires Shaped(swapped)
  {
    Shaped(removed) && Shaped(settled) &&
    Marked(swapped, removed, matches) && Spawned(swapped, removed, matches, |matches|) &&
    Settled(removed, settled) &&
    (rounds == 0 ==> gained == MATCH_POINTS * |matches|) &&
    gained >= MATCH_POINTS * |matches| + 3 * MATCH_POINTS * rounds &&
    (rounds > 0 ==>
      HasMatch(settled) && Shaped(again) && Marked(settled, again, firstList) &&
      (forall p :: p in firstList <==> p in matches || InMatch(settled, p)) && |matches| <= |firstList| &&
      gained >= MATCH_POINTS * |matches| + MATCH_POINTS * |firstList| + 3 * MATCH_POINTS * (rounds - 1))
  }

  class Game {
    var grid: Board
    var score: int
    var firstSelected: bool
    var selectedRow: int
    var selectedCol: int
    /** The number of cascade rounds the initial setup ran; it describes
        the construction only, and later methods do not maintain it. */
    ghost var initRounds: nat

    /** The board has its shape and only colours or EMPTY; a selected cell
        is on the board, and no cell but the selected one carries the
        selection flag. */
    ghost predicate Valid()
      reads this
    {
      Shaped(grid) && AllColorOrEmpty(grid) &&
      (firstSelected ==> InBounds(Pos(selectedRow, selectedCol))) &&
      (forall p :: InBounds(p) && Cell(grid, p).isSelected ==> firstSelected && p == Pos(selectedRow, selectedCol))
    }

    /** Game::Game and initializeGrid (Game.cpp:8-53, 55-89): nothing
        selected, score 0 before the setup cascade, a freshly filled board
        with no bonus, free of matches unless the setup cascade used up all
        MAX_MATCH_CHECKS rounds (`initRounds`). */
    constructor()
      ensures Valid() && !firstSelected && selectedRow == -1 && selectedCol == -1
      ensures Full(grid) && NoBonus(grid) && NoneSelected(grid)
      ensures initRounds <= MAX_MATCH_CHECKS && (initRounds < MAX_MATCH_CHECKS ==> !HasMatch(grid))
      ensures score >= 3 * MATCH_POINTS * initRounds && (initRounds == 0 ==> score == 0)
    {
      firstSelected := false;
      selectedRow := -1;
      selectedCol := -1;
      score := 0;
      grid := [];
      initRounds := 0;
      new;
      var rounds := InitializeGrid();
      initRounds := rounds;
    }

    /** initializeGrid (Game.cpp:55-89): every cell gets a drawn colour, no
        bonus and no selection; then the cascade runs with bonuses off, so
        the initial board has no bonus at all. It is free of matches unless
        the cascade used up all MAX_MATCH_CHECKS rounds. */
    method InitializeGrid() returns (rounds: nat)
      requires !firstSelected
      modifies this
      ensures Valid() && Full(grid) && NoBonus(grid) && NoneSelected(grid)
      ensures rounds <= MAX_MATCH_CHECKS && (rounds < MAX_MATCH_CHECKS ==> !HasMatch(grid))
      ensures score >= old(score) + 3 * MATCH_POINTS * rounds && (rounds == 0 ==> score == old(score))
      ensures firstSelected == old(firstSelected)
      ensures selectedRow == old(selectedRow) && selectedCol == old(selectedCol)
    {
      grid := Filled(Tile(0, None, false));
      for row := 0 to ROWS
        invariant Shaped(grid) && Full(grid) && NoBonus(grid) && NoneSelected(grid)
        invariant score == old(score) && !firstSelected
        invariant selectedRow == old(selectedRow) && selectedCol == old(selectedCol)
      {
        for col := 0 to COLS
          invariant Shaped(grid) && Full(grid) && NoBonus(grid) && NoneSelected(grid)
          invariant score == old(score) && !firstSelected
          invariant selectedRow == old(selectedRow) && selectedCol == old(selectedCol)
        {
          var color := Oracle.UniformInt(0, NUM_COLORS - 1);
          grid := Put(grid, Pos(row, col), Tile(color, None, false));
        }
      }
      FullIsAllColorOrEmpty(grid);
      ghost var firstList, firstRemoved;
      rounds, firstList, firstRemoved := Cascade([], false);
    }

    /** One left click on cell (row, col) with the double-click verdict
        already made (Game.cpp:125-183): off the board nothing happens; a
        double click on a bonus fires it; otherwise the click selects the
        cell, or, with a cell already selected, tries the swap. The score
        never goes down. */
    method HandleClick(row: int, col: int, isDoubleClick: bool)
      requires Valid()
      modifies this
      ensures Valid() && score >= old(score)
      ensures !InBounds(Pos(row, col)) ==>
        grid == old(grid) && score == old(score) && firstSelected == old(firstSelected) &&
        selectedRow == old(selectedRow) && selectedCol == old(selectedCol)
      ensures InBounds(Pos(row, col)) && !(isDoubleClick && Cell(old(grid), Pos(row, col)).bonus != None) &&
              !old(firstSelected) ==>
        firstSelected && selectedRow == row && selectedCol == col && score == old(score) &&
        grid == Put(old(grid), Pos(row, col), Cell(old(grid), Pos(row, col)).(isSelected := true))
      ensures InBounds(Pos(row, col)) && ((isDoubleClick && Cell(old(grid), Pos(row, col)).bonus != None) ||
              old(firstSelected)) ==>
        !firstSelected && NoneSelected(grid)
    {
      if row >= 0 && row < ROWS && col >= 0 && col < COLS {
        if isDoubleClick && grid[row][col].bonus != None {
          var rounds, effect, fired, gained, settled := UseBonus(row, col);
        } else if !firstSelected {
          SelectCell(row, col);
        } else {
          var rounds, matched, removed, settled, again, firstList := SwapWithSelected(row, col);
        }
      }
    }

    /** A first click on (row, col) (Game.cpp:150-155): the cell becomes the
        selection and carries the flag. */
    method SelectCell(row: int, col: int)
      requires Valid() && !firstSelected && InBounds(Pos(row, col))
      modifies this
      ensures Valid() && firstSelected && selectedRow == row && selectedCol == col && score == old(score)
      ensures grid == Put(old(grid), Pos(row, col), Cell(old(grid), Pos(row, col)).(isSelected := true))
    {
      firstSelected := true;
      selectedRow := row;
      selectedCol := col;
      grid := Put(grid, Pos(row, col), grid[row][col].(isSelected := true));
    }

    /** The swap branch of processEvents (Game.cpp:158-182), for a second
        click on (row, col). A neighbour of the selected cell is swapped
        with it; without a match the swap is undone and the board is as
        before; with one, the matches (`matched`) are removed (`removed`),
        gravity applied (`settled`) and the cascade run on the same,
        uncleared list, so its first round removes and scores the cells of
        `matched` once more (`again`), whatever has fallen into them. Either
        way the selection is dropped. */
    method SwapWithSelected(row: int, col: int)
      returns (rounds: nat, ghost matched: seq<Pos>, ghost removed: Board, ghost settled: Board,
               ghost again: Board, ghost firstList: seq<Pos>)
      requires Valid() && firstSelected && InBounds(Pos(row, col))
      modifies this
      ensures Valid() && !firstSelected && NoneSelected(grid) && score >= old(score)
      ensures selectedRow == old(selectedRow) && selectedCol == old(selectedCol)
      ensures rounds <= MAX_MATCH_CHECKS
      ensures var sel := Pos(old(selectedRow), old(selectedCol));
        !IsAdjacent(sel.row, sel.col, row, col) || !HasMatch(SwapCells(old(grid), sel, Pos(row, col))) ==>
          grid == Put(old(grid), sel, Cell(old(grid), sel).(isSelected := false)) && score == old(score)
      ensures var sel := Pos(old(selectedRow), old(selectedCol));
        IsAdjacent(sel.row, sel.col, row, col) && HasMatch(SwapCells(old(grid), sel, Pos(row, col))) ==>
          Full(grid) && StrictlySorted(matched) && |matched| >= 3 &&
          (forall p :: p in matched <==> InMatch(SwapCells(old(grid), sel, Pos(row, col)), p)) &&
          SwapCleared(SwapCells(old(grid), sel, Pos(row, col)), removed, settled, again,
                      matched, firstList, rounds, score - old(score)) &&
          (rounds == 0 ==> grid == Put(settled, sel, Cell(settled, sel).(isSelected := false)))
    {
      rounds := 0;
      matched, removed, settled, again, firstList := [], grid, grid, grid, [];
      var sel := Pos(selectedRow, selectedCol);
      if IsAdjacent(selectedRow, selectedCol, row, col) {
        var swapped := SwapTiles(selectedRow, selectedCol, row, col);
        var found, matches := CheckMatches(grid, []);
        if !found {
          swapped := SwapTiles(selectedRow, selectedCol, row, col);
          SwapInvolution(old(grid), sel, Pos(row, col));
        } else {
          matched := matches;
          MatchesInBounds(grid, [], matches);
          rounds, removed, settled, again, firstList := ClearSwapMatches(matches);
        }
      }
      DropSelection();
    }

    /** Game.cpp:167-177: remove the matches the swap made, apply gravity and
        run the cascade on the same list, which is not cleared first. */
    method ClearSwapMatches(matches: seq<Pos>)
      returns (rounds: nat, ghost removed: Board, ghost settled: Board, ghost again: Board, ghost firstList: seq<Pos>)
      requires Valid() && StrictlySorted(matches) && |matches| >= 3
      requires forall i :: 0 <= i < |matches| ==> InBounds(matches[i])
      modifies this
      ensures Valid() && Full(grid) && rounds <= MAX_MATCH_CHECKS
      ensures rounds < MAX_MATCH_CHECKS ==> !HasMatch(grid)
      ensures SwapCleared(old(grid), removed, settled, again, matches, firstList, rounds, score - old(score))
      ensures rounds == 0 ==> grid == settled
      ensures firstSelected == old(firstSelected)
      ensures selectedRow == old(selectedRow) && selectedCol == old(selectedCol)
    {
      RemoveMatches(matches, true);
      removed := grid;
      ApplyGravity();
      settled := grid;
      rounds, firstList, again := Cascade(matches, true);
      if rounds > 0 {
        SortedSubsetLength(matches, firstList);
      }
    }

    /** The bonus branch of processEvents (Game.cpp:126-147): fire the bonus
        on (row, col), which gives the board `fired` for `gained` points and
        runs `BombRounds(effect)` cascade rounds inside a Bomb; drop any selection,
        apply gravity (`settled`) and run the cascade again with a fresh
        list, for `rounds` more rounds. */
    method UseBonus(row: int, col: int)
      returns (rounds: nat, ghost effect: Effect, ghost fired: Board, ghost gained: int, ghost settled: Board)
      requires Valid() && InBounds(Pos(row, col)) && Cell(grid, Pos(row, col)).bonus != None
      modifies this
      ensures Valid() && !firstSelected && NoneSelected(grid) && Full(grid) && score >= old(score)
      ensures Shaped(fired) && Fired(Cell(old(grid), Pos(row, col)).bonus, old(grid), fired, Pos(row, col), gained, effect)
      ensures rounds <= MAX_MATCH_CHECKS && (rounds < MAX_MATCH_CHECKS ==> !HasMatch(grid))
      ensures BombRounds(effect) + rounds <= 2 * MAX_MATCH_CHECKS
      ensures gained >= RECOLOR_POINTS && score >= old(score) + gained + 3 * MATCH_POINTS * rounds
      ensures var sel := Pos(old(selectedRow), old(selectedCol));
        var dropped := if old(firstSelected) then Put(fired, sel, Cell(fired, sel).(isSelected := false)) else fired;
        Shaped(settled) && Settled(dropped, settled) &&
        (rounds > 0 ==> HasMatch(settled)) &&
        (rounds == 0 ==> grid == settled && score == old(score) + gained)
    {
      var kind := grid[row][col].bonus;
      effect := ApplyBonus(kind, row, col);
      fired := grid;
      gained := score - old(score);
      rounds, settled := SettleAfterBonus();
    }

    /** The rest of the bonus branch (Game.cpp:131-147): drop any selection,
        apply gravity (`settled`), then run the cascade with a fresh list; a
        round runs only when `settled` has a match. */
    method SettleAfterBonus() returns (rounds: nat, ghost settled: Board)
      requires Valid()
      modifies this
      ensures Valid() && !firstSelected && NoneSelected(grid) && Full(grid)
      ensures var sel := Pos(old(selectedRow), old(selectedCol));
        var dropped := if old(firstSelected) then Put(old(grid), sel, Cell(old(grid), sel).(isSelected := false)) else old(grid);
        Shaped(settled) && Settled(dropped, settled)
      ensures rounds <= MAX_MATCH_CHECKS && (rounds < MAX_MATCH_CHECKS ==> !HasMatch(grid))
      ensures rounds > 0 ==> HasMatch(settled)
      ensures rounds == 0 ==> grid == settled && score == old(score)
      ensures score >= old(score) + 3 * MATCH_POINTS * rounds
      ensures selectedRow == old(selectedRow) && selectedCol == old(selectedCol)
    {
      if firstSelected {
        DropSelection();
      }
      ApplyGravity();
      settled := grid;
      ghost var firstList, firstRemoved;
      rounds, firstList, firstRemoved := Cascade([], true);
    }

    /** Clearing the flag of the selected cell and forgetting the selection
        (Game.cpp:132-135, 180-182): afterwards no cell is selected. */
    method DropSelection()
      requires Valid() && firstSelected
      modifies this
      ensures score == old(score) && selectedRow == old(selectedRow) && selectedCol == old(selectedCol)
      ensures Valid() && !firstSelected && NoneSelected(grid)
      ensures grid == Put(old(grid), Pos(selectedRow, selectedCol),
                          Cell(old(grid), Pos(selectedRow, selectedCol)).(isSelected := false))
    {
      grid := Put(grid, Pos(selectedRow, selectedCol), grid[selectedRow][selectedCol].(isSelected := false));
      firstSelected := false;
    }

    /** swapTiles (Game.cpp:277-298): exchanges colour and bonus of the two
        cells; it always reports success. */
    method SwapTiles(firstRow: int, firstCol: int, secondRow: int, secondCol: int) returns (swapped: bool)
      requires Valid() && InBounds(Pos(firstRow, firstCol)) && InBounds(Pos(secondRow, secondCol))
      modifies this
      ensures Valid() && swapped
      ensures grid == SwapCells(old(grid), Pos(firstRow, firstCol), Pos(secondRow, secondCol))
      ensures score == old(score) && firstSelected == old(firstSelected)
      ensures selectedRow == old(selectedRow) && selectedCol == old(selectedCol)
    {
      grid := SwapCells(grid, Pos(firstRow, firstCol), Pos(secondRow, secondCol));
      swapped := true;
    }

    /** The bounded cascade (Game.cpp:83-88, 142-147, 172-177, 600-605):
        while checkMatches finds a match and fewer than MAX_MATCH_CHECKS
        rounds ran, remove the matches, apply gravity and clear the list.
        The first check appends to `matchesIn`, so the first round removes
        every cell of `matchesIn` as well (`firstList`). Each round scores
        at least three cells; when the cascade stops early the board has no
        match; with bonuses off it brings in no bonus. */
    method Cascade(matchesIn: seq<Pos>, generateBonuses: bool)
      returns (rounds: nat, ghost firstList: seq<Pos>, ghost firstRemoved: Board)
      requires Valid() && forall i :: 0 <= i < |matchesIn| ==> InBounds(matchesIn[i])
      modifies this
      ensures Valid() && rounds <= MAX_MATCH_CHECKS
      ensures rounds < MAX_MATCH_CHECKS ==> !HasMatch(grid)
      ensures rounds == 0 ==> grid == old(grid) && score == old(score)
      ensures rounds > 0 ==> Full(grid)
      ensures score >= old(score) + 3 * MATCH_POINTS * rounds
      ensures rounds > 0 ==> HasMatch(old(grid))
      ensures rounds > 0 ==>
        StrictlySorted(firstList) && |firstList| >= 3 &&
        (forall p :: p in firstList <==> p in matchesIn || InMatch(old(grid), p)) &&
        Shaped(firstRemoved) && Marked(old(grid), firstRemoved, firstList) &&
        score >= old(score) + MATCH_POINTS * |firstList| + 3 * MATCH_POINTS * (rounds - 1)
      ensures !generateBonuses && NoBonus(old(grid)) ==> NoBonus(grid)
      ensures firstSelected == old(firstSelected)
      ensures selectedRow == old(selectedRow) && selectedCol == old(selectedCol)
    {
      rounds := 0;
      firstList := [];
      firstRemoved := grid;
      var found, matches := CheckMatches(grid, matchesIn);
      MatchesInBounds(grid, matchesIn, matches);
      while found && rounds < MAX_MATCH_CHECKS
        invariant Valid() && rounds <= MAX_MATCH_CHECKS
        invariant found <==> HasMatch(grid)
        invariant found ==> StrictlySorted(matches) && |matches| >= 3
        invariant rounds == 0 && found ==> forall p :: p in matches <==> p in matchesIn || InMatch(old(grid), p)
        invariant rounds > 0 ==> HasMatch(old(grid))
        invariant forall i :: 0 <= i < |matches| ==> InBounds(matches[i])
        invariant rounds == 0 ==> grid == old(grid) && score == old(score)
        invariant rounds > 0 ==> Full(grid)
        invariant score >= old(score) + 3 * MATCH_POINTS * rounds
        invariant rounds > 0 ==>
          StrictlySorted(firstList) && |firstList| >= 3 &&
          (forall p :: p in firstList <==> p in matchesIn || InMatch(old(grid), p)) &&
          Shaped(firstRemoved) && Marked(old(grid), firstRemoved, firstList) &&
          score >= old(score) + MATCH_POINTS * |firstList| + 3 * MATCH_POINTS * (rounds - 1)
        invariant !generateBonuses && NoBonus(old(grid)) ==> NoBonus(grid)
        invariant firstSelected == old(firstSelected)
        invariant selectedRow == old(selectedRow) && selectedCol == old(selectedCol)
        decreases MAX_MATCH_CHECKS - rounds
      {
        if rounds == 0 {
          firstList := matches;
        }
        ghost var before := grid;
        RemoveMatches(matches, generateBonuses);
        ghost var removed := grid;
        if rounds == 0 {
          firstRemoved := removed;
        }
        ApplyGravity();
        if !generateBonuses && NoBonus(before) {
          SettledKeepsNoBonus(removed, grid);
        }
        matches := [];
        rounds := rounds + 1;
        found, matches := CheckMatches(grid, matches);
        MatchesInBounds(grid, [], matches);
      }
    }

    /** applyBonus (Game.cpp:484-606): the Recolor or Bomb effect at
        (row, col), witnessed by `effect`; None does nothing. */
    method ApplyBonus(bonus: BonusType, row: int, col: int) returns (ghost effect: Effect)
      requires Valid() && InBounds(Pos(row, col))
      modifies this
      ensures Valid()
      ensures Fired(bonus, old(grid), grid, Pos(row, col), score - old(score), effect)
      ensures firstSelected == old(firstSelected)
      ensures selectedRow == old(selectedRow) && selectedCol == old(selectedCol)
    {
      effect := NoEffect;
      if bonus == Recolor {
        ghost var first, second := ApplyRecolor(row, col);
        effect := RecolorEffect(first, second);
      } else if bonus == Bomb {
        ghost var destroyed, blasted, settled;
        var rounds;
        rounds, destroyed, blasted, settled := ApplyBomb(row, col);
        effect := BombEffect(destroyed, blasted, settled, rounds);
      }
    }

    /** activateBomb (Game.cpp:609-614): fires the Bomb effect only where
        the cell holds a Bomb; anywhere else nothing changes. */
    method ActivateBomb(row: int, col: int) returns (ghost effect: Effect)
      requires Valid() && InBounds(Pos(row, col))
      modifies this
      ensures Valid()
      ensures Cell(old(grid), Pos(row, col)).bonus != Bomb ==> grid == old(grid) && score == old(score)
      ensures Cell(old(grid), Pos(row, col)).bonus == Bomb ==>
        Fired(Bomb, old(grid), grid, Pos(row, col), score - old(score), effect)
      ensures firstSelected == old(firstSelected)
      ensures selectedRow == old(selectedRow) && selectedCol == old(selectedCol)
    {
      effect := NoEffect;
      if grid[row][col].bonus != Bomb {
        return;
      }
      effect := ApplyBonus(Bomb, row, col);
    }

    /** The Recolor effect (Game.cpp:487-540): after a shuffle of the
        vicinity, the first two cells take the origin's colour and lose
        their bonus, for RECOLOR_POINTS once; the origin loses its bonus.
        No other cell changes. */
    method ApplyRecolor(row: int, col: int) returns (ghost first: Pos, ghost second: Pos)
      requires Valid() && InBounds(Pos(row, col))
      modifies this
      ensures Valid() && Recolored(old(grid), grid, Pos(row, col), first, second)
      ensures score == old(score) + RECOLOR_POINTS
      ensures firstSelected == old(firstSelected)
      ensures selectedRow == old(selectedRow) && selectedCol == old(selectedCol)
    {
      var origin := Pos(row, col);
      var vicinity := Vicinity(row, col);
      ghost var ordered := vicinity;
      vicinity := Oracle.Shuffle(vicinity);
      SortedDistinct(ordered);
      PermutedDistinct(ordered, vicinity);
      var recolorColor := grid[row][col].color;
      first, second := origin, origin;
      if |vicinity| >= 2 {
        var v0, v1 := vicinity[0], vicinity[1];
        assert v0 in multiset(ordered) && v1 in multiset(ordered);
        first, second := v0, v1;
        grid := Put(grid, v0, Cell(grid, v0).(color := recolorColor));
        grid := Put(grid, v1, Cell(grid, v1).(color := recolorColor));
        score := score + RECOLOR_POINTS;
        grid := Put(grid, v0, Cell(grid, v0).(bonus := None));
        grid := Put(grid, v1, Cell(grid, v1).(bonus := None));
      }
      grid := Put(grid, origin, Cell(grid, origin).(bonus := None));
    }

    /** The Bomb effect (Game.cpp:542-606): the origin and the first four
        cells of a shuffle of all the others are destroyed, BOMB_POINTS
        each; then gravity and the cascade with a fresh list. */
    method ApplyBomb(row: int, col: int) returns (rounds: nat, ghost destroyed: seq<Pos>, ghost blasted: Board, ghost settled: Board)
      requires Valid() && InBounds(Pos(row, col))
      modifies this
      ensures Valid()
      ensures Bombed(old(grid), grid, Pos(row, col), destroyed, blasted, settled, rounds, score - old(score))
      ensures firstSelected == old(firstSelected)
      ensures selectedRow == old(selectedRow) && selectedCol == old(selectedCol)
    {
      var origin := Pos(row, col);
      var tilesToDestroy := [origin];
      var candidates := BombCandidates(row, col);
      ghost var ordered := candidates;
      candidates := Oracle.Shuffle(candidates);
      SortedDistinct(ordered);
      PermutedDistinct(ordered, candidates);
      var i := 0;
      while i < 4 && i < |candidates|
        invariant 0 <= i <= 4 && |tilesToDestroy| == i + 1
        invariant tilesToDestroy == [origin] + candidates[..i]
      {
        tilesToDestroy := tilesToDestroy + [candidates[i]];
        i := i + 1;
      }
      destroyed := tilesToDestroy;
      BombTargets(origin, ordered, candidates, destroyed);
      DestroyTiles(tilesToDestroy);
      grid := Put(grid, origin, grid[row][col].(bonus := None));
      blasted := grid;
      ApplyGravity();
      settled := grid;
      ghost var firstList, firstRemoved;
      rounds, firstList, firstRemoved := Cascade([], true);
    }

    /** Destroying the listed cells (Game.cpp:572-587): each becomes empty,
        loses its bonus and scores BOMB_POINTS. */
    method DestroyTiles(tiles: seq<Pos>)
      requires Valid() && forall i :: 0 <= i < |tiles| ==> InBounds(tiles[i])
      modifies this
      ensures Valid()
      ensures forall p :: InBounds(p) ==>
        Cell(grid, p) == if p in tiles then Cell(old(grid), p).(color := EMPTY, bonus := None) else Cell(old(grid), p)
      ensures score == old(score) + BOMB_POINTS * |tiles|
      ensures firstSelected == old(firstSelected)
      ensures selectedRow == old(selectedRow) && selectedCol == old(selectedCol)
    {
      for i := 0 to |tiles|
        invariant Shaped(grid)
        invariant forall p :: InBounds(p) ==>
          Cell(grid, p) == if p in tiles[..i] then Cell(old(grid), p).(color := EMPTY, bonus := None) else Cell(old(grid), p)
        invariant score == old(score) + BOMB_POINTS * i
        invariant firstSelected == old(firstSelected)
        invariant selectedRow == old(selectedRow) && selectedCol == old(selectedCol)
      {
        var t := tiles[i];
        assert tiles[..i + 1] == tiles[..i] + [t];
        grid := Put(grid, t, grid[t.row][t.col].(color := EMPTY, bonus := None));
        score := score + BOMB_POINTS;
      }
      assert tiles[..|tiles|] == tiles;
    }

    /** removeMatches (Game.cpp:355-416): every listed cell becomes empty and
        scores MATCH_POINTS; when bonuses are on, each listed cell may, after
        a successful roll, plant a Recolor or Bomb on an intact cell near it. */
    method RemoveMatches(matches: seq<Pos>, generateBonuses: bool)
      requires Valid() && forall i :: 0 <= i < |matches| ==> InBounds(matches[i])
      modifies this
      ensures Valid()
      ensures Marked(old(grid), grid, matches) && Spawned(old(grid), grid, matches, |matches|)
      ensures !generateBonuses ==> SameBonuses(old(grid), grid)
      ensures matches == [] ==> grid == old(grid)
      ensures score == old(score) + MATCH_POINTS * |matches|
      ensures firstSelected == old(firstSelected)
      ensures selectedRow == old(selectedRow) && selectedCol == old(selectedCol)
    {
      if matches == [] {
        return;
      }
      for i := 0 to |matches|
        invariant Shaped(grid) && Marked(old(grid), grid, matches[..i]) && Spawned(old(grid), grid, matches, i)
        invariant !generateBonuses ==> SameBonuses(old(grid), grid)
        invariant score == old(score) + MATCH_POINTS * i
        invariant firstSelected == old(firstSelected)
        invariant selectedRow == old(selectedRow) && selectedCol == old(selectedCol)
      {
        var m := matches[i];
        MarkStep(old(grid), grid, matches, i);
        grid := Put(grid, m, grid[m.row][m.col].(color := EMPTY));
        score := score + MATCH_POINTS;
        var spawn := false;
        if generateBonuses {
          var draw;
          draw, spawn := Oracle.BonusRoll(BONUS_CHANCE);
        }
        if spawn {
          ghost var placed, q := SpawnBonus(matches, i, old(grid));
        }
      }
      assert matches[..|matches|] == matches;
      MarkedColours(old(grid), grid, matches);
    }

    /** Up to 20 draws of an offset in [-3, 3] x [-3, 3] from the i-th listed
        cell; the first one that lands on the board, off the list, on a cell
        with no bonus and a colour receives a Recolor or a Bomb, and the
        draws stop (Game.cpp:374-408). So at most one cell, `q`, changes, and
        only in its bonus. */
    method SpawnBonus(matches: seq<Pos>, i: int, ghost b0: Board) returns (ghost placed: bool, ghost q: Pos)
      requires Shaped(grid) && Shaped(b0) && 0 <= i < |matches| && InBounds(matches[i])
      requires Marked(b0, grid, matches[..i + 1]) && Spawned(b0, grid, matches, i + 1)
      modifies this
      ensures Shaped(grid) && Marked(b0, grid, matches[..i + 1]) && Spawned(b0, grid, matches, i + 1)
      ensures !placed ==> grid == old(grid)
      ensures placed ==>
        InBounds(q) && q !in matches && Near(matches[i], q) &&
        Cell(old(grid), q).bonus == None && Cell(old(grid), q).color != EMPTY &&
        Cell(grid, q) == Cell(old(grid), q).(bonus := Cell(grid, q).bonus) && Cell(grid, q).bonus != None &&
        forall p :: InBounds(p) && p != q ==> Cell(grid, p) == Cell(old(grid), p)
      ensures score == old(score) && firstSelected == old(firstSelected)
      ensures selectedRow == old(selectedRow) && selectedCol == old(selectedCol)
    {
      placed, q := false, matches[i];
      var m := matches[i];
      var bonusAssigned := false;
      var attempts := 0;
      while attempts < 20 && !bonusAssigned
        invariant Shaped(grid) && Marked(b0, grid, matches[..i + 1]) && Spawned(b0, grid, matches, i + 1)
        invariant placed == bonusAssigned && (!placed ==> grid == old(grid))
        invariant placed ==>
          InBounds(q) && q !in matches && Near(matches[i], q) &&
          Cell(old(grid), q).bonus == None && Cell(old(grid), q).color != EMPTY &&
          Cell(grid, q) == Cell(old(grid), q).(bonus := Cell(grid, q).bonus) && Cell(grid, q).bonus != None &&
          forall p :: InBounds(p) && p != q ==> Cell(grid, p) == Cell(old(grid), p)
        invariant score == old(score) && firstSelected == old(firstSelected)
        invariant selectedRow == old(selectedRow) && selectedCol == old(selectedCol)
      {
        var rowOffset := Oracle.UniformInt(-3, 3);
        var colOffset := Oracle.UniformInt(-3, 3);
        var target := Pos(m.row + rowOffset, m.col + colOffset);
        if InBounds(target) {
          var isBeingDestroyed := target in matches;
          if !isBeingDestroyed && grid[target.row][target.col].bonus == None && grid[target.row][target.col].color != EMPTY {
            var kind := Oracle.UniformInt(1, 2);
            var bonus := if kind == 1 then Recolor else Bomb;
            SpawnStep(b0, grid, matches, i, target, bonus);
            grid := Put(grid, target, grid[target.row][target.col].(bonus := bonus));
            bonusAssigned := true;
            placed, q := true, target;
          }
        }
        attempts := attempts + 1;
      }
    }

    /** applyGravity (Game.cpp:418-482): settle every column in turn. Only
        the board changes; no cell becomes selected, so the selection stays
        consistent, and no cell is left empty. */
    method ApplyGravity()
      requires Valid()
      modifies this
      ensures Valid() && Settled(old(grid), grid) && Full(grid)
      ensures score == old(score) && firstSelected == old(firstSelected)
      ensures selectedRow == old(selectedRow) && selectedCol == old(selectedCol)
    {
      for c := 0 to COLS
        invariant Shaped(grid)
        invariant forall c' :: 0 <= c' < c ==> ColumnSettled(Column(old(grid), c'), Column(grid, c'))
        invariant forall c' :: c <= c' < COLS ==> Column(grid, c') == Column(old(grid), c')
        invariant score == old(score) && firstSelected == old(firstSelected)
        invariant selectedRow == old(selectedRow) && selectedCol == old(selectedCol)
      {
        ghost var before := grid;
        SettleColumn(c);
        SameOutsideColumns(before, grid, c);
      }
      SettledIsFull(old(grid), grid);
      SettledFlagsFromOld(old(grid), grid);
      FullIsAllColorOrEmpty(grid);
    }

    /** applyGravity, one column (Game.cpp:419-481): compact the column,
        then refill the rows above the lowest gap. */
    method SettleColumn(c: int)
      requires Shaped(grid) && 0 <= c < COLS
      modifies this
      ensures Shaped(grid)
      ensures ColumnSettled(Column(old(grid), c), Column(grid, c))
      ensures SameOutsideColumn(old(grid), grid, c)
      ensures score == old(score) && firstSelected == old(firstSelected)
      ensures selectedRow == old(selectedRow) && selectedCol == old(selectedCol)
    {
      ghost var col0 := Column(grid, c);
      var empty;
      ghost var kept;
      empty, kept := CompactColumn(c);
      RefillColumn(c, empty, col0, kept);
    }

    /** The compaction walk of applyGravity (Game.cpp:420-460): walk up from
        the bottom with `empty` marking the lowest free row, move each
        non-empty tile's colour and bonus down to `empty` and clear the cell
        it leaves. */
    method CompactColumn(c: int) returns (empty: int, ghost kept: seq<Tile>)
      requires Shaped(grid) && 0 <= c < COLS
      modifies this
      ensures Shaped(grid) && |Column(old(grid), c)| == ROWS
      ensures Refilling(Column(old(grid), c), Column(grid, c), empty, empty, kept)
      ensures kept == Kept(Column(old(grid), c))
      ensures SameOutsideColumn(old(grid), grid, c)
      ensures score == old(score) && firstSelected == old(firstSelected)
      ensures selectedRow == old(selectedRow) && selectedCol == old(selectedCol)
    {
      ghost var col0 := Column(grid, c);
      empty := ROWS - 1;
      var row := ROWS - 1;
      kept := [];
      ghost var hole := 0;
      CompactStart(col0);
      while row >= 0
        invariant Shaped(grid) && Compacting(col0, Column(grid, c), row, empty, kept, hole)
        invariant kept == Kept(col0[row + 1..])
        invariant SameOutsideColumn(old(grid), grid, c)
        invariant score == old(score) && firstSelected == old(firstSelected)
        invariant selectedRow == old(selectedRow) && selectedCol == old(selectedCol)
      {
        empty, kept, hole := CompactCell(c, row, empty, col0, kept, hole, old(grid));
        row := row - 1;
      }
      assert col0[0..] == col0;
      RefillStart(col0, Column(grid, c), empty, kept, hole);
    }

    /** One step of the compaction walk (Game.cpp:422-459): the tile at `row`
        either stays, moves down to `empty`, or is an empty cell passed over. */
    method CompactCell(c: int, row: int, empty: int, ghost col0: seq<Tile>, ghost kept: seq<Tile>,
                       ghost hole: int, ghost b0: Board)
      returns (empty': int, ghost kept': seq<Tile>, ghost hole': int)
      requires Shaped(grid) && Shaped(b0) && 0 <= c < COLS && |col0| == ROWS && 0 <= row
      requires Compacting(col0, Column(grid, c), row, empty, kept, hole)
      requires kept == Kept(col0[row + 1..]) && SameOutsideColumn(b0, grid, c)
      modifies this
      ensures Shaped(grid) && Compacting(col0, Column(grid, c), row - 1, empty', kept', hole')
      ensures kept' == Kept(col0[row..]) && SameOutsideColumn(b0, grid, c)
      ensures score == old(score) && firstSelected == old(firstSelected)
      ensures selectedRow == old(selectedRow) && selectedCol == old(selectedCol)
    {
      KeptCons(col0, row);
      empty', kept', hole' := empty, kept, hole;
      if grid[row][c].color != EMPTY {
        if row != empty {
          CompactMove(col0, Column(grid, c), row, empty, kept, hole);
          kept' := [grid[row][c]] + kept;
          var moving := grid[row][c];
          var landed := grid[empty][c].(color := moving.color, bonus := moving.bonus);
          ColumnPut(grid, Pos(empty, c), landed);
          SameOutsidePut(b0, grid, Pos(empty, c), landed);
          grid := Put(grid, Pos(empty, c), landed);
          var left := grid[row][c].(color := EMPTY, bonus := None, isSelected := false);
          ColumnPut(grid, Pos(row, c), left);
          SameOutsidePut(b0, grid, Pos(row, c), left);
          grid := Put(grid, Pos(row, c), left);
        } else {
          CompactStay(col0, Column(grid, c), row, empty, kept, hole);
          kept' := [grid[row][c]] + kept;
        }
        empty' := empty - 1;
      } else {
        CompactSkip(col0, Column(grid, c), row, empty, kept, hole);
        hole' := if row == empty then row else hole;
      }
    }

    /** The refill of applyGravity (Game.cpp:462-480): every row from `empty`
        up to the top gets a drawn colour, no bonus and no selection. */
    method RefillColumn(c: int, empty: int, ghost col0: seq<Tile>, ghost kept: seq<Tile>)
      requires Shaped(grid) && 0 <= c < COLS && |col0| == ROWS
      requires Refilling(col0, Column(grid, c), empty, empty, kept) && kept == Kept(col0)
      modifies this
      ensures Shaped(grid)
      ensures ColumnSettled(col0, Column(grid, c))
      ensures SameOutsideColumn(old(grid), grid, c)
      ensures score == old(score) && firstSelected == old(firstSelected)
      ensures selectedRow == old(selectedRow) && selectedCol == old(selectedCol)
    {
      var row := empty;
      while row >= 0
        invariant Shaped(grid) && Refilling(col0, Column(grid, c), row, empty, kept)
        invariant SameOutsideColumn(old(grid), grid, c)
        invariant score == old(score) && firstSelected == old(firstSelected)
        invariant selectedRow == old(selectedRow) && selectedCol == old(selectedCol)
      {
        var color := Oracle.UniformInt(0, NUM_COLORS - 1);
        RefillStep(col0, Column(grid, c), row, empty, kept, color);
        ColumnPut(grid, Pos(row, c), grid[row][c].(color := color, bonus := None, isSelected := false));
        SameOutsidePut(old(grid), grid, Pos(row, c), grid[row][c].(color := color, bonus := None, isSelected := false));
        grid := Put(grid, Pos(row, c), grid[row][c].(color := color, bonus := None, isSelected := false));
        row := row - 1;
      }
      RefillDone(col0, Column(grid, c), empty, kept);
    }
  }
}
