/** Board dimensions, palette size, cascade bound and the bonus kinds
    shared by every part of the engine. */
module Constants {
  /** Number of rows and columns of the board. */
  const ROWS: int := 12
  const COLS: int := 12

  /** Colours are the integers 0 .. NUM_COLORS - 1. */
  const NUM_COLORS: int := 6

  /** Upper bound on the remove/gravity rounds of one cascade. */
  const MAX_MATCH_CHECKS: int := 10

  /** The colour sentinel written into a cleared cell until gravity refills it. */
  const EMPTY: int := -1

  /** Points for every cleared cell, for a Recolor activation, and for every
      cell destroyed by a Bomb. */
  const MATCH_POINTS: int := 10
  const RECOLOR_POINTS: int := 10
  const BOMB_POINTS: int := 20

  /** Probability that a cleared cell tries to spawn a bonus. */
  const BONUS_CHANCE: real := 0.05

  /** The special ability a cell may carry. */
  datatype BonusType = None | Recolor | Bomb
}
