/** The part of a tile that the engine reads and writes; shapes, icons,
    fuses and animation state belong to the presentation layer. */
module Tiles {
  import opened Constants

  datatype Tile = Tile(color: int, bonus: BonusType, isSelected: bool)

  /** A colour a tile may hold at rest. */
  predicate ValidColor(c: int) {
    0 <= c < NUM_COLORS
  }

  /** A colour a tile may hold at any time: a real colour or EMPTY. */
  predicate ColorOrEmpty(c: int) {
    c == EMPTY || ValidColor(c)
  }
}
