# GEMS match-resolution engine in Dafny

This project models the engine of the GEMS tile-matching game (`Project4/Game.cpp`) and proves properties of it. The engine works on a 12 x 12 board. Each cell holds three things:

- a colour in `[0, NUM_COLORS)`, or `EMPTY` (-1) while it waits for gravity;
- a bonus (`None`, `Recolor` or `Bomb`);
- a selection flag.

The class `Engine.Game` holds the board, the score and the selection. Its methods follow the code's in-place updates:

- **Matching.** `checkMatches` is a flood fill over 4-connected same-colour cells, followed by sort and unique.
- **Removal.** `removeMatches` empties the listed cells and may spawn a bonus nearby.
- **Gravity.** `applyGravity` compacts each column with a moving `empty` index, then refills the top.
- **Bonuses.** The Recolor and Bomb effects, and the guarded `activateBomb`.
- **Cascade.** The bounded detect / remove / gravity loop.
- **Clicks.** The swap and bonus branches of `processEvents`.

The board is a `seq<seq<Tile>>` field that the methods reassign cell by cell. Every random draw is a call to the `Oracle` module: a nondeterministic choice from exactly the range the code draws from. So every property holds for every sequence of draws.

A component of size at least 3 is stated as a graph property of the board: the cell belongs to three distinct same-colour cells, one of which is adjacent to the other two (`Matching.InMatch`). With 4-connectivity this holds exactly when the cell's connected component has at least three cells.

The code's accumulating match list is kept as written. After a successful swap, `Game.cpp:168-172` runs the cascade on the list it has just removed, without clearing it first. The first `checkMatches` appends to that list. When the settled board has a new match, the first cascade round therefore empties and scores those cells a second time, whatever tiles have fallen into them; when it has none, no round runs and nothing is removed again. `Engine.Game.SwapWithSelected` and `Engine.Game.ClearSwapMatches` state this double score.

In these places the code does something easy to misread; the model follows the code:

- **Initial board.** The initial board is free of matches only when the cascade in `initializeGrid` stopped before `MAX_MATCH_CHECKS` rounds. `Engine.Game.InitializeGrid` states exactly that.
- **Initial score.** Initial setup adds to the score, because `removeMatches` scores even with bonuses off.
- **Bonus on emptied cells.** `removeMatches` leaves the bonus of an emptied cell in place. It disappears at the next gravity pass.
- **Cascade rounds per click.** A double click on a Bomb runs up to `MAX_MATCH_CHECKS` cascade rounds inside the Bomb effect (`Game.cpp:598-605`) and then up to `MAX_MATCH_CHECKS` more in `processEvents` (`Game.cpp:140-147`). `Engine.Game.UseBonus` states the bound of `2 * MAX_MATCH_CHECKS` rounds per click.
- **Recolor fallback.** The Recolor branch for fewer than two vicinity cells cannot run on a 12 x 12 board: `Bonus.Vicinity` proves there are always at least two.

## Model

| member | source | states |
|---|---|---|
| Grid.IsAdjacent | Project4/Game.cpp:273-275 | true exactly when the second cell is one of the four neighbours (up, down, left, right) of the first, symmetrically; never for a cell and itself |
| Grid.SwapCells | Project4/Game.cpp:277-279 | the two cells exchange colour and bonus, selection flags stay, every other cell is unchanged |
| Grid.SwapInvolution | Project4/Game.cpp:277-279 | swapping the same two cells twice gives back the original board |
| Engine.Game.SwapTiles | Project4/Game.cpp:277-298 | the board becomes the swapped board, the call reports true, score and selection are untouched |
| Matching.InsertUnique | Project4/Game.cpp:347-350 | inserting into a strictly sorted list keeps it strictly sorted, with exactly the old entries plus the new one |
| Matching.SortUnique | Project4/Game.cpp:347-350 | sort then unique: a strictly sorted list (so without duplicates) with exactly the entries of the input, no longer than it |
| Matching.StrictlySortedUnique | Project4/Game.cpp:347-350 | two strictly sorted lists with the same entries are equal, so sort + unique has a single possible result |
| Matching.SortedSubsetLength | Project4/Game.cpp:168-172 | a strictly sorted list contained in another is no longer than it; this bounds the re-scored stale list |
| Matching.LargeClusterMatches | Project4/Game.cpp:338-342 | every member of a flood-fill cluster of at least 3 cells lies in a same-colour connected triple |
| Matching.SmallClusterNoMatch | Project4/Game.cpp:338-342 | no member of a closed cluster of fewer than 3 cells lies in any matching triple |
| Matching.MatchInBounds | Project4/Game.cpp:339-340 | a matched cell is on the board and not empty |
| Matching.Flood | Project4/Game.cpp:309-337 | the DFS from an unvisited non-empty start returns a connected same-colour cluster starting at it, none previously visited, closed under same-colour neighbours; visited grows by exactly that cluster |
| Matching.ScanRegion | Project4/Game.cpp:338-342 | after a cluster is flooded, its cells are visited and exactly the cells of clusters of size at least 3 are added |
| Matching.ScanComplete | Project4/Game.cpp:305-344 | after the scan of every cell, the added cells are exactly the matched cells, and some were added iff the board has a match |
| Matching.ScanCell | Project4/Game.cpp:307-342 | one scan step keeps the invariant: cells up to this one are visited and the list holds the input plus the matched cells found so far |
| Matching.CheckMatches | Project4/Game.cpp:301-353 | reads the board without changing it; returns true iff some cell lies in a same-colour connected component of size at least 3; then the list is strictly sorted (sorted, no duplicates), has at least 3 entries and holds exactly the old entries plus the matched cells; otherwise the list is unchanged |
| Removal.MarkStep | Project4/Game.cpp:364-371 | emptying the next listed cell extends the set of emptied cells by it and changes no bonus or flag |
| Removal.SpawnStep | Project4/Game.cpp:382-390 | a bonus placed on an unlisted, bonus-free, non-empty cell within reach of the current listed cell is an allowed spawn, and colours are unaffected |
| Removal.MarkedColours | Project4/Game.cpp:364-366 | emptying cells keeps every colour a colour or EMPTY |
| Engine.Game.RemoveMatches | Project4/Game.cpp:355-416 | listed cells become EMPTY and all others keep their colour; score rises by exactly 10 per listed entry; flags and selection untouched; an empty list changes nothing; with bonuses off no bonus changes; any changed bonus is Recolor or Bomb on an on-board cell that is not listed, had no bonus and a colour, within Chebyshev distance 3 of a listed cell |
| Engine.Game.SpawnBonus | Project4/Game.cpp:374-390 | up to 20 offset draws in [-3, 3], stopping at the first placement: either the board is unchanged, or exactly one cell `q` changes, only in its bonus, which goes from None to Recolor or Bomb; `q` is on the board, not listed, had a colour, and lies within Chebyshev distance 3 of the current listed cell; the spawn rule above is kept; score and selection are unchanged |
| Gravity.KeptFromColumn | Project4/Game.cpp:421-459 | the kept tiles are non-empty tiles of the column, and no more than the column holds |
| Gravity.KeptAll | Project4/Game.cpp:421-459 | all tiles are kept iff none is empty, and then the kept list is the column itself |
| Gravity.KeptLength | Project4/Game.cpp:421-459 | the number of kept tiles equals the number of non-empty cells, counted independently from the bottom |
| Gravity.KeptRank | Project4/Game.cpp:421-459 | the non-empty tile of row i is the kept tile whose position equals the number of non-empty tiles above it |
| Gravity.CountSplit | Project4/Game.cpp:421-459 | non-empty counts add up over a split of the column, and a part holds no more non-empty tiles than cells |
| Gravity.LandingOrder | Project4/Game.cpp:421-459 | landing rows strictly increase with the starting row, so the relative order is kept, and a tile never lands above its starting row |
| Gravity.SettledLanding | Project4/Game.cpp:419-481 | after gravity the non-empty tile of row i sits at its landing row, at or below row i, with its colour and bonus |
| Gravity.CompactStart | Project4/Game.cpp:420-421 | before the walk, the compaction invariant holds with empty = ROWS-1 and nothing kept |
| Gravity.CompactSkip | Project4/Game.cpp:422 | passing over an empty cell keeps the compaction invariant |
| Gravity.CompactStay | Project4/Game.cpp:422-458 | a non-empty tile already at `empty` stays, is kept and keeps its flag |
| Gravity.CompactMove | Project4/Game.cpp:423-458 | moving colour and bonus down to `empty` and clearing the source cell keeps the compaction invariant |
| Gravity.RefillStart | Project4/Game.cpp:461-464 | after the walk the rows below `empty` hold the kept tiles in order |
| Gravity.RefillStep | Project4/Game.cpp:464-470 | refilling a row with a valid colour, no bonus and no flag keeps the refill invariant |
| Gravity.RefillDone | Project4/Game.cpp:464-481 | after the refill the column is settled: kept tiles in order at the bottom, fresh valid colours, no bonus and no flag above |
| Gravity.SettledIsFull | Project4/Game.cpp:418-482 | after gravity no cell is EMPTY |
| Gravity.SettledFullIsIdentity | Project4/Game.cpp:418-482 | on a board with no EMPTY cell, gravity leaves the board unchanged and nothing else is a possible outcome |
| Gravity.SettledKeepsNoBonus | Project4/Game.cpp:418-482 | gravity brings in no bonus: a board without bonuses stays without |
| Gravity.SettledFlagsFromOld | Project4/Game.cpp:418-482 | gravity never sets a selection flag |
| Gravity.SettledIdempotent | Project4/Game.cpp:418-482 | applying gravity a second time changes nothing |
| Engine.Game.CompactCell | Project4/Game.cpp:422-459 | one step of the walk keeps the compaction invariant and the kept list, touching only column c |
| Engine.Game.CompactColumn | Project4/Game.cpp:420-460 | the walk leaves the kept tiles, in order, with their colour and bonus, in the bottom rows of column c |
| Engine.Game.RefillColumn | Project4/Game.cpp:462-480 | the refill leaves column c settled and every other column unchanged |
| Engine.Game.SettleColumn | Project4/Game.cpp:419-481 | column c ends settled with respect to its old contents; all other cells, the score and the selection are unchanged |
| Engine.Game.ApplyGravity | Project4/Game.cpp:418-482 | every column is settled, no cell is EMPTY, gravity sets no flag (a tile that stays keeps its own), the score and the selection are unchanged |
| Bonus.Vicinity | Project4/Game.cpp:504-510 | exactly the on-board cells within Chebyshev distance 3 of the origin, origin excluded, in row-major order without repetition, and always at least two of them |
| Bonus.BombCandidates | Project4/Game.cpp:560-567 | exactly the on-board cells other than the origin, in row-major order without repetition: 143 cells |
| Bonus.PermutedDistinct | Project4/Game.cpp:512 | a shuffle of a list without repetition has no repetition |
| Bonus.BombTargets | Project4/Game.cpp:559-571 | the origin followed by the first four shuffled candidates are five distinct on-board cells |
| Engine.Game.ApplyRecolor | Project4/Game.cpp:487-540 | `Recolored`: two distinct cells other than the origin, within Chebyshev distance 3 of it, take the origin's colour and lose their bonus; the origin loses its bonus; nothing else changes; the score rises by exactly 10 |
| Engine.Game.DestroyTiles | Project4/Game.cpp:572-587 | each listed cell becomes EMPTY with no bonus, everything else is unchanged, +20 per entry |
| Engine.Game.ApplyBomb | Project4/Game.cpp:542-606 | `Bombed`: the origin and four other distinct on-board cells become EMPTY with no bonus and nothing else changes (`blasted`); gravity settles that board (`settled`); the cascade runs a round only if `settled` has a match, at most 10 rounds, fewer only if no match remains; the board ends full; with no cascade round the board is `settled` and the score rises by exactly 100, otherwise by at least 100 plus 30 per round |
| Engine.Game.ApplyBonus | Project4/Game.cpp:484-606 | `Fired`, with the cells and boards of the effect passed out as `effect`: None changes nothing; Recolor has exactly the `Recolored` effect for exactly +10; Bomb has the `Bombed` effect, including its cascade round count |
| Engine.Game.ActivateBomb | Project4/Game.cpp:609-614 | a cell without a Bomb leaves board and score unchanged; on a Bomb, `Fired` for Bomb: the `Bombed` effect of the Bomb branch of applyBonus, witnessed by `effect` |
| Engine.Game.Cascade | Project4/Game.cpp:83-88 | the loop at lines 83-88, 142-147, 172-177 and 600-605; at most MAX_MATCH_CHECKS rounds, with no match left if fewer ran; a round runs only on a board with a match, and zero rounds change nothing; after a round the board is full; each round scores at least 30; the first round's list (`firstList`) is exactly the incoming list plus the matched cells of the board, and its removal (`firstRemoved`) empties every one of its cells; with bonuses off a bonus-free board stays bonus-free |
| Engine.Game.InitializeGrid | Project4/Game.cpp:55-89 | the board ends full, with no bonus and no flag, at most 10 cascade rounds and no match if fewer ran; at least 30 points per round, and no points when no round ran |
| Engine.Game.constructor | Project4/Game.cpp:8-53 | nothing selected, selection (-1, -1); a full board with no bonus and no flag; the setup cascade ran `initRounds` rounds, at most 10, and the board has no match if fewer ran; the score is at least 30 per setup round, and 0 when no round ran |
| Engine.Game.HandleClick | Project4/Game.cpp:125-185 | off-board clicks change nothing; a first click selects exactly that cell; a bonus double click or a second click leaves nothing selected; the score never decreases and the board stays consistent |
| Engine.Game.SelectCell | Project4/Game.cpp:150-155 | the clicked cell becomes the selection and is the only cell whose flag changes, to set; the score is unchanged |
| Engine.Game.SwapWithSelected | Project4/Game.cpp:158-182 | a non-neighbour, or a swap that makes no match, leaves the board as before except that the selected flag is cleared; otherwise `matched` is exactly the matched cells of the swapped board, strictly sorted, and `SwapCleared` holds: removing them from the swapped board gives `removed`, gravity gives `settled`, with no cascade round the board is `settled` with the flag cleared and the score rises by exactly 10 per match, and a round runs only if `settled` has a match, its list then being the stale list plus the matched cells of `settled`, so it empties the stale cells again and scores them a second time; nothing stays selected |
| Engine.Game.ClearSwapMatches | Project4/Game.cpp:167-177 | `SwapCleared` for the board it ends on: exactly 10 per match and the settled board when no cascade round runs; a round only if the settled board has a match, and then a list of exactly the stale entries plus that board's matched cells, a second removal and a second 10 per match of the stale cells; at least 30 per round; fewer than 10 rounds only if no match remains |
| Engine.Game.UseBonus | Project4/Game.cpp:126-147 | `Fired`: the bonus has exactly its Recolor or Bomb effect, giving `fired` for `gained` points; the selection is dropped and gravity settles that board (`settled`), which is the final board, with no further points, when no cascade round runs; a round runs only if `settled` has a match; at most 10 more cascade rounds, fewer only if no match remains, and at most 20 rounds in all for a Bomb; the board ends full and nothing is selected |
| Engine.Game.SettleAfterBonus | Project4/Game.cpp:131-147 | the selection is dropped and gravity settles the board (`settled`); a cascade round runs only if `settled` has a match, at most 10, fewer only if no match remains; with no round the board is `settled` and the score unchanged, otherwise at least 30 per round; nothing stays selected and the board ends full |
| Engine.Game.DropSelection | Project4/Game.cpp:180-182 | the selected cell's flag is cleared and the selection forgotten; afterwards no cell is selected |
| Oracle.UniformInt | Project4/Game.cpp:462-465 | a draw from uniform_int_distribution(lo, hi) lies in [lo, hi] |
| Oracle.BonusRoll | Project4/Game.cpp:374 | the draw of realDist (uniform on [0, 1), Game.cpp:358) lies in [0, 1), and the roll succeeds exactly when the draw is below the chance passed in, BONUS_CHANCE = 0.05 at the call, so either outcome is possible |
| Oracle.Shuffle | Project4/Game.cpp:512 | std::shuffle yields a permutation: same length, same multiset of entries |

## Left out

- Rendering and animation are not modelled: `render`, `update`, the `Animation` struct, and the shape, fuse, recolour-icon, highlight and overlay fields of a tile. They are presentation only.
- `Tile::updateFuse` and `Tile::resetFuse` are not modelled. They are floating-point animation.
- Double-click timing and the pixel-to-cell mapping (`Game.cpp:100-124`) are not modelled. `Engine.Game.HandleClick` receives the cell and the double-click verdict as parameters.
- `run()`, the event loop and the window are not modelled. They are I/O plumbing.
- `ResourceManager`, sound playback and console logging are not modelled. They are foreign library calls.
- The `mt19937` sequence and `float` rounding are not modelled. Every draw is an oracle choice: `Oracle.BonusRoll` draws any exact real in [0, 1) and compares it with `BONUS_CHANCE`, and `Oracle.UniformInt` and `Oracle.Shuffle` return any value in the drawn range.
- `Matching.CheckMatches` keeps the visited cells as a set instead of a `vector<vector<bool>>`. The cells it marks are the same.
- `Matching.CheckMatches` takes the board as a value rather than reading the member, so it cannot change the board.
- Engine.Game.RemoveMatches: does not state that each listed entry spawns at most one bonus. `Engine.Game.SpawnBonus` states it for each call.
- Engine.Game.ApplyBomb: once a cascade round runs, states only a lower bound on the score and no relation between `settled` and the final board, as `Engine.Game.Cascade` does. The same holds for `Engine.Game.ApplyBonus` and `Engine.Game.ActivateBomb` on a Bomb, through `Bombed`.
- Engine.Game.ClearSwapMatches: once a cascade round runs, states the second removal of the stale list and lower bounds on the score, but not the later rounds, as `Engine.Game.Cascade` does. The same holds for `Engine.Game.SwapWithSelected`.
- Engine.Game.Cascade: states lower bounds on the score, not the exact score of every round, and relates only the first round's removal to the boards; the boards after later rounds are not related to the earlier ones.
- Engine.Game.UseBonus: once a cascade round runs after the bonus, states only lower bounds on the score and no relation to the earlier boards, as `Engine.Game.Cascade` does. The same holds for `Engine.Game.SettleAfterBonus`.
- Engine.Game.HandleClick: states only consistency and the score bound for the bonus and swap paths. The effects of those paths are stated in `Engine.Game.UseBonus` and `Engine.Game.SwapWithSelected`, which give exact effects as far as the first cascade round and lower bounds on the score after it.
- Engine.Game.constructor: the ghost field `initRounds` describes the setup cascade only; later methods do not promise to keep it.
- Engine.Game.ApplyRecolor: states only the reachable branch. The fewer-than-two-cells branch is modelled as written, but `Bonus.Vicinity` proves it cannot run.
- The score is an unbounded integer. C++ `int` overflow is not modelled; a 32-bit `int` overflows only above 2^31 - 1 (about 2.1 x 10^9) points.
