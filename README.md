# Monster-capture rules engine in Dafny

This project models the `GameState` class of `gameState.js`. That class is
the rules engine of a two-player game on a 10x10 board. Each cell is empty
or holds one creature of player 1 or player 2: a Vampire, a Werewolf or a
Ghost. The engine works in two stages:

- **Reset.** Seven monsters per side are auto-placed in the home rows (row 0
  for player 1, row 9 for player 2).
- **Placement phase.** Each player places three more monsters in their own
  half (rows 0-4 or rows 5-9).

After that, players move monsters:

- A move goes along a row or a column any distance, or along a diagonal at
  most two cells.
- It must not pass over an opposing monster.
- A move onto an opposing monster is a fight decided by the cycle
  Vampire > Werewolf > Ghost > Vampire.

The engine keeps a live-monster count per player, a turn pointer, a round
counter and the outcome (a win or a draw).

The files:

- `board.dfy` (module `Board`): cells and the board as values, and how many
  cells each player owns.
- `geometry.dfy` (module `Geometry`): the move-shape rule and the path
  between two cells.
- `combat.dfy` (module `Combat`): the dominance cycle and what a fight does
  to the board and to the counts.
- `game_state.dfy` (module `Game`): the class `GameState`. It mirrors the
  JavaScript class, with the same fields, except `players`. That field is
  always `[1, 2]`, so it is the module constant `Players`.
  - `gameBoard` is an `array2<Cell>` written cell by cell. A ghost field
    `cells` holds its contents as a value.
  - The counters are maps that the methods reassign.
  - Each thrown error becomes a `Fail` result. Every `Fail` leaves the state
    unchanged.

The invariant `Valid()` holds before and after every operation:

- The board is 10x10.
- Owner and creature of every cell are set and cleared together.
- The turn pointer is 0 or 1, and `isGameOver` holds exactly when a winner
  is recorded.
- During the placement phase nobody has placed more than three monsters.
- No player's live-monster count is lower than the number of cells they own.

That last point is stated through `Surplus` (the count minus the owned
cells), because the code does not keep "count equals owned cells":

- Every operation keeps each player's surplus, with one exception.
- A move onto one's own monster overwrites that monster without decrementing
  the count, which raises the mover's surplus by one.

The model keeps these behaviours of the code as written:

- Moving onto one's own monster overwrites it.
- Leaving the placement phase sets the turn index to a player with the
  fewest monsters but does not update `currentPlayer`.
  `SecondPlacerMovesTwice` shows one result: player 2 can get two turns in a
  row.
- `moveMonster` does not look at `isGameOver`.
- A zero-length move passes `isValidMove`, but then `getPath` never returns.
  The model reports it as the result `Fail(NeverReturns)`. Unlike the other
  rejections this is not recoverable in the code: the loop grows the path on
  every round, so the call spins until memory runs out and no state after it
  is ever reached. The unchanged state of that `Fail` is only a placeholder.
  `CounterReachesIff` proves that the path loop's counter reaches its bound
  exactly when the two coordinates differ.
- A placement with coordinates off the board is not rejected as an invalid
  placement: reading the cell inside `isValidPlacement` throws a TypeError.
  The model reports `BoardIndexError`, after the turn check.
- The three-placement quota applies only while `initialPlacement` holds.
  After the placement phase, `addMonster` still accepts placements. It
  applies no quota then and never ends the turn.
- A move that does not empty the mover's side of the board does not end the
  turn.

## Model

| member | source | states |
|---|---|---|
| Game.GameState.constructor | gameState.js:2-4 | a new engine is in the reset state described for `ResetGameState` |
| Game.GameState.ResetGameState | gameState.js:6-19 | fresh board; player 1 owns exactly 7 cells, all in row 0, and player 2 exactly 7, all in row 9; counts {1:7, 2:7}; placements {1:0, 2:0}; elimination counts {1:0, 2:0}; placement phase on; turn index 0; current player 1; round 0; no winner; game not over; each count equals owned cells |
| Game.GameState.Reset | gameState.js:21-23 | same end state as a reset |
| Game.GameState.RandomPlaceRemainingMonsters | gameState.js:57-74 | from an empty board: counts become {1:7, 2:7}, each player owns exactly 7 cells, every occupied cell is in its owner's home row |
| Game.GameState.PlacePlayerMonsters | gameState.js:58-73 | seven placements for one player: that player's owned cells go from 0 to 7, the other player's owned-cell count is kept, every cell occupied before keeps its content, the player's count rises by 7 |
| Game.GameState.NewBoard | gameState.js:7 | a fresh 10x10 board, not shared with any earlier one, whose every cell is empty |
| Game.GameState.PlaceAtRandom | gameState.js:60-71 | one empty cell of the player's home row (whichever the random retries hit) gets a monster of that player; no other cell changes; the count rises by one |
| Game.AtHomeAfterPlacing | gameState.js:62-67 | putting a player's monster in their home row keeps every monster in its owner's home row |
| Board.RoomInRow | gameState.js:61-63 | while a player owns fewer than 10 cells and their home row holds nothing else, that row has an empty cell, so the retry loop has something to find |
| Board.BoardCountSet | gameState.js:48-49 | writing one cell changes each player's owned-cell count by exactly what left the cell and what arrived |
| Game.GameState.GetGameBoard | gameState.js:25-33 | the view holds the live board array itself (not a copy) and the current player, phase flag, winner and round |
| Game.GameState.AddMonster | gameState.js:35-55 | rejections in the code's order: wrong turn, out-of-range cell, occupied cell or foreign half (both directions), quota (only in the placement phase, both directions); a placement passing all four checks returns `Pass`; any rejection changes nothing; success writes exactly the target cell, bumps both counters, keeps both surpluses, and ends the turn exactly on the third placement of the phase |
| Game.GameState.PlaceMonster | gameState.js:48-54 | board and counter effect of a placement, then end of turn when the phase quota is reached, otherwise the turn fields are untouched |
| Game.GameState.WriteMonster | gameState.js:48-50 | the target cell gets `{playerId, monsterType}` and both counters rise by one, keeping the invariant and both surpluses |
| Game.GameState.IsValidPlacement | gameState.js:121-135 | true exactly when the cell is empty and in the player's half (rows 0-4 for player 1, rows 5-9 for player 2) |
| Game.GameState.IsValidMove | gameState.js:137-152 | true exactly when all four coordinates are on the board, the mover owns the start cell, and the end is the start or 1 to Reach(d) steps along one of the eight compass directions d (2 on a diagonal, 10 straight) |
| Geometry.LegalShapeIsCompassMove | gameState.js:147-151 | the code's row/column/diagonal rule is the same as "stay put or walk 1..Reach(d) steps along a compass direction d" |
| Game.GameState.GetPath | gameState.js:154-174 | for distinct endpoints the three step loops build exactly the cells strictly between them along the line joining them, nearest the start first, and nothing when they are not aligned |
| Geometry.PathInside | gameState.js:154-174 | for a legal move between board cells the path has exactly max(abs(dr), abs(dc)) - 1 cells, all on the board and distinct from both ends, and the next step reaches the end |
| Geometry.CounterReachesIff | gameState.js:156-162 | a path counter moving by the code's step reaches its bound after some rounds exactly when start and end coordinates differ |
| Game.GameState.PathIsClear | gameState.js:101-106 | true exactly when no path cell holds a monster of another player; empty and own cells do not block |
| Game.GameState.MoveMonster | gameState.js:88-119 | rejections in the code's order: placement phase, wrong turn, invalid move (both directions), zero-length move, blocked path (both directions); a move passing all five checks returns `Pass`; any rejection changes nothing; success is a fight onto an opposing monster or otherwise a relocation, and the turn ends exactly when the mover is left owning no cell |
| Game.GameState.MovePiece | gameState.js:108-116 | a fight when the destination holds an opposing monster, otherwise start copied to destination and start cleared with counts unchanged; the invariant holds after |
| Game.MoveSurplus | gameState.js:108-116 | every move keeps every player's surplus, except that a capture of one's own monster raises the mover's surplus by exactly one |
| Game.MoveCovered | gameState.js:108-116 | after any accepted move no player's count is below the cells they own |
| Combat.RelocateCells | gameState.js:114-115 | after a plain move the destination holds the mover's cell, the start is empty, every other cell is unchanged |
| Combat.RelocateCounts | gameState.js:114-115 | a plain move keeps owned-cell counts, except that moving onto one's own monster leaves the mover one cell fewer |
| Game.GameState.ResolveConflict | gameState.js:176-201 | the board becomes `ClashBoard` and the counts `ClashCounts` of the fight, and the invariant holds after |
| Combat.Confront | gameState.js:180-192 | the attacker wins exactly when the defender is its prey, the defender wins exactly when the attacker is the defender's prey, both fall exactly on equal kinds, and nothing happens only when one side is empty |
| Combat.ClashBoardCells | gameState.js:176-201 | after a fight the start is empty; the destination holds the attacker if it preys on the defender, is empty on equal kinds, and otherwise still holds the defender; no other cell changes |
| Combat.ClashCountsLoser | gameState.js:185-197 | a fight costs the defender's owner one monster when the attacker preys on it, the attacker's owner one when the defender preys on it, each of them one on equal kinds, and nobody else anything |
| Combat.ClashKeepsSurplus | gameState.js:176-201 | for every player, count minus owned cells is the same before and after a fight |
| Game.ClashCovered | gameState.js:176-201 | after a fight no player's count is below the cells they own |
| Game.GameState.CurrentPlayerMonsters | gameState.js:204 | the flattened, filtered board: exactly the current player's cells, row by row |
| Board.BoardOwnedCount | gameState.js:204 | that list has exactly as many entries as the player owns cells, and each belongs to the player |
| Board.CountPositiveIffOwned | gameState.js:204-205 | a player's owned-cell count is positive exactly when some cell belongs to them |
| Game.CanMonsterMove | gameState.js:210-213 | every monster counts as able to move |
| Game.GameState.CheckForNoMovesLeft | gameState.js:203-213 | with every monster counting as able to move, the turn ends exactly when the current player owns no cell; otherwise the turn fields are untouched |
| Game.GameState.EndTurn | gameState.js:215-230 | a finished game is left alone; once both players have placed 3 during the placement phase the phase ends and the turn index goes to a player with the fewest monsters while `currentPlayer` is kept; otherwise the index flips, the round rises exactly when it returns to 0, and `currentPlayer` follows the index; then the outcome is the verdict on the counts |
| Game.TwoTurnsMakeARound | gameState.js:222-228 | outside the placement phase, two ends of turn with both counts positive return the index to where it was, add exactly one round, and leave the turn with the player at that index |
| Game.SecondPlacerMovesTwice | gameState.js:219-228 | when the phase ends after player 2's third placement and the index goes to player 1, `currentPlayer` stays 2 and the next end of turn gives player 2 the turn again |
| Game.GameState.DetermineFirstPlayer | gameState.js:232-238 | the pick is player 1 or 2 and has the minimal live-monster count |
| Game.GameState.CheckForWin | gameState.js:248-259 | when the verdict on the two counts is a draw or a win it is recorded and the game is over; with both counts positive nothing changes |
| Game.Verdict | gameState.js:249-258 | draw exactly when both counts are 0 or below, a win for player 1 exactly when only player 2's count is, a win for player 2 exactly when only player 1's count is, no winner exactly when both are positive |

## Left out

- Randomness. `getRandomBorderPosition`, `getRandomMonsterType` and the tie-break in `determineFirstPlayer` use `Math.random`. The model uses nondeterministic choices (`:|`): any empty home-row column, any of the three kinds, any player among those tied at the minimum.
- Game.GameState.PlaceAtRandom: the retry loop of `randomPlaceRemainingMonsters` ends only with probability one. The model picks an empty home-row cell directly, so drawing occupied columns first is not modelled. The contract does not state the distribution.
- Game.GameState.DetermineFirstPlayer: states that the pick is among the tied players, not that it is uniform.
- Game.GameState.GetPath: requires distinct endpoints. For equal endpoints the code loops for ever. The model does not call `GetPath` in that case: `MoveMonster` returns `Fail(NeverReturns)` instead.
- `determineNextPlayer` is an unused copy of `determineFirstPlayer` and has no counterpart.
- `playerEliminationCount` is only ever reset, and the model only resets it.
- The row arrays of the board are one `array2`, so aliasing between row objects is not modelled. The code fills rows with one shared default cell object, but it only ever reassigns cells, never mutates one, so cells are values here.
- Unvalidated inputs are not modelled: monster types other than the three kinds, and coordinates that are not integers. Out-of-range integer coordinates in `addMonster` are modelled as the result `BoardIndexError`.
- The error message strings are not modelled; each thrown error is one `GameError` constructor.
- JavaScript numbers are doubles. Counts and indices here stay far below 2^53, so they are modelled as unbounded integers.
- `server.js` (HTTP routes, the game list, win/loss tallies) and `public/script.js` (rendering, sockets, client-side checks) are not part of this model.
