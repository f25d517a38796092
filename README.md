# Clonium game engine, modelled in Dafny

Clonium is a turn-based chain-reaction game for two to four players. The board is a grid of at most
12 x 12 cells for the corrected layouts; the as-written `TwoRectangulesLayout` can return 13 rows
(see Findings). A layout function decides which cells are playable. A player moves by adding a point
to a cell they own. Each round selects the owned cells that hold exactly 4 points when the round
starts and explodes them in row-major order: such a cell drops to 0, and each playable orthogonal
neighbour gains one point and passes to the acting player. A selected cell pushed to 5 by an
earlier explosion of the same round still explodes, to 0. A cell that did not hold exactly 4 when
the round started does not explode in that round; once past 4 it only grows and never explodes.
Rounds repeat until no owned cell holds exactly 4.

After the cascade:
- the turn passes to the next player with `nextGameState`;
- `updateScore` counts each player's cells and eliminates every player with none left;
- once all players but one are eliminated, the last one standing wins;
- if the player now to move is eliminated, `nextRole` runs again to skip over them.

The project models the engine of the web front end:

- `players.dfy` (module `Players`) covers `utilFunctions.ts`. It models players, game states,
  `playerToGameState`, `playerToNumber` and `nextGameState`. It proves that the turns cycle through
  exactly the active slots.
- `layouts.dfy` (module `Layouts`) covers `board-layouts.ts`: the three mask generators with their
  range checks.
- `cells.dfy` (module `Cells`) holds the cell record and its `increment`/`explode`, as assumed below.
- `grid.dfy` (module `Grid`) gives the grid as a value, with the rules as functions:
  - the row-major scan of `analyse`;
  - the neighbour lookup of `getCellNeighbors`;
  - one explosion round of `update`;
  - the analyse/update cascade, with a round cap;
  - the score count.

  It also proves the per-cell effect of a round.
- `board.dfy` (module `BoardModel`) models `board.model.ts` as a class `Board`, whose grid, state and
  eliminated-slot fields its methods update.
- `component.dfy` (module `BoardComponent`) models `board.component.ts` as a class `BoardComponent`.
  Its methods `Analyse`, `Update`, `NextRole`, `UpdateScore`, `Increment` and
  `IncrementFromOtherPlayer` change the board in place, with loops where the source has them. Each is
  proved against a value-level function of `grid.dfy` or of its own module:
  - `Analyse` against `Critical`, the row-major selection of critical cells;
  - `Update` against `UpdateGrid`, one explosion round;
  - `UpdateScore` against `Score`, `ZeroScoreSlots` and `ScoredState`;
  - `NextRole`, `Increment` and `IncrementFromOtherPlayer` against `NextRoleResult`, through the
    predicate `RoleApplied`.

  The lemmas about these functions carry the game's properties.

Source paths below are relative to the repository root.

## Model

| member | source | states |
|---|---|---|
| Players.PlayerToGameState | frontend/clonium-web/src/app/shared/utils/utilFunctions.ts:4-23 | UNDEFINED exactly for a value outside the four players; otherwise the turn state of that same player |
| Players.PlayerToNumber | frontend/clonium-web/src/app/shared/utils/utilFunctions.ts:24-37 | fails (throws) exactly for a non-player; otherwise a number 1..4 equal to the slot number of the player's turn |
| Players.NextGameState | frontend/clonium-web/src/app/shared/utils/utilFunctions.ts:38-59 | the state after any of the four players is a turn state |
| Players.SlotRoundTrip | frontend/clonium-web/src/app/shared/utils/utilFunctions.ts:4-23 | playerToGameState and the player of a turn state are mutually inverse on the four slots |
| Players.NextIsClampedSuccessor | frontend/clonium-web/src/app/shared/utils/utilFunctions.ts:38-59 | with 2..4 players the next turn is an active slot: slot k+1 if k < playersNumber, else slot 1 |
| Players.IterateNumber | frontend/clonium-web/src/app/shared/utils/utilFunctions.ts:38-59 | j turns after slot k comes slot ((k-1+j) mod n)+1, always an active slot |
| Players.CycleLength | frontend/clonium-web/src/app/shared/utils/utilFunctions.ts:38-59 | playersNumber turns bring play back to the same slot, and no fewer do |
| Players.CycleCovers | frontend/clonium-web/src/app/shared/utils/utilFunctions.ts:38-59 | every active slot is reached within playersNumber turns from any active slot |
| Players.ActiveSlotsSize | frontend/clonium-web/src/app/shared/utils/utilFunctions.ts:38-59 | a game of n players has exactly n turn slots in play |
| Layouts.InitialBoard | frontend/clonium-web/src/app/shared/utils/board-layouts.ts:5-7 | height rows of width entries, all false |
| Layouts.RectangularLayout | frontend/clonium-web/src/app/shared/utils/board-layouts.ts:8-28 | RangeError (width checked first) exactly when a dimension is outside 1..12; otherwise a width x height mask that is playable everywhere |
| Layouts.TwoRectangulesLayout | frontend/clonium-web/src/app/shared/utils/board-layouts.ts:30-55 | as written: fails exactly when w1 is outside 1..12, h1 <= 0 or h2 > 12; otherwise a w1 x h1 mask, playable exactly outside the centred w2 x h2 hole |
| Layouts.TwoRectanglesAcceptsTallBoard | frontend/clonium-web/src/app/shared/utils/board-layouts.ts:34-36 | the height check lets a 13-row mask through (w1=5, h1=13, w2=1, h2=1) |
| Layouts.TwoRectangulesLayoutChecked | frontend/clonium-web/src/app/shared/utils/board-layouts.ts:30-55 | corrected: fails exactly when w1 or h1 is outside 1..12, so a mask never exceeds 12 rows; same hole; agrees with the as-written layout whenever h2 <= 12 |
| Layouts.RectangularAndSquaresLayout | frontend/clonium-web/src/app/shared/utils/board-layouts.ts:57-84 | RangeError exactly when a dimension is outside 1..12; otherwise the two-cell border is playable and a cell is unplayable exactly when it lies in one of the four corner squares of side squareSide |
| Grid.SetKeepsWellFormed | frontend/clonium-web/src/app/shared/models/board.model.ts:53-55 | replacing a cell with one at the same coordinates and playability keeps the grid consistent with the mask |
| Grid.GetAfterSet | frontend/clonium-web/src/app/shared/models/board.model.ts:53-55 | after a set, the new cell is at its position and every other position is unchanged |
| Grid.CriticalIn | frontend/clonium-web/src/app/shared/components/board/board.component.ts:193-195 | a cell is kept exactly when it is in the input, owned by a player and holds 4 |
| Grid.CriticalSelection | frontend/clonium-web/src/app/shared/components/board/board.component.ts:191-198 | every selected cell is a critical cell of the grid at its own position; the selection is in row-major order with no position twice |
| Grid.CriticalCoversGrid | frontend/clonium-web/src/app/shared/components/board/board.component.ts:191-198 | a grid cell is selected exactly when it is critical |
| Grid.CriticalEmptyIffStable | frontend/clonium-web/src/app/shared/components/board/board.component.ts:229-232 | analyse returns nothing exactly when no cell of the grid is critical, which is the loop's exit |
| Grid.NeighborPositionsSpec | frontend/clonium-web/src/app/shared/models/board.model.ts:31-51 | the lookup returns exactly the playable cells west, north, east and south, each once, in that order |
| Grid.NeighborPositionsDistinct | frontend/clonium-web/src/app/shared/models/board.model.ts:31-51 | the lookup never lists a position twice |
| Grid.NeighborPositionsMembership | frontend/clonium-web/src/app/shared/models/board.model.ts:31-51 | the positions the lookup lists are exactly the playable orthogonal neighbours, never the cell itself |
| Grid.NeighborCountOnFullBoard | frontend/clonium-web/src/app/shared/models/board.model.ts:31-51 | on a fully playable board: 2 neighbours at a corner, 3 on another border cell, 4 inside |
| Grid.NeighborsAsWrittenFailsOnBottomRow | frontend/clonium-web/src/app/shared/models/board.model.ts:42-47 | as written, the lookup throws exactly on the bottom row of a board shorter than 12; everywhere else it agrees with the bounded lookup |
| Grid.IncrementAll | frontend/clonium-web/src/app/shared/components/board/board.component.ts:213 | incrementing each neighbour keeps the grid consistent with the mask |
| Grid.IncrementAllAt | frontend/clonium-web/src/app/shared/components/board/board.component.ts:213 | each listed position gains one point for the player; every other cell is unchanged |
| Grid.StepAt | frontend/clonium-web/src/app/shared/components/board/board.component.ts:211-214 | one explosion: the cell drops to 0 and keeps its owner; each playable neighbour gains a point and passes to the acting player; nothing else changes |
| Grid.UpdateGridAt | frontend/clonium-web/src/app/shared/components/board/board.component.ts:208-215 | a whole round, cell by cell. Any cell next to an exploding cell ends up owned by the acting player. An exploding cell ends with one point per exploding neighbour that comes after it in the scan. Any other cell gains one point per exploding neighbour |
| Grid.UpdateKeepsActingCells | frontend/clonium-web/src/app/shared/components/board/board.component.ts:208-215 | a cell the acting player owns stays theirs through a round |
| Grid.RoundKeepsActingCells | frontend/clonium-web/src/app/shared/components/board/board.component.ts:229-232 | the same for one analyse/update round |
| Grid.Trace | frontend/clonium-web/src/app/shared/components/board/board.component.ts:228-232 | the run of the loop from a grid: it starts there and lasts at most fuel rounds; each grid but the last has critical cells and is followed by the grid one round later; the last has none, or the rounds are used up |
| Grid.RunKeepsActingCells | frontend/clonium-web/src/app/shared/components/board/board.component.ts:228-232 | along a run, a cell the acting player owns at the start stays theirs at every later grid |
| Grid.Cascade | frontend/clonium-web/src/app/shared/components/board/board.component.ts:228-232 | the result is the last grid of a run of the loop's rounds from the given grid; that grid has no critical cell, or the result is an overflow that still has critical cells |
| Grid.CascadeKeepsActingCells | frontend/clonium-web/src/app/shared/components/board/board.component.ts:228-232 | a cell the acting player owns is still theirs after the whole cascade |
| Grid.ScoresPartitionOwnedCells | frontend/clonium-web/src/app/shared/components/board/board.component.ts:328-335 | the four scores add up to the number of owned cells |
| Grid.OwnedCellCounts | frontend/clonium-web/src/app/shared/components/board/board.component.ts:328-335 | a player who owns a cell has a positive score |
| BoardModel.BuildGrid | frontend/clonium-web/src/app/shared/models/board.model.ts:19 | the grid matches the mask: every cell carries its own coordinates and playability, and every cell is unowned at 0 |
| BoardModel.Board.constructor | frontend/clonium-web/src/app/shared/models/board.model.ts:15-25 | a valid board with the given shape, the grid built from the mask, player 1 to move, nobody eliminated |
| BoardModel.Board.GetCell | frontend/clonium-web/src/app/shared/models/board.model.ts:27-29 | a cell exactly when the position shifted by the centring offsets is on the board; it is the cell at that shifted position |
| BoardModel.Board.GetCellIsDirect | frontend/clonium-web/src/app/shared/models/board.model.ts:27-29 | getCell agrees with direct indexing exactly when both offsets are 0 (width and height of 11 or 12) |
| BoardModel.Board.GetCellNeighbors | frontend/clonium-web/src/app/shared/models/board.model.ts:31-51 | the current cells at the neighbour positions, position by position |
| BoardModel.Board.GetCellNeighborsSpec | frontend/clonium-web/src/app/shared/models/board.model.ts:31-51 | at most 4 cells: every playable orthogonal neighbour, each as it stands on the board, in the order west, north, east, south |
| BoardModel.Board.SetCell | frontend/clonium-web/src/app/shared/models/board.model.ts:53-55 | the cell at (x, y) is replaced and no other changes |
| BoardComponent.FirstStanding | frontend/clonium-web/src/app/shared/components/board/board.component.ts:350-362 | the lowest-numbered slot not eliminated; none exactly when all four are out |
| BoardComponent.LastStanding | frontend/clonium-web/src/app/shared/components/board/board.component.ts:349-363 | with playersNumber - 1 slots out, the slot declared the winner is the only active slot still standing |
| BoardComponent.ZeroScoreSlotsBySlot | frontend/clonium-web/src/app/shared/components/board/board.component.ts:337-348 | the four guarded checks eliminate exactly the active slots without a cell |
| BoardComponent.SkipLost | frontend/clonium-web/src/app/shared/components/board/board.component.ts:269-271 | skipping never leaves the active slots, and does nothing when the player to move is still in |
| BoardComponent.SkipLostLands | frontend/clonium-web/src/app/shared/components/board/board.component.ts:269-271 | if a standing slot lies within k turns, skipping lands on a standing slot |
| BoardComponent.SkipLostFirst | frontend/clonium-web/src/app/shared/components/board/board.component.ts:269-271 | while the game is undecided, skipping stops on the first slot in turn order that is not eliminated, every slot passed over being eliminated |
| BoardComponent.NextRoleLands | frontend/clonium-web/src/app/shared/components/board/board.component.ts:226-272 | a settled call leaves a stable grid and either a won game or a standing player to move. A skip overflow happens only when every slot is out. A cascade overflow stays ANALYSING with critical cells left. While the game is undecided, the turn goes to the first standing slot after the mover in turn order |
| BoardComponent.NextRoleEliminations | frontend/clonium-web/src/app/shared/components/board/board.component.ts:327-365 | eliminations only grow and stay within the active slots. They hold exactly the earlier ones plus the slots with score 0. With playersNumber - 1 out, the state is the win of the only slot left |
| BoardComponent.NextRoleKeepsActingCells | frontend/clonium-web/src/app/shared/components/board/board.component.ts:226-272 | the moving player keeps every cell they owned, so their own move never eliminates them |
| BoardComponent.SkipsEliminatedSlot | frontend/clonium-web/src/app/shared/components/board/board.component.ts:269-271 | three players with player 2 out: after player 1 moves it is player 3's turn |
| BoardComponent.TwoPlayerWin | frontend/clonium-web/src/app/shared/components/board/board.component.ts:349-352 | two players: once player 2 has no cell after player 1's move, player 1 has won |
| BoardComponent.StableCascade | frontend/clonium-web/src/app/shared/components/board/board.component.ts:228-232 | on a stable grid the loop does nothing |
| BoardComponent.MoveGuards | frontend/clonium-web/src/app/shared/components/board/board.component.ts:283-316 | only the player to move plays. A local move needs a cell they own. A remote move needs a player other than the local one. Nothing plays outside a turn state |
| BoardComponent.PlayMove | frontend/clonium-web/src/app/shared/components/board/board.component.ts:295 | the moved cell gains a point for the mover; every other cell is unchanged |
| BoardComponent.BoardComponent.constructor | frontend/clonium-web/src/app/shared/components/board/board.component.ts:48-56 | scores 0, board unlocked, no move in flight, no last move; the board, the online flag, the local player and the round limit as given |
| BoardComponent.BoardComponent.Analyse | frontend/clonium-web/src/app/shared/components/board/board.component.ts:191-198 | the state becomes ANALYSING. The result is the critical cells of the grid, each at its own position, in row-major order. It is empty exactly when the grid is stable |
| BoardComponent.BoardComponent.Update | frontend/clonium-web/src/app/shared/components/board/board.component.ts:208-215 | the state becomes UPDATING and the grid becomes the explosion round over the given cells |
| BoardComponent.BoardComponent.ExplodeCell | frontend/clonium-web/src/app/shared/components/board/board.component.ts:211-214 | the grid becomes one explosion step |
| BoardComponent.BoardComponent.IncrementEach | frontend/clonium-web/src/app/shared/components/board/board.component.ts:213 | each neighbour gains a point for the player |
| BoardComponent.BoardComponent.ResolveTurn | frontend/clonium-web/src/app/shared/components/board/board.component.ts:227-266 | in a turn state: the grid becomes the cascade's result, and the state becomes nextGameState unless the cascade overflowed. Outside a turn, nothing changes |
| BoardComponent.BoardComponent.RunCascade | frontend/clonium-web/src/app/shared/components/board/board.component.ts:228-232 | the loop leaves the cascade's grid, reports overflow exactly when the cascade does, and ends in ANALYSING |
| BoardComponent.BoardComponent.RepeatRounds | frontend/clonium-web/src/app/shared/components/board/board.component.ts:229-232 | the while loop follows the run of the cascade to its end: the grid becomes the run's last grid, overflow is reported exactly when that grid still has critical cells, and the state is ANALYSING |
| BoardComponent.BoardComponent.PlayRound | frontend/clonium-web/src/app/shared/components/board/board.component.ts:229-232 | the grid becomes one update round over its critical cells for the player; the result is the fresh selection of critical cells; the state is ANALYSING |
| BoardComponent.BoardComponent.NextRole | frontend/clonium-web/src/app/shared/components/board/board.component.ts:226-272 | grid, state and eliminations become NextRoleResult's; scores are recounted unless the cascade overflowed; the session is torn down once when the game is decided |
| BoardComponent.BoardComponent.ScoreAndSkip | frontend/clonium-web/src/app/shared/components/board/board.component.ts:268-271 | updateScore, then the skip; the outcome is a skip overflow exactly when the player to move is out and the game is undecided |
| BoardComponent.BoardComponent.SkipEliminated | frontend/clonium-web/src/app/shared/components/board/board.component.ts:269-271 | the state becomes SkipLost's; grid, eliminations and scores are unchanged |
| BoardComponent.BoardComponent.SkipOnce | frontend/clonium-web/src/app/shared/components/board/board.component.ts:269-271 | a re-run for an eliminated player: the grid is unchanged, the turn passes on and no one new is eliminated |
| BoardComponent.BoardComponent.UpdateScore | frontend/clonium-web/src/app/shared/components/board/board.component.ts:327-365 | the scores of the players in play are their cell counts. The slots without a cell join the eliminated ones. With playersNumber - 1 out, the standing slot wins and the session is torn down |
| BoardComponent.BoardComponent.RecordScores | frontend/clonium-web/src/app/shared/components/board/board.component.ts:328-335 | players 1 and 2 always get their cell count, player 3 only with 3 or more players, player 4 only with 4 |
| BoardComponent.BoardComponent.Eliminations | frontend/clonium-web/src/app/shared/components/board/board.component.ts:337-348 | each zero score of a slot in play adds that slot |
| BoardComponent.BoardComponent.RecordEliminations | frontend/clonium-web/src/app/shared/components/board/board.component.ts:337-348 | the eliminated slots become the old ones plus the active slots without a cell |
| BoardComponent.BoardComponent.DeclareWinner | frontend/clonium-web/src/app/shared/components/board/board.component.ts:349-363 | the state becomes the win of the first standing slot exactly when playersNumber - 1 are out, with one session teardown |
| BoardComponent.BoardComponent.Increment | frontend/clonium-web/src/app/shared/components/board/board.component.ts:283-299 | the last move is cleared. A refused move changes nothing. Online, the board locks and the move waits. Offline, the cell gains a point for its owner and nextRole runs |
| BoardComponent.BoardComponent.EmitMoveSettled | frontend/clonium-web/src/app/shared/components/board/board.component.ts:288-293 | the board unlocks either way. A delivered move plays the pending cell for its owner and runs nextRole. An undelivered one changes nothing else |
| BoardComponent.BoardComponent.IncrementFromOtherPlayer | frontend/clonium-web/src/app/shared/components/board/board.component.ts:308-316 | a refused move changes nothing. An accepted move records the cell as the last move, plays it for the mover and runs nextRole. A position off the grid changes nothing on the board |
| BoardComponent.BoardComponent.PlayAt | frontend/clonium-web/src/app/shared/components/board/board.component.ts:312 | the cell gains a point for the player |

## Definitions

The value-level definitions the methods and lemmas above are stated against. Each is a plain
definition; what it promises is proved in the members named beside it.

| definition | source | properties proved in |
|---|---|---|
| Grid.Critical | frontend/clonium-web/src/app/shared/components/board/board.component.ts:191-198 | Grid.CriticalIn, Grid.CriticalSelection, Grid.CriticalEmptyIffStable, BoardComponent.BoardComponent.Analyse |
| Grid.Step | frontend/clonium-web/src/app/shared/components/board/board.component.ts:212-213 | Grid.StepAt |
| Grid.UpdateGrid | frontend/clonium-web/src/app/shared/components/board/board.component.ts:211-214 | Grid.UpdateGridAt, Grid.UpdateKeepsActingCells, BoardComponent.BoardComponent.Update |
| Grid.Round | frontend/clonium-web/src/app/shared/components/board/board.component.ts:229-232 | Grid.RoundKeepsActingCells, BoardComponent.BoardComponent.PlayRound |
| Grid.NeighborPositions | frontend/clonium-web/src/app/shared/models/board.model.ts:31-51 | Grid.NeighborPositionsSpec, Grid.NeighborPositionsDistinct, Grid.NeighborPositionsMembership, Grid.NeighborCountOnFullBoard |
| Grid.NeighborsAsWritten | frontend/clonium-web/src/app/shared/models/board.model.ts:36-47 | Grid.NeighborsAsWrittenFailsOnBottomRow |
| Grid.Score | frontend/clonium-web/src/app/shared/components/board/board.component.ts:328-335 | Grid.ScoresPartitionOwnedCells, Grid.OwnedCellCounts, BoardComponent.BoardComponent.RecordScores |
| Grid.ZeroScoreSlots | frontend/clonium-web/src/app/shared/components/board/board.component.ts:337-348 | BoardComponent.ZeroScoreSlotsBySlot, BoardComponent.NextRoleEliminations, BoardComponent.BoardComponent.RecordEliminations |
| BoardComponent.ScoredState | frontend/clonium-web/src/app/shared/components/board/board.component.ts:349-363 | BoardComponent.LastStanding, BoardComponent.BoardComponent.DeclareWinner |
| BoardComponent.NextRoleResult | frontend/clonium-web/src/app/shared/components/board/board.component.ts:226-272 | BoardComponent.SkipLostFirst, BoardComponent.NextRoleLands, BoardComponent.NextRoleEliminations, BoardComponent.NextRoleKeepsActingCells, BoardComponent.SkipsEliminatedSlot, BoardComponent.TwoPlayerWin, BoardComponent.BoardComponent.NextRole |
| BoardComponent.LocalMoveAllowed | frontend/clonium-web/src/app/shared/components/board/board.component.ts:285 | BoardComponent.MoveGuards, BoardComponent.BoardComponent.Increment |
| BoardComponent.RemoteMoveAllowed | frontend/clonium-web/src/app/shared/components/board/board.component.ts:309-310 | BoardComponent.MoveGuards, BoardComponent.BoardComponent.IncrementFromOtherPlayer |

## Left out

- Cells: cell.model.ts is not part of this model. Its constructors and two behaviours are assumed:
  - `EmptyCell(x, y)` is a playable cell at (x, y) owned by nobody, with value 0;
  - `UnplayableCell(x, y)` is the same with the playable flag off; `BuildGrid` relies on both;
  - `increment(p)` makes `p` the owner and adds one point;
  - `explode()` resets the value to 0 and keeps the owner.
- Waiting and concurrency are not modelled:
  - the `wait(500)` in `update` and the `async`/`await` of the handlers are left out, so each handler runs to completion;
  - the un-awaited recursive `nextRole` and the `finally` that can unlock the board before `nextRole` ends are not modelled.
- Network calls:
  - `emitMove` is replaced by the `delivered` parameter of `EmitMoveSettled`;
  - `sendSerialBoard` and `serialize` are left out; they are assumed not to change the board, since their bodies are not part of this model;
  - `removeSession` is counted in the ghost field `sessionRemovals`.
- Lobby: the `ngOnInit` subscriptions, `updateConnectedPlayersNumber`, the `noPlayerX` flags and the mapping of a room move to a player are left out. This is lobby bookkeeping; `presentPlayers` is a field that no modelled method changes.
- The initial `updateScore` call in `ngOnInit` is left out.
- `copyToClipboard` has an empty body and is not modelled.
- `console.log` calls are not modelled.
- `INITIAL_BOARD` is not modelled; nothing in the core reads it.
- Grid.Cascade: the analyse/update loop is capped at the component's `roundLimit` rounds, a constant fixed when the component is constructed. Past the cap the model reports `CascadeOverflow` where the source would keep looping.
- BoardComponent.BoardComponent.Update, BoardComponent.BoardComponent.ExplodeCell and so BoardComponent.BoardComponent.NextRole use the bounded neighbour lookup. On a board of fewer than 12 rows, when a bottom-row cell explodes, the source's lookup throws a TypeError part-way through the round (see Findings). The round is then half applied, the state stays UPDATING, and the turn does not advance and scores are not updated. The model does not reproduce that: it completes the round with the corrected lookup.
- Layouts.TwoRectangulesLayout: `h1` is an unbounded integer. In the source, `initialBoard(w1, h1)` calls `Array(h1)`, which throws a RangeError for `h1 >= 2^32` or a non-integral `h1`. The as-written model returns a mask for every `h1 > 0` when `h2 <= 12` and does not model that error.
- BoardComponent.BoardComponent.SkipEliminated: the recursive re-run of `nextRole` is a loop of at most `playersNumber` re-runs. When every active slot is out, the model reports `SkipOverflow` where the source would recurse until the call stack overflows: the grid is then stable, so no re-run reaches an `await`, and the RangeError rejects the innermost `nextRole` with the turn on an eliminated slot. No board built by the model reaches this path, since the mover keeps the cell they played (`NextRoleKeepsActingCells`).
- Players.NextGameState: requires one of the four players. The source's switch has no default and returns `undefined` for anything else; no caller passes anything else.
- BoardModel.Board.SetCell: requires a cell carrying its own coordinates and playability, which every caller supplies.
- BoardModel.Board.GetCell: returns `None` both where the source throws a TypeError and where it returns `undefined`.
- BoardModel.Board.constructor: requires `1 <= width <= 12`, `1 <= height <= 12` and a mask of exactly `height` rows of `width` entries. The source checks none of these and would build a board from a 13-row mask, which the as-written `TwoRectangulesLayout` can return (see Findings): its vertical offset is then -1. The model builds boards only from masks within 12 x 12, as the corrected layouts produce, and does not model a board larger than that.
- BoardModel.Board.constructor: board.model.ts does not declare `playersNumber`, `lostPlayers` or `presentPlayers`, though board.component.ts reads and writes them. The model adds them as fields: `playersNumber` (2..4) is a constructor parameter, `lostPlayers` starts empty and `presentPlayers` starts at 0.
- BoardComponent.BoardComponent.constructor: offline games have `currentPlayer` set to `Nobody`, where the source leaves it undefined.
- BoardComponent.BoardComponent.IncrementFromOtherPlayer: stores `lastMove` as a position, not a cell reference. A move off the grid returns `OutOfGrid` where the source throws a TypeError. The board is unchanged either way, and `lastMove` is cleared only when the row exists.
- BoardComponent.BoardComponent.Increment: takes the clicked cell's position, not the cell object.
- A `Valid` board never holds the UNDEFINED state. Nothing in the source assigns it, and `MoveGuards` relies on this.

## Findings

| source | as written | input that shows it | evidently intended | confidence | as-written member | corrected member |
|---|---|---|---|---|---|---|
| frontend/clonium-web/src/app/shared/models/board.model.ts:45 | the south neighbour is bounded by MAX_HEIGHT, not by the board's height | any cell in the bottom row of a board with fewer than 12 rows: `playableCells[y + 1]` is undefined, and indexing it throws a TypeError | bound the lookup by the board itself, as for the west and north neighbours | not executed | Grid.NeighborsAsWrittenFailsOnBottomRow | Grid.NeighborPositionsSpec |
| frontend/clonium-web/src/app/shared/utils/board-layouts.ts:34 | the upper height check tests `h2 > MAX_HEIGHT` instead of `h1 > MAX_HEIGHT` | `TwoRectangulesLayout(5, 13, 1, 1)` returns a 13-row mask | reject h1 outside 1..12, as the error message says | not executed | Layouts.TwoRectanglesAcceptsTallBoard | Layouts.TwoRectangulesLayoutChecked |
