# Box-pushing puzzle: engine and level generator

This project models two pieces of a turn-based box-pushing (Sokoban-style)
puzzle game:

- **The puzzle engine.** This is the non-drawing part of class
  `BoxPushingGame`. It holds one mutable game state: a grid of cell kinds, the
  player, the boxes and targets, a score record, a rewards record and a
  status.
  - A movement key (W, S, A, D) moves the player one cell, or pushes the box
    standing there.
  - Space toggles a selected box next to the player.
  - R replaces the level with a freshly generated one.
  - After every accepted action the engine recomputes which targets are
    covered, the points, the win state and the rewards, then saves the state.
- **The level generator.** It builds a 12 by 10 grid and stamps a wall border.
  It scatters interior walls, then places the player, three to six targets and
  as many boxes by rejection sampling, and it starts the score at zero.

The model has five modules.

- `Types` (types.dfy) holds the state as datatypes and the two look-ups.
  `FindBox` and `FindTarget` each return the first box or target at a cell.
- `Rules` (rules.dfy) states each engine rule as a function on the state:
  - `Push`, `Move`, `Selection` and `Update`;
  - the invariants a game keeps (`PlayInvariant`, `Settled`);
  - the lemmas about these functions.
- `Engine` (engine.dfy) is class `BoxPushingGame`. Its `gameState` field is
  updated in place by methods with the source's own loops and branches.
  - `TryPushBox`, `TryMovePlayer`, `HandleSelection`, `UpdateGameLogic` and
    `AdjacentBoxesOf` are proved equal to `Rules.Push`, `Rules.Move`,
    `Rules.Selection`, `Rules.Update` and `Rules.AdjacentBoxes`.
  - `GetBoxAtPosition` and `GetTargetAtPosition` are proved equal to
    `Types.FindBox` and `Types.FindTarget`.
  - `SaveGameState` and the constructor set the step counter; they have no
    `Rules` counterpart.
  - `HandleInput`, `Regenerate` and `UpdateAndSave` state each outcome through
    several of these functions and through `Generator.GeneratedLevel`.
- `Generator` (generator.dfy) is the level generator.
  - The functions `Scatter`, `FirstFree`, `PlaceMany` and `GeneratedLevel`
    say which level the draws produce, or that they run out.
  - `BorderedGrid` builds the bordered grid with the source's loops and is
    proved equal to `BorderGrid`.
  - `ScatterWalls` writes the wall attempts into the grid and is proved equal
    to `Scatter`.
  - `PlacePlayer` and `DrawCell` are the rejection-sampling loops for one
    cell. They do not write the grid, and each is proved equal to `FirstFree`.
  - `PlaceTargets` and `PlaceBoxes` call `DrawCell` repeatedly and mark each
    accepted cell in the grid. Each is proved equal to `PlaceMany`.
  - `GenerateBoxPushingState` chains the stages and is proved equal to
    `GeneratedLevel`.
  - Lemmas about the functions state when generation fails and the shape of
    the level it produces.
- `Scenarios` (scenarios.dfy) states the outcome of the rules on three
  concrete corridors.

Randomness is a finite sequence of integer draws, `draws`. Each `randint(lo,
hi)` consumes one draw `d` and yields `lo + d % (hi - lo + 1)`. If a
rejection loop runs out of draws, the generator returns `None`; the original
keeps drawing.

## Model

| member | source | states |
|---|---|---|
| Types.FindBox | game.py:217-222 | A box index it returns is in range, and that box stands at (x, y). |
| Types.FindTarget | game.py:224-229 | A target index it returns is in range, and that target lies at (x, y). |
| Types.FindBoxFirst | game.py:217-222 | The look-up finds nothing exactly when no box stands at the cell. Otherwise it finds the first box at the cell in list order. |
| Types.FindTargetFirst | game.py:224-229 | The same for targets: nothing exactly when no target lies at the cell, otherwise the first one in list order. |
| Engine.BoxPushingGame.GetBoxAtPosition | game.py:217-222 | The linear search returns exactly the first box at (x, y), or none. |
| Engine.BoxPushingGame.GetTargetAtPosition | game.py:224-229 | The linear search returns exactly the first target at (x, y), or none. |
| Rules.Push | game.py:164-193 | A push is accepted iff the box's destination is inside the grid, not a wall and free of boxes. A rejected push changes nothing. An accepted one moves only box `i`, by (dx, dy), keeps its id, and sets `onTarget` iff a target lies at the new cell. |
| Engine.BoxPushingGame.TryPushBox | game.py:164-193 | The in-place push returns the acceptance and leaves the state that `Rules.Push` describes. |
| Rules.Move | game.py:126-162 | A destination out of bounds or on a wall is refused with nothing changed. A free open destination moves the player by (dx, dy) and counts one move, leaving pushes alone. An occupied one is accepted iff the push of the first box there is. Then the player takes the box's old cell, and moves and pushes each grow by one. A refused move changes nothing. |
| Engine.BoxPushingGame.TryMovePlayer | game.py:126-162 | The in-place move returns the acceptance and leaves the state that `Rules.Move` describes. |
| Rules.MovePreservesPlayInvariant | game.py:141-183 | Any move or push keeps the following: the player and every box on open cells, no two boxes on one cell, the player on no box, each box's `onTarget` flag agreeing with the targets, `0 <= pushes <= moves`, and `levelComplete` iff won. |
| Rules.PushUndo | game.py:164-193 | Pushing a box back the way it came restores the state before the push exactly, including its `onTarget` flag. |
| Rules.AdjacentBoxes | game.py:199-208 | The scan collects at most one box per direction, and every box it collects is one of the game's boxes. Its order and emptiness are pinned by `AdjacentEmptyIff` and `AdjacentFirst`. |
| Rules.AdjacentEmptyIff | game.py:199-208 | The scan finds no box iff no box stands in any of the scanned directions. |
| Rules.AdjacentFirst | game.py:199-213 | The first box the scan collects is the one in the first scanned direction that has a box. |
| Engine.BoxPushingGame.AdjacentBoxesOf | game.py:199-208 | The loop over directions collects the box found in each direction, in scan order. |
| Rules.Selection | game.py:195-215 | Selection changes nothing but the player's `selectedBox`. When a box was selected, it either clears the selection or changes nothing. |
| Engine.BoxPushingGame.HandleSelection | game.py:195-215 | The in-place toggle leaves the state that `Rules.Selection` describes. |
| Rules.SelectionToggles | game.py:195-215 | Selection changes only `selectedBox`. With no box next to the player nothing changes. With one there and a box selected, the selection is cleared. |
| Rules.SelectionPicksFirstInScanOrder | game.py:200-213 | With nothing selected, the box selected is the one in the first of up, down, left, right that has a box. |
| Rules.SelectionTwice | game.py:210-215 | Pressing space twice with nothing selected returns to the same state. |
| Rules.SelectionPreservesSettled | game.py:195-215 | Selection keeps the play invariant and the target flags. |
| Rules.MarkCompleted | game.py:235-237 | The targets keep their number, and each target keeps its position; only its `completed` flag is recomputed. `MarkCompletedCovered` states the flag's value. |
| Rules.MarkCompletedCovered | game.py:235-237 | Each target's `completed` flag is set iff some box stands on it. |
| Rules.CountCompleted | game.py:234-239 | The number of completed targets is at most the number of targets. `CountCompletedAll` states when it equals it. |
| Rules.CountCompletedAll | game.py:238-246 | The completed count equals the number of targets iff every target is completed. |
| Rules.Update | game.py:231-256 | The update changes only the targets' `completed` flags, the points, `levelComplete`, the rewards and the status. The target list keeps its length and each target keeps its position. Moves, pushes, the time bonus and the speed bonus are untouched. |
| Engine.BoxPushingGame.UpdateGameLogic | game.py:231-256 | The loop over targets, the score and the win check together leave the state that `Rules.Update` describes. |
| Rules.UpdateStatus | game.py:233-248 | After the update the flags agree with the boxes. The status is won iff it already was or every target is covered. When every target is covered the level is flagged complete. When some target is not covered, status, rewards and the completion flag are untouched. |
| Rules.UpdateScore | game.py:241-256 | Points are 100 per covered target plus `max(0, timeBonus - moves)`, plus 1000 when every target is covered within 1.5 moves per box. Covering every target within 2 moves per box earns the 500 efficiency bonus. A bonus or flag that is not earned keeps its old value. Points are never negative. |
| Rules.UpdateKeepsWon | game.py:245-248 | The update never turns a won game back to playing. |
| Rules.UpdateIdempotent | game.py:231-256 | Recomputing twice gives the same state as recomputing once. |
| Rules.UpdateSettles | game.py:231-256 | From a state keeping the play invariant, the update yields a settled one: the play invariant plus the target flags agreeing with the boxes. |
| Engine.BoxPushingGame.SaveGameState | game.py:84-90 | The save counter grows by one and is stamped into the state's `step`. Nothing else changes. |
| Engine.KeyDelta | game.py:107-114 | Exactly W, S, A and D give a step, and every step is one cell along one axis. |
| Engine.BoxPushingGame.HandleInput | game.py:99-124 | Events other than key presses, and keys other than W, S, A, D, space and R, change nothing. W, S, A and D move by (0,-1), (0,1), (-1,0) and (1,0). An accepted move, and every space press, is followed by the update and a save; a refused move leaves the state and counter unchanged. R installs the update of `GeneratedLevel(draws)`, a fresh level, saved with the next count and still playing. When the draws give no level, R changes nothing. Only R can end a won game. A settled state stays settled. |
| Engine.BoxPushingGame.MoveAndKeep | game.py:107-114 | A movement key performs `Rules.Move` and keeps the play invariant. |
| Engine.BoxPushingGame.Regenerate | game.py:118-120 | R replaces the state exactly when the draws generate a level, and then by `GeneratedLevel(draws)`. That level is settled and still playing after the update. Otherwise nothing changes. |
| Engine.BoxPushingGame.UpdateAndSave | game.py:122-124 | After an accepted action the state becomes `Rules.Update` of it, stamped with the next save count, and is settled. A won game stays won. |
| Engine.BoxPushingGame.constructor | game.py:49-59 | The game starts from the given state with the save counter at zero. |
| Generator.RandInt | game_state_generator.py:25-27 | A draw reduced into [lo, hi] lies in [lo, hi]. |
| Generator.BorderGrid | game_state_generator.py:10-22 | The grid is 10 rows of 12 cells. Every border cell is a wall and every other cell is empty. |
| Generator.BorderedGrid | game_state_generator.py:10-22 | The nested loops build exactly `BorderGrid()`. |
| Generator.Scatter | game_state_generator.py:24-30 | A successful run of the wall attempts leaves a 12 by 10 grid and consumes exactly two draws per attempt. `ScatterFails` and `ScatterLayout` state when it fails and where the walls fall. |
| Generator.ScatterFails | game_state_generator.py:24-30 | The wall attempts run out of draws exactly when fewer than two draws remain per attempt. |
| Generator.ScatterWalls | game_state_generator.py:24-30 | The loop succeeds exactly when there is a draw for the count and `Scatter` succeeds on the rest, and then it gives `Scatter`'s grid and leftover draws. Interior walls fall only on empty cells with x in [2, 9] and y in [2, 7]. The border stays walled. At most the drawn count of walls, between 8 and 15, are added. |
| Generator.FirstFree | game_state_generator.py:33-37 | A cell it returns is interior, empty in the grid and not taken, and at least one pair of draws is consumed. `FirstFreeFails` states when it fails. |
| Generator.FirstFreeFails | game_state_generator.py:33-37 | Sampling one cell gives nothing exactly when no pair of draws names an empty, untaken interior cell. |
| Generator.PlacePlayer | game_state_generator.py:32-37 | The loop gives exactly what `FirstFree` gives with nothing taken: the first drawn empty cell with x in [1, 10] and y in [1, 8], and the draws after it. |
| Generator.DrawCell | game_state_generator.py:45-52 | One rejection-sampling loop gives exactly what `FirstFree` gives: the first drawn cell that is empty and not taken, with the draws after it. |
| Generator.PlaceMany | game_state_generator.py:44-75 | A successful run places exactly `n` cells and consumes at least two draws per cell. `PlaceManyFacts` states that the cells are distinct, fitting and interior, and how the taken set grows. |
| Generator.PlaceManyFacts | game_state_generator.py:44-75 | A placement run gives interior cells that were empty and untaken, all different. The taken cells grow by exactly those cells. |
| Generator.TargetStage | game_state_generator.py:39-52 | The targets a run places are the drawn count of distinct, empty interior cells off the player. Each is marked on the grid and not completed, and the walls are unchanged. |
| Generator.PlaceTargets | game_state_generator.py:39-52 | The loop succeeds exactly when there is a draw for the count and `PlaceMany` succeeds after the player. Then it gives `PlaceMany`'s targets, grid and leftover draws, with 3 to 6 targets placed as `TargetStage` states. |
| Generator.BoxStage | game_state_generator.py:54-75 | The boxes a run places, one per target, lie on distinct empty interior cells off the player and off every target. They have ids 0, 1, ... in order, are marked on the grid and are not on target. Walls and targets are unchanged. |
| Generator.PlaceBoxes | game_state_generator.py:54-75 | The loop succeeds exactly when `PlaceMany` succeeds avoiding the player and the targets. Then it gives `PlaceMany`'s boxes, grid and leftover draws, with the boxes placed as `BoxStage` states. |
| Generator.GeneratedLevel | game_state_generator.py:1-105 | The level the draws produce has 3 to 6 targets, as many boxes, no selection and a playing status, and it needs at least one draw. Its full shape (`FreshLevel`) is proved through `GenerateBoxPushingState`, which returns exactly this value. |
| Generator.GenerateBoxPushingState | game_state_generator.py:1-105 | The method returns exactly `GeneratedLevel(draws)`. A generated level is 12 by 10 with a walled border and at most the drawn number of interior walls. The player is on an empty interior cell, with 3 to 6 targets and as many boxes placed as above. The score is zeroed with time bonus 1000 and the rewards are zero. There is no selection, and the state is level 1, turn 0, step 0, playing. |
| Generator.FreshLevelSettled | game_state_generator.py:77-105 | A generated level satisfies the engine's settled invariant, and the first update leaves it playing. |
| Scenarios.WalkIntoWall | game.py:133-142 | Walking right from (1, 1) into a wall at (2, 1) is refused with nothing changed. |
| Scenarios.PushIntoWall | game.py:147-156 | Pushing a box at (2, 1) into a wall at (3, 1) is refused: neither the player nor the box moves. |
| Scenarios.PushOntoTargetWins | game.py:145-256 | Pushing the only box onto the only target wins in one move, with points 2099, the efficiency bonus and the perfect-solution flag. |

## Left out

- Rendering, the clock, animations and the event loop (`draw_*`, `run`) are not modelled. They are pygame screen work and frame-time floating point.
- Loading a saved state from a JSON file is left out because it is file I/O. `Engine.BoxPushingGame.constructor` takes the initial state as a parameter instead.
- The file written by a save, and `json.dumps` in the generator, are left out because they are file I/O and serialisation. Only the save counter and the `step` stamp are modelled.
- The `random` module is replaced by a finite sequence of draws. Because of this, the generator fails with `None` when the draws run out, where the original keeps drawing; on an unlucky grid the original may never terminate. `Engine.BoxPushingGame.Regenerate` leaves the state unchanged in that case.
- Generator.ScatterWalls: the wall count counts attempts, as in the code, so a level can have fewer interior walls than the drawn count. The contract bounds the count from above only.
- In the box and target loops, the conditions "not the player's cell, not a target, not a box" are one test against the union of those cells. The result is the same.
- Cells are kinds (`Empty`, `Wall`, `TargetMark`, `BoxMark`) rather than strings. The engine reads only whether a cell is `Wall`, as the code does; box and target marks are never moved.
- Python dictionaries become datatypes. A box is identified by its index in the list, which is the object `get_box_at_position` returns (the first match).
