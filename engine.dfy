/** The game object: it holds one game state and changes it in place, one
    key press at a time. Each method is proved to do what the function of
    the same rule in module Rules describes. */
module Engine {
  import opened Types
  import opened Rules
  import Generator

  /** The keys the game reacts to; every other key is `OtherKey`. */
  datatype Key = KeyW | KeyS | KeyA | KeyD | KeySpace | KeyR | OtherKey

  datatype Event = KeyDown(key: Key) | OtherEvent

  /** The step of a movement key: W up, S down, A left, D right. */
  function KeyDelta(k: Key): (r: Option<(int, int)>)
    ensures r.Some? <==> k.KeyW? || k.KeyS? || k.KeyA? || k.KeyD?
    ensures r.Some? ==> r.value.0 * r.value.0 + r.value.1 * r.value.1 == 1
  {
    match k
    case KeyW => Some((0, -1))
    case KeyS => Some((0, 1))
    case KeyA => Some((-1, 0))
    case KeyD => Some((1, 0))
    case _ => None
  }

  class BoxPushingGame {
    var gameState: GameState
    /** Number of saves so far; each save stamps it into the state's `step`. */
    var stepCounter: int

    /** The initial state comes from the generator or from a saved file. */
    constructor (initial: GameState)
      ensures gameState == initial && stepCounter == 0
    {
      gameState := initial;
      stepCounter := 0;
    }

    /** Linear search for the first box at (x, y). */
    method GetBoxAtPosition(x: int, y: int) returns (r: Option<nat>)
      ensures r == FindBox(gameState.boxes, x, y)
    {
      var boxes := gameState.boxes;
      FindBoxFirst(boxes, x, y);
      for i := 0 to |boxes|
        invariant forall j :: 0 <= j < i ==> boxes[j].x != x || boxes[j].y != y
      {
        if boxes[i].x == x && boxes[i].y == y {
          return Some(i);
        }
      }
      return None;
    }

    /** Linear search for the first target at (x, y). */
    method GetTargetAtPosition(x: int, y: int) returns (r: Option<nat>)
      ensures r == FindTarget(gameState.targets, x, y)
    {
      var targets := gameState.targets;
      FindTargetFirst(targets, x, y);
      for i := 0 to |targets|
        invariant forall j :: 0 <= j < i ==> targets[j].x != x || targets[j].y != y
      {
        if targets[i].x == x && targets[i].y == y {
          return Some(i);
        }
      }
      return None;
    }

    method TryPushBox(i: nat, dx: int, dy: int) returns (ok: bool)
      requires WellFormed(gameState) && i < |gameState.boxes|
      modifies this`gameState
      ensures Step(ok, gameState) == Push(old(gameState), i, dx, dy)
    {
      var box := gameState.boxes[i];
      var newX, newY := box.x + dx, box.y + dy;
      if newX < 0 || newX >= gameState.gridWidth || newY < 0 || newY >= gameState.gridHeight {
        return false;
      }
      if gameState.grid[newY][newX] == Wall {
        return false;
      }
      var other := GetBoxAtPosition(newX, newY);
      if other.Some? {
        return false;
      }
      gameState := gameState.(boxes := gameState.boxes[i := box.(x := newX, y := newY)]);
      var targetAtPos := GetTargetAtPosition(newX, newY);
      gameState := gameState.(boxes := gameState.boxes[i := gameState.boxes[i].(onTarget := targetAtPos.Some?)]);
      return true;
    }

    method TryMovePlayer(dx: int, dy: int) returns (moved: bool)
      requires WellFormed(gameState)
      modifies this`gameState
      ensures Step(moved, gameState) == Move(old(gameState), dx, dy)
    {
      var newX, newY := gameState.player.x + dx, gameState.player.y + dy;
      if newX < 0 || newX >= gameState.gridWidth || newY < 0 || newY >= gameState.gridHeight {
        return false;
      }
      if gameState.grid[newY][newX] == Wall {
        return false;
      }
      var boxAtTarget := GetBoxAtPosition(newX, newY);
      if boxAtTarget.Some? {
        var pushed := TryPushBox(boxAtTarget.value, dx, dy);
        if !pushed {
          return false;
        }
      }
      var score := gameState.score;
      gameState := gameState.(
        player := gameState.player.(x := newX, y := newY),
        score := score.(moves := score.moves + 1,
                        pushes := if boxAtTarget.Some? then score.pushes + 1 else score.pushes));
      return true;
    }

    /** The boxes next to (x, y) in the directions `dirs`, in that order. */
    method AdjacentBoxesOf(x: int, y: int, dirs: seq<(int, int)>) returns (adjacent: seq<Box>)
      ensures adjacent == AdjacentBoxes(gameState.boxes, x, y, dirs)
    {
      adjacent := [];
      ghost var boxes := gameState.boxes;
      for k := 0 to |dirs|
        invariant adjacent == AdjacentBoxes(boxes, x, y, dirs[..k])
      {
        var d := dirs[k];
        AdjacentBoxesPrefix(boxes, x, y, dirs, k);
        var box := GetBoxAtPosition(x + d.0, y + d.1);
        if box.Some? {
          adjacent := adjacent + [gameState.boxes[box.value]];
        }
      }
      assert dirs[..|dirs|] == dirs;
    }

    method HandleSelection()
      modifies this`gameState
      ensures gameState == Selection(old(gameState))
    {
      var player := gameState.player;
      var adjacentBoxes := AdjacentBoxesOf(player.x, player.y, ScanOrder);
      if adjacentBoxes != [] {
        if player.selectedBox.None? {
          gameState := gameState.(player := player.(selectedBox := Some(adjacentBoxes[0].id)));
        } else {
          gameState := gameState.(player := player.(selectedBox := None));
        }
      }
    }

    method UpdateGameLogic()
      modifies this`gameState
      ensures gameState == Update(old(gameState))
    {
      ghost var marked := MarkCompleted(old(gameState.targets), gameState.boxes);
      var completedTargets := 0;
      for i := 0 to |gameState.targets|
        invariant gameState == old(gameState).(targets := gameState.targets)
        invariant |gameState.targets| == |marked|
        invariant forall t :: 0 <= t < i ==> gameState.targets[t] == marked[t]
        invariant forall t :: i <= t < |marked| ==> gameState.targets[t] == old(gameState.targets)[t]
        invariant completedTargets == CountCompleted(gameState.targets[..i])
      {
        var target := gameState.targets[i];
        var boxOnTarget := GetBoxAtPosition(target.x, target.y);
        ghost var before := gameState.targets;
        gameState := gameState.(targets := gameState.targets[i := target.(completed := boxOnTarget.Some?)]);
        assert gameState.targets[..i + 1] == before[..i] + [gameState.targets[i]];
        if boxOnTarget.Some? {
          completedTargets := completedTargets + 1;
        }
      }
      assert gameState.targets == marked;
      assert gameState.targets[..|gameState.targets|] == gameState.targets;
      var score := gameState.score;
      gameState := gameState.(score := score.(points := completedTargets * 100 + Max(0, score.timeBonus - score.moves)));
      if completedTargets == |gameState.targets| {
        gameState := gameState.(score := gameState.score.(levelComplete := true), gameStatus := Won);
        var moves, boxCount := gameState.score.moves, |gameState.boxes|;
        if moves <= boxCount * 2 {
          gameState := gameState.(rewards := gameState.rewards.(moveEfficiencyBonus := 500));
        }
        // moves <= 1.5 * boxCount, in integers
        if 2 * moves <= 3 * boxCount {
          gameState := gameState.(rewards := gameState.rewards.(perfectSolution := true),
                                  score := gameState.score.(points := gameState.score.points + 1000));
        }
      }
    }

    /** The bookkeeping of a save: count it and stamp the count into the
        state. Writing the file is not modelled. */
    method SaveGameState()
      modifies this
      ensures stepCounter == old(stepCounter) + 1
      ensures gameState == old(gameState).(step := stepCounter)
    {
      stepCounter := stepCounter + 1;
      gameState := gameState.(step := stepCounter);
    }

    /** One key press. A movement key moves or pushes; space toggles the
        selection; R replaces the level by a new one generated from `draws`.
        Only an accepted action is followed by the recomputation and a save. */
    method HandleInput(event: Event, draws: seq<int>)
      requires WellFormed(gameState)
      modifies this
      ensures WellFormed(gameState)
      ensures old(Settled(gameState)) ==> Settled(gameState)
      ensures event.OtherEvent? || event.key == OtherKey ==>
        gameState == old(gameState) && stepCounter == old(stepCounter)
      ensures event.KeyDown? && KeyDelta(event.key).Some? ==>
        var d := KeyDelta(event.key).value;
        var m := Move(old(gameState), d.0, d.1);
        if m.ok then gameState == Update(m.next).(step := old(stepCounter) + 1) && stepCounter == old(stepCounter) + 1
        else gameState == old(gameState) && stepCounter == old(stepCounter)
      ensures event == KeyDown(KeySpace) ==>
        gameState == Update(Selection(old(gameState))).(step := old(stepCounter) + 1) && stepCounter == old(stepCounter) + 1
      ensures event == KeyDown(KeyR) && gameState != old(gameState) ==> gameState.gameStatus == Playing
      ensures event == KeyDown(KeyR) ==>
        match Generator.GeneratedLevel(draws)
        case Some(level) =>
          && Generator.FreshLevel(level)
          && gameState == Update(level).(step := old(stepCounter) + 1) && stepCounter == old(stepCounter) + 1
        case None => gameState == old(gameState) && stepCounter == old(stepCounter)
      ensures old(gameState).gameStatus == Won && event != KeyDown(KeyR) ==> gameState.gameStatus == Won
    {
      if event.OtherEvent? {
        return;
      }
      var moved := false;
      match event.key {
        case KeyW => moved := MoveAndKeep(0, -1);
        case KeyS => moved := MoveAndKeep(0, 1);
        case KeyA => moved := MoveAndKeep(-1, 0);
        case KeyD => moved := MoveAndKeep(1, 0);
        case KeySpace =>
          SelectionPreservesSettled(gameState);
          SelectionToggles(gameState);
          HandleSelection();
          moved := true;
        case KeyR => moved := Regenerate(draws);
        case OtherKey =>
      }
      if moved {
        UpdateAndSave();
      }
    }

    /** R: replace the level by the one generated from `draws`, if the
        draws suffice to generate one. */
    method Regenerate(draws: seq<int>) returns (replaced: bool)
      modifies this`gameState
      ensures replaced <==> Generator.GeneratedLevel(draws).Some?
      ensures replaced ==> gameState == Generator.GeneratedLevel(draws).value && Generator.FreshLevel(gameState)
      ensures replaced ==> WellFormed(gameState) && Settled(gameState) && Update(gameState).gameStatus == Playing
      ensures !replaced ==> gameState == old(gameState)
    {
      var level := Generator.GenerateBoxPushingState(draws);
      replaced := level.Some?;
      if replaced {
        Generator.FreshLevelSettled(level.value);
        gameState := level.value;
      }
    }

    /** The recomputation and save that follow an accepted action. */
    method UpdateAndSave()
      requires WellFormed(gameState)
      modifies this
      ensures WellFormed(gameState)
      ensures old(PlayInvariant(gameState)) ==> Settled(gameState)
      ensures gameState == Update(old(gameState)).(step := old(stepCounter) + 1)
      ensures stepCounter == old(stepCounter) + 1
      ensures old(gameState).gameStatus == Won ==> gameState.gameStatus == Won
    {
      if PlayInvariant(gameState) {
        UpdateSettles(gameState);
      }
      UpdateGameLogic();
      SaveGameState();
    }

    /** `TryMovePlayer`, with the invariant carried across. */
    method MoveAndKeep(dx: int, dy: int) returns (moved: bool)
      requires WellFormed(gameState)
      modifies this`gameState
      ensures Step(moved, gameState) == Move(old(gameState), dx, dy)
      ensures WellFormed(gameState)
      ensures old(PlayInvariant(gameState)) ==> PlayInvariant(gameState)
    {
      if PlayInvariant(gameState) {
        MovePreservesPlayInvariant(gameState, dx, dy);
      }
      moved := TryMovePlayer(dx, dy);
    }
  }
}
