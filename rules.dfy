/** The rules of the puzzle engine as functions on a `GameState`: a push, a
    move, the selection toggle and the recomputation of completion, score
    and status. The `BoxPushingGame` class in module Engine performs each of
    them in place and is proved to agree with these functions. */
module Rules {
  import opened Types

  /** The grid has `gridHeight` rows of `gridWidth` cells each. */
  predicate WellFormed(s: GameState)
  {
    |s.grid| == s.gridHeight && forall y :: 0 <= y < |s.grid| ==> |s.grid[y]| == s.gridWidth
  }

  predicate InBounds(s: GameState, x: int, y: int)
  {
    0 <= x < s.gridWidth && 0 <= y < s.gridHeight
  }

  /** (x, y) is inside the grid and not a wall. */
  predicate Open(s: GameState, x: int, y: int)
    requires WellFormed(s)
  {
    InBounds(s, x, y) && s.grid[y][x] != Wall
  }

  predicate BoxesDistinct(boxes: seq<Box>)
  {
    forall i, j :: 0 <= i < j < |boxes| ==> boxes[i].x != boxes[j].x || boxes[i].y != boxes[j].y
  }

  predicate OnTargetAgrees(s: GameState)
  {
    forall i :: 0 <= i < |s.boxes| ==> (s.boxes[i].onTarget <==> HasTarget(s.targets, s.boxes[i].x, s.boxes[i].y))
  }

  predicate CompletedAgrees(s: GameState)
  {
    forall t :: 0 <= t < |s.targets| ==> (s.targets[t].completed <==> Occupied(s.boxes, s.targets[t].x, s.targets[t].y))
  }

  /** What every accepted action keeps: the player and every box stand on
      open cells, no two boxes share a cell, the player shares none with a
      box, each box's flag says whether it is on a target, the counters are
      consistent and the completion flag matches the status. */
  predicate PlayInvariant(s: GameState)
  {
    && WellFormed(s)
    && Open(s, s.player.x, s.player.y)
    && !Occupied(s.boxes, s.player.x, s.player.y)
    && (forall i :: 0 <= i < |s.boxes| ==> Open(s, s.boxes[i].x, s.boxes[i].y))
    && BoxesDistinct(s.boxes)
    && OnTargetAgrees(s)
    && 0 <= s.score.pushes <= s.score.moves
    && (s.score.levelComplete <==> s.gameStatus == Won)
  }

  /** The state between turns: besides the play invariant, each target's
      flag says whether a box covers it. */
  predicate Settled(s: GameState)
  {
    PlayInvariant(s) && CompletedAgrees(s)
  }

  /** Outcome of a move or push: whether it was accepted, and the new state. */
  datatype Step = Step(ok: bool, next: GameState)

  /** Push box `i` by (dx, dy). */
  function Push(s: GameState, i: nat, dx: int, dy: int): (r: Step)
    requires WellFormed(s) && i < |s.boxes|
    ensures var nx, ny := s.boxes[i].x + dx, s.boxes[i].y + dy;
      r.ok <==> Open(s, nx, ny) && !Occupied(s.boxes, nx, ny)
    ensures !r.ok ==> r.next == s
    ensures r.ok ==>
      var nx, ny := s.boxes[i].x + dx, s.boxes[i].y + dy;
      && |r.next.boxes| == |s.boxes|
      && r.next.boxes[i] == Box(nx, ny, s.boxes[i].id, HasTarget(s.targets, nx, ny))
      && (forall j :: 0 <= j < |s.boxes| && j != i ==> r.next.boxes[j] == s.boxes[j])
      && r.next == s.(boxes := r.next.boxes)
  {
    var box := s.boxes[i];
    var nx, ny := box.x + dx, box.y + dy;
    FindBoxFirst(s.boxes, nx, ny);
    FindTargetFirst(s.targets, nx, ny);
    if !InBounds(s, nx, ny) then Step(false, s)
    else if s.grid[ny][nx] == Wall then Step(false, s)
    else if FindBox(s.boxes, nx, ny).Some? then Step(false, s)
    else
      var onTarget := FindTarget(s.targets, nx, ny).Some?;
      Step(true, s.(boxes := s.boxes[i := box.(x := nx, y := ny, onTarget := onTarget)]))
  }

  /** Move the player by (dx, dy), pushing the first box found on the
      destination cell if there is one. */
  function Move(s: GameState, dx: int, dy: int): (r: Step)
    requires WellFormed(s)
    ensures var nx, ny := s.player.x + dx, s.player.y + dy;
      !Open(s, nx, ny) ==> r == Step(false, s)
    ensures !r.ok ==> r.next == s
    ensures var nx, ny := s.player.x + dx, s.player.y + dy;
      Open(s, nx, ny) && !Occupied(s.boxes, nx, ny) ==>
        r == Step(true, s.(player := s.player.(x := nx, y := ny), score := s.score.(moves := s.score.moves + 1)))
    ensures var nx, ny := s.player.x + dx, s.player.y + dy;
      Open(s, nx, ny) && FindBox(s.boxes, nx, ny).Some? ==>
        var pushed := Push(s, FindBox(s.boxes, nx, ny).value, dx, dy);
        && (r.ok <==> pushed.ok)
        && (r.ok ==> r.next == pushed.next.(player := s.player.(x := nx, y := ny),
                                            score := s.score.(moves := s.score.moves + 1, pushes := s.score.pushes + 1)))
  {
    var nx, ny := s.player.x + dx, s.player.y + dy;
    FindBoxFirst(s.boxes, nx, ny);
    if !InBounds(s, nx, ny) then Step(false, s)
    else if s.grid[ny][nx] == Wall then Step(false, s)
    else
      match FindBox(s.boxes, nx, ny)
      case Some(i) =>
        var pushed := Push(s, i, dx, dy);
        if pushed.ok then
          var t := pushed.next;
          Step(true, t.(player := t.player.(x := nx, y := ny),
                        score := t.score.(moves := t.score.moves + 1, pushes := t.score.pushes + 1)))
        else Step(false, s)
      case None =>
        Step(true, s.(player := s.player.(x := nx, y := ny), score := s.score.(moves := s.score.moves + 1)))
  }

  /** Replacing box `i` by a box on a free cell keeps the boxes distinct. */
  lemma PushedBoxesDistinct(boxes: seq<Box>, i: nat, b: Box)
    requires i < |boxes| && BoxesDistinct(boxes) && !Occupied(boxes, b.x, b.y)
    ensures BoxesDistinct(boxes[i := b])
  {
    var t := boxes[i := b];
    forall a, c | 0 <= a < c < |t|
      ensures t[a].x != t[c].x || t[a].y != t[c].y
    {
      if a == i {
        assert t[c] == boxes[c];
      } else if c == i {
        assert t[a] == boxes[a];
      }
    }
  }

  /** Once box `i` has left its cell, no box stands there. */
  lemma PushVacates(boxes: seq<Box>, i: nat, b: Box)
    requires i < |boxes| && BoxesDistinct(boxes)
    requires b.x != boxes[i].x || b.y != boxes[i].y
    ensures !Occupied(boxes[i := b], boxes[i].x, boxes[i].y)
  {
    var t := boxes[i := b];
    forall j | 0 <= j < |t|
      ensures t[j].x != boxes[i].x || t[j].y != boxes[i].y
    {
      if j < i {
        assert boxes[j].x != boxes[i].x || boxes[j].y != boxes[i].y;
      } else if i < j {
        assert boxes[i].x != boxes[j].x || boxes[i].y != boxes[j].y;
      }
    }
  }

  /** The state after an accepted push keeps the play invariant: box `i`
      moved to the free open cell of `b` and the player into its old cell. */
  lemma PushedStateInvariant(s: GameState, i: nat, b: Box)
    requires PlayInvariant(s) && i < |s.boxes|
    requires Open(s, b.x, b.y) && !Occupied(s.boxes, b.x, b.y)
    requires b.onTarget == HasTarget(s.targets, b.x, b.y)
    ensures var vacated := s.boxes[i];
      PlayInvariant(s.(boxes := s.boxes[i := b],
                       player := s.player.(x := vacated.x, y := vacated.y),
                       score := s.score.(moves := s.score.moves + 1, pushes := s.score.pushes + 1)))
  {
    var nb := s.boxes[i := b];
    var t := s.(boxes := nb, player := s.player.(x := s.boxes[i].x, y := s.boxes[i].y),
                score := s.score.(moves := s.score.moves + 1, pushes := s.score.pushes + 1));
    assert b.x != s.boxes[i].x || b.y != s.boxes[i].y;
    PushedBoxesDistinct(s.boxes, i, b);
    PushVacates(s.boxes, i, b);
    assert forall j :: 0 <= j < |nb| ==> Open(t, nb[j].x, nb[j].y) by {
      forall j | 0 <= j < |nb| ensures Open(t, nb[j].x, nb[j].y) {
        if j != i { assert nb[j] == s.boxes[j]; }
      }
    }
    assert OnTargetAgrees(t) by {
      forall j | 0 <= j < |nb| ensures nb[j].onTarget <==> HasTarget(t.targets, nb[j].x, nb[j].y) {
        if j != i { assert nb[j] == s.boxes[j]; }
      }
    }
  }

  /** Pushing a box back the way it came undoes the push: its old cell is
      open and free again, and its flag is recomputed to what it was. */
  lemma PushUndo(s: GameState, i: nat, dx: int, dy: int)
    requires PlayInvariant(s) && i < |s.boxes| && Push(s, i, dx, dy).ok
    ensures WellFormed(Push(s, i, dx, dy).next)
    ensures Push(Push(s, i, dx, dy).next, i, -dx, -dy) == Step(true, s)
  {
    var t := Push(s, i, dx, dy).next;
    var b := t.boxes[i];
    assert t.boxes == s.boxes[i := b];
    PushVacates(s.boxes, i, b);
    assert t.boxes[i := s.boxes[i]] == s.boxes;
  }

  /** A step onto a free open cell keeps the play invariant. */
  lemma WalkInvariant(s: GameState, nx: int, ny: int)
    requires PlayInvariant(s) && Open(s, nx, ny) && !Occupied(s.boxes, nx, ny)
    ensures PlayInvariant(s.(player := s.player.(x := nx, y := ny), score := s.score.(moves := s.score.moves + 1)))
  {
  }

  /** An accepted or rejected move keeps the play invariant. */
  lemma MovePreservesPlayInvariant(s: GameState, dx: int, dy: int)
    requires PlayInvariant(s)
    ensures PlayInvariant(Move(s, dx, dy).next)
  {
    var nx, ny := s.player.x + dx, s.player.y + dy;
    FindBoxFirst(s.boxes, nx, ny);
    if !Open(s, nx, ny) {
    } else if FindBox(s.boxes, nx, ny).None? {
      WalkInvariant(s, nx, ny);
    } else {
      var i := FindBox(s.boxes, nx, ny).value;
      var pushed := Push(s, i, dx, dy);
      if pushed.ok {
        var b := pushed.next.boxes[i];
        assert pushed.next == s.(boxes := s.boxes[i := b]);
        PushedStateInvariant(s, i, b);
      }
    }
  }

  /** The four neighbours of a cell in the order the selection scans them:
      up, down, left, right. */
  const ScanOrder: seq<(int, int)> := [(0, -1), (0, 1), (-1, 0), (1, 0)]

  /** The boxes found next to (x, y) in the directions `dirs`, in that order. */
  function AdjacentBoxes(boxes: seq<Box>, x: int, y: int, dirs: seq<(int, int)>): (r: seq<Box>)
    ensures |r| <= |dirs|
    ensures forall b :: b in r ==> b in boxes
  {
    if dirs == [] then []
    else
      var rest := AdjacentBoxes(boxes, x, y, dirs[..|dirs| - 1]);
      var d := dirs[|dirs| - 1];
      match FindBox(boxes, x + d.0, y + d.1)
      case Some(i) => rest + [boxes[i]]
      case None => rest
  }

  /** Scanning one more direction appends the box found there, if any. */
  lemma AdjacentBoxesPrefix(boxes: seq<Box>, x: int, y: int, dirs: seq<(int, int)>, k: nat)
    requires k < |dirs|
    ensures AdjacentBoxes(boxes, x, y, dirs[..k + 1]) ==
      match FindBox(boxes, x + dirs[k].0, y + dirs[k].1)
      case Some(i) => AdjacentBoxes(boxes, x, y, dirs[..k]) + [boxes[i]]
      case None => AdjacentBoxes(boxes, x, y, dirs[..k])
  {
    assert dirs[..k + 1][..k] == dirs[..k];
  }

  /** Toggle the selected box: with a box next to the player, select the
      first one found when nothing is selected, clear the selection otherwise. */
  function Selection(s: GameState): (r: GameState)
    ensures r == s.(player := s.player.(selectedBox := r.player.selectedBox))
    ensures s.player.selectedBox.Some? ==> r.player.selectedBox.None? || r == s
  {
    var adjacent := AdjacentBoxes(s.boxes, s.player.x, s.player.y, ScanOrder);
    if adjacent == [] then s
    else if s.player.selectedBox.None? then s.(player := s.player.(selectedBox := Some(adjacent[0].id)))
    else s.(player := s.player.(selectedBox := None))
  }

  lemma {:induction false} AdjacentEmptyIff(boxes: seq<Box>, x: int, y: int, dirs: seq<(int, int)>)
    ensures AdjacentBoxes(boxes, x, y, dirs) == [] <==>
      forall k :: 0 <= k < |dirs| ==> !Occupied(boxes, x + dirs[k].0, y + dirs[k].1)
  {
    if dirs != [] {
      var n := |dirs| - 1;
      AdjacentEmptyIff(boxes, x, y, dirs[..n]);
      FindBoxFirst(boxes, x + dirs[n].0, y + dirs[n].1);
      assert forall k :: 0 <= k < n ==> dirs[..n][k] == dirs[k];
    }
  }

  /** The first box in `AdjacentBoxes` is the one found in the first
      direction that has one. */
  lemma {:induction false} AdjacentFirst(boxes: seq<Box>, x: int, y: int, dirs: seq<(int, int)>, k: nat)
    requires k < |dirs|
    requires forall j :: 0 <= j < k ==> FindBox(boxes, x + dirs[j].0, y + dirs[j].1).None?
    requires FindBox(boxes, x + dirs[k].0, y + dirs[k].1).Some?
    ensures var adjacent := AdjacentBoxes(boxes, x, y, dirs);
      adjacent != [] && adjacent[0] == boxes[FindBox(boxes, x + dirs[k].0, y + dirs[k].1).value]
  {
    var n := |dirs| - 1;
    var earlier := dirs[..n];
    if k == n {
      forall j | 0 <= j < n ensures !Occupied(boxes, x + earlier[j].0, y + earlier[j].1) {
        assert earlier[j] == dirs[j];
        FindBoxFirst(boxes, x + dirs[j].0, y + dirs[j].1);
      }
      AdjacentEmptyIff(boxes, x, y, earlier);
    } else {
      assert earlier[k] == dirs[k];
      assert forall j :: 0 <= j < k ==> earlier[j] == dirs[j];
      AdjacentFirst(boxes, x, y, earlier, k);
    }
  }

  /** Selection changes nothing but the selected box, changes nothing at all
      without an adjacent box, and otherwise toggles: the first box found in
      the order up, down, left, right is selected when none was, and the
      selection is cleared when one was. */
  lemma SelectionToggles(s: GameState)
    ensures Selection(s) == s.(player := s.player.(selectedBox := Selection(s).player.selectedBox))
    ensures (forall k :: 0 <= k < 4 ==> !Occupied(s.boxes, s.player.x + ScanOrder[k].0, s.player.y + ScanOrder[k].1))
      ==> Selection(s) == s
    ensures ((exists k :: 0 <= k < 4 && Occupied(s.boxes, s.player.x + ScanOrder[k].0, s.player.y + ScanOrder[k].1))
             && s.player.selectedBox.Some?) ==> Selection(s).player.selectedBox.None?
  {
    AdjacentEmptyIff(s.boxes, s.player.x, s.player.y, ScanOrder);
  }

  lemma SelectionPicksFirstInScanOrder(s: GameState, k: nat)
    requires k < 4 && s.player.selectedBox.None?
    requires forall j :: 0 <= j < k ==> !Occupied(s.boxes, s.player.x + ScanOrder[j].0, s.player.y + ScanOrder[j].1)
    requires Occupied(s.boxes, s.player.x + ScanOrder[k].0, s.player.y + ScanOrder[k].1)
    ensures var found := FindBox(s.boxes, s.player.x + ScanOrder[k].0, s.player.y + ScanOrder[k].1);
      found.Some? && Selection(s).player.selectedBox == Some(s.boxes[found.value].id)
  {
    var x, y := s.player.x, s.player.y;
    forall j | 0 <= j <= k ensures FindBox(s.boxes, x + ScanOrder[j].0, y + ScanOrder[j].1).None? <==> j < k {
      FindBoxFirst(s.boxes, x + ScanOrder[j].0, y + ScanOrder[j].1);
    }
    AdjacentFirst(s.boxes, x, y, ScanOrder, k);
  }

  /** Pressing space twice with nothing selected gives back the same state. */
  lemma SelectionTwice(s: GameState)
    requires s.player.selectedBox.None?
    ensures Selection(Selection(s)) == s
  {
    SelectionToggles(s);
  }

  /** Every target with its flag set to whether a box covers it. */
  function MarkCompleted(targets: seq<Target>, boxes: seq<Box>): (r: seq<Target>)
    ensures |r| == |targets|
    ensures forall t :: 0 <= t < |r| ==> r[t] == targets[t].(completed := r[t].completed)
  {
    seq(|targets|, t requires 0 <= t < |targets| => targets[t].(completed := FindBox(boxes, targets[t].x, targets[t].y).Some?))
  }

  /** A target is marked completed exactly when a box covers it. */
  lemma MarkCompletedCovered(targets: seq<Target>, boxes: seq<Box>)
    ensures forall t :: 0 <= t < |targets| ==>
      (MarkCompleted(targets, boxes)[t].completed <==> Occupied(boxes, targets[t].x, targets[t].y))
  {
    forall t | 0 <= t < |targets| {
      FindBoxFirst(boxes, targets[t].x, targets[t].y);
    }
  }

  /** How many targets are flagged completed. */
  function CountCompleted(targets: seq<Target>): (n: nat)
    ensures n <= |targets|
  {
    if targets == [] then 0
    else CountCompleted(targets[..|targets| - 1]) + (if targets[|targets| - 1].completed then 1 else 0)
  }

  lemma {:induction false} CountCompletedAll(targets: seq<Target>)
    ensures CountCompleted(targets) == |targets| <==> forall t :: 0 <= t < |targets| ==> targets[t].completed
  {
    if targets != [] {
      var n := |targets| - 1;
      CountCompletedAll(targets[..n]);
      assert forall t :: 0 <= t < n ==> targets[..n][t] == targets[t];
    }
  }

  function Max(a: int, b: int): (r: int)
  {
    if a < b then b else a
  }

  /** Recompute target completion, points and status, and grant the rewards
      on completing the level. */
  function Update(s: GameState): (r: GameState)
    ensures r == s.(targets := r.targets, score := r.score, rewards := r.rewards, gameStatus := r.gameStatus)
    ensures r.score == s.score.(points := r.score.points, levelComplete := r.score.levelComplete)
    ensures r.rewards.speedBonus == s.rewards.speedBonus
    ensures |r.targets| == |s.targets|
    ensures forall t :: 0 <= t < |r.targets| ==> r.targets[t] == s.targets[t].(completed := r.targets[t].completed)
  {
    var targets := MarkCompleted(s.targets, s.boxes);
    var completed := CountCompleted(targets);
    var points := completed * 100 + Max(0, s.score.timeBonus - s.score.moves);
    if completed == |targets| then
      var moves, boxCount := s.score.moves, |s.boxes|;
      var perfect := 2 * moves <= 3 * boxCount;
      s.(targets := targets,
         score := s.score.(points := if perfect then points + 1000 else points, levelComplete := true),
         gameStatus := Won,
         rewards := s.rewards.(
           moveEfficiencyBonus := if moves <= boxCount * 2 then 500 else s.rewards.moveEfficiencyBonus,
           perfectSolution := if perfect then true else s.rewards.perfectSolution))
    else
      s.(targets := targets, score := s.score.(points := points))
  }

  /** Every target is covered by some box. */
  predicate AllCovered(s: GameState)
  {
    forall t :: 0 <= t < |s.targets| ==> Occupied(s.boxes, s.targets[t].x, s.targets[t].y)
  }

  /** After the update each target is flagged exactly when a box covers it,
      and the level is won exactly when it already was or every target is covered. */
  lemma UpdateStatus(s: GameState)
    ensures CompletedAgrees(Update(s))
    ensures Update(s).gameStatus == Won <==> s.gameStatus == Won || AllCovered(s)
    ensures AllCovered(s) ==> Update(s).score.levelComplete
    ensures !AllCovered(s) ==>
      (Update(s).gameStatus == s.gameStatus && Update(s).rewards == s.rewards
       && Update(s).score.levelComplete == s.score.levelComplete)
  {
    MarkCompletedCovered(s.targets, s.boxes);
    CountCompletedAll(MarkCompleted(s.targets, s.boxes));
  }

  /** The points: 100 per covered target plus what is left of the time bonus
      after the moves, plus 1000 when the level is completed in at most 1.5
      moves per box; completing the level in at most 2 moves per box earns
      the efficiency bonus. */
  lemma UpdateScore(s: GameState)
    ensures var c := CountCompleted(Update(s).targets);
      var bonus := if AllCovered(s) && 2 * s.score.moves <= 3 * |s.boxes| then 1000 else 0;
      Update(s).score.points == c * 100 + Max(0, s.score.timeBonus - s.score.moves) + bonus
    ensures 0 <= Update(s).score.points
    ensures AllCovered(s) && s.score.moves <= 2 * |s.boxes| ==> Update(s).rewards.moveEfficiencyBonus == 500
    ensures AllCovered(s) && 2 * s.score.moves <= 3 * |s.boxes| ==> Update(s).rewards.perfectSolution
    ensures AllCovered(s) && s.score.moves > 2 * |s.boxes| ==> Update(s).rewards.moveEfficiencyBonus == s.rewards.moveEfficiencyBonus
    ensures AllCovered(s) && 2 * s.score.moves > 3 * |s.boxes| ==> Update(s).rewards.perfectSolution == s.rewards.perfectSolution
  {
    MarkCompletedCovered(s.targets, s.boxes);
    CountCompletedAll(MarkCompleted(s.targets, s.boxes));
  }

  /** A won level stays won. */
  lemma UpdateKeepsWon(s: GameState)
    requires s.gameStatus == Won
    ensures Update(s).gameStatus == Won
  {
  }

  /** Recomputing twice gives what recomputing once gives. */
  lemma UpdateIdempotent(s: GameState)
    ensures Update(Update(s)) == Update(s)
  {
    var u := Update(s);
    assert MarkCompleted(u.targets, u.boxes) == u.targets;
    CountCompletedAll(u.targets);
  }

  /** The update turns the play invariant into a settled state. */
  lemma UpdateSettles(s: GameState)
    requires PlayInvariant(s)
    ensures Settled(Update(s))
  {
    UpdateStatus(s);
    var u := Update(s);
    assert forall i :: 0 <= i < |s.boxes| ==> Open(u, u.boxes[i].x, u.boxes[i].y);
  }

  /** Selection keeps the play invariant and the target flags. */
  lemma SelectionPreservesSettled(s: GameState)
    ensures PlayInvariant(s) ==> PlayInvariant(Selection(s))
    ensures Settled(s) ==> Settled(Selection(s))
  {
    SelectionToggles(s);
  }
}
