/** The puzzle state as the game keeps it: a grid of cell kinds, the player,
    the boxes and targets, the score and rewards records and the status. */
module Types {

  datatype Option<+T> = None | Some(value: T)

  /** Kind of a grid cell. Only `Wall` affects play; `TargetMark` and
      `BoxMark` are written by the level generator and never updated. */
  datatype Cell = Empty | Wall | TargetMark | BoxMark

  /** `selectedBox` holds the id of the selected box, if any. */
  datatype Player = Player(x: int, y: int, selectedBox: Option<int>)

  datatype Box = Box(x: int, y: int, id: int, onTarget: bool)

  datatype Target = Target(x: int, y: int, completed: bool)

  datatype Score = Score(points: int, moves: int, pushes: int, timeBonus: int, levelComplete: bool)

  datatype Rewards = Rewards(moveEfficiencyBonus: int, speedBonus: int, perfectSolution: bool)

  datatype Status = Playing | Won

  /** The whole game state; `grid[y][x]` is the cell at column x, row y. */
  datatype GameState = GameState(
    player: Player,
    grid: seq<seq<Cell>>,
    boxes: seq<Box>,
    targets: seq<Target>,
    score: Score,
    rewards: Rewards,
    level: int,
    turnNumber: int,
    gameStatus: Status,
    step: int,
    gridWidth: int,
    gridHeight: int)

  /** Some box stands at (x, y). */
  predicate Occupied(boxes: seq<Box>, x: int, y: int)
  {
    exists j :: 0 <= j < |boxes| && boxes[j].x == x && boxes[j].y == y
  }

  /** Some target lies at (x, y). */
  predicate HasTarget(targets: seq<Target>, x: int, y: int)
  {
    exists j :: 0 <= j < |targets| && targets[j].x == x && targets[j].y == y
  }

  /** The index of the first box, in list order, standing at (x, y). */
  function FindBox(boxes: seq<Box>, x: int, y: int): (r: Option<nat>)
    ensures r.Some? ==> r.value < |boxes| && boxes[r.value].x == x && boxes[r.value].y == y
  {
    if boxes == [] then None
    else
      var k := |boxes| - 1;
      match FindBox(boxes[..k], x, y)
      case Some(i) => Some(i)
      case None => if boxes[k].x == x && boxes[k].y == y then Some(k) else None
  }

  /** `FindBox` finds a box exactly when one stands there, and then the
      first one in list order. */
  lemma {:induction false} FindBoxFirst(boxes: seq<Box>, x: int, y: int)
    ensures FindBox(boxes, x, y).None? <==> !Occupied(boxes, x, y)
    ensures FindBox(boxes, x, y).Some? ==>
      forall j :: 0 <= j < FindBox(boxes, x, y).value ==> boxes[j].x != x || boxes[j].y != y
  {
    if boxes != [] {
      var k := |boxes| - 1;
      FindBoxFirst(boxes[..k], x, y);
      assert forall j :: 0 <= j < k ==> boxes[..k][j] == boxes[j];
    }
  }

  /** The index of the first target, in list order, lying at (x, y). */
  function FindTarget(targets: seq<Target>, x: int, y: int): (r: Option<nat>)
    ensures r.Some? ==> r.value < |targets| && targets[r.value].x == x && targets[r.value].y == y
  {
    if targets == [] then None
    else
      var k := |targets| - 1;
      match FindTarget(targets[..k], x, y)
      case Some(i) => Some(i)
      case None => if targets[k].x == x && targets[k].y == y then Some(k) else None
  }

  /** `FindTarget` finds a target exactly when one lies there, and then the
      first one in list order. */
  lemma {:induction false} FindTargetFirst(targets: seq<Target>, x: int, y: int)
    ensures FindTarget(targets, x, y).None? <==> !HasTarget(targets, x, y)
    ensures FindTarget(targets, x, y).Some? ==>
      forall j :: 0 <= j < FindTarget(targets, x, y).value ==> targets[j].x != x || targets[j].y != y
  {
    if targets != [] {
      var k := |targets| - 1;
      FindTargetFirst(targets[..k], x, y);
      assert forall j :: 0 <= j < k ==> targets[..k][j] == targets[j];
    }
  }
}
