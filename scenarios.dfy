/** The outcome of the rules on concrete states of a corridor five cells wide and three high:
    walls all round and a single open row y = 1. */
module Scenarios {
  import opened Types
  import opened Rules

  function Corridor(middle: seq<Cell>): (g: seq<seq<Cell>>)
  {
    [[Wall, Wall, Wall, Wall, Wall], middle, [Wall, Wall, Wall, Wall, Wall]]
  }

  function Level(middle: seq<Cell>, boxes: seq<Box>, targets: seq<Target>): (s: GameState)
  {
    GameState(Player(1, 1, None), Corridor(middle), boxes, targets,
              Score(0, 0, 0, 1000, false), Rewards(0, 0, false), 1, 0, Playing, 0, 5, 3)
  }

  /** Walking right into a wall is refused and changes nothing. */
  lemma WalkIntoWall()
    ensures var s := Level([Wall, Empty, Wall, Empty, Wall], [], []);
      Move(s, 1, 0) == Step(false, s)
  {
  }

  /** Pushing a box right into a wall is refused: neither player nor box moves. */
  lemma PushIntoWall()
    ensures var s := Level([Wall, Empty, Empty, Wall, Wall], [Box(2, 1, 0, false)], []);
      Move(s, 1, 0) == Step(false, s)
  {
  }

  /** Pushing the only box onto the only target in one move wins the level
      with every bonus: 100 for the target, 999 left of the time bonus and
      1000 for the perfect solution. */
  lemma PushOntoTargetWins()
    ensures var s := Level([Wall, Empty, Empty, Empty, Wall], [Box(2, 1, 0, false)], [Target(3, 1, false)]);
      var m := Move(s, 1, 0);
      && m.ok
      && m.next.player == Player(2, 1, None)
      && m.next.boxes == [Box(3, 1, 0, true)]
      && Update(m.next).gameStatus == Won
      && Update(m.next).score == Score(2099, 1, 1, 1000, true)
      && Update(m.next).rewards == Rewards(500, 0, true)
  {
  }
}
