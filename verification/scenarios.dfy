/** Concrete situations, each worked through the model. */
module Scenarios {
  import opened Grid
  import opened Game

  function At(head: Point, dir: Point, body: seq<Point>, fruit: Point): SnakeGame {
    SnakeGame(Snake(body, head, dir), fruit, 100 * |body|, |body|, false, false)
  }

  /** Eating with an empty body: the old head becomes the one body cell and 100 points are scored. */
  lemma EatWithEmptyBody(spawn: Point)
    requires InGrid(spawn)
    ensures var r := Step(At((5, 5), (1, 0), [], (6, 5)), true, spawn);
            && r.snake.head == (6, 5) && r.snake.body == [(5, 5)]
            && r.score == 100 && r.speedDecays == 1 && r.fruit == spawn && !r.gameOver
  {
  }

  /** Stepping off the right edge loses the game. */
  lemma OffTheRightEdge(spawn: Point)
    requires InGrid(spawn)
    ensures var r := Step(At((13, 5), (1, 0), [], (0, 0)), true, spawn);
            r.snake.head == (14, 5) && r.gameOver
  {
  }

  /**
   Moving onto the cell the tail is leaving is not a collision: the tail is
   dropped before the head is compared with the body.
   */
  lemma OntoTheLeavingTail(spawn: Point)
    requires InGrid(spawn)
    ensures var r := Step(At((5, 5), (-1, 0), [(4, 5)], (0, 0)), true, spawn);
            r.snake.head == (4, 5) && r.snake.body == [(5, 5)] && !r.gameOver
  {
  }

  /** Moving onto a body cell that stays is a collision. */
  lemma IntoTheBody(spawn: Point)
    requires InGrid(spawn)
    ensures var r := Step(At((5, 5), (0, 1), [(5, 4), (4, 4), (4, 5), (4, 6), (5, 6), (6, 6)], (0, 0)), true, spawn);
            r.snake.head == (5, 6) && r.gameOver
  {
    var r := Step(At((5, 5), (0, 1), [(5, 4), (4, 4), (4, 5), (4, 6), (5, 6), (6, 6)], (0, 0)), true, spawn);
    assert r.snake.body[5] == (5, 6);
  }

  /** With steering locked, a held key changes nothing. */
  lemma LockedIgnoresKeys()
    ensures var g := At((5, 5), (1, 0), [], (0, 0)).(navigationLock := true);
            HandleDirection(g, Keys(false, false, true, false)) == g
  {
  }

  /** Right is blocked while moving left, so a held Up is taken instead. */
  lemma BlockedKeyFallsThrough()
    ensures var r := HandleDirection(At((5, 5), (-1, 0), [], (0, 0)), Keys(true, false, true, false));
            r.snake.dir == (0, -1) && r.navigationLock
  {
  }
}
