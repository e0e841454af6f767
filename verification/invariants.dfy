/**
 The invariant every state reachable from the start of a session keeps, and
 its preservation by steering, the movement step, the restart and whole
 runs of frames.
 */
module Invariants {
  import opened Grid
  import opened Game

  /** The snake from head to tail. */
  function Cells(s: Snake): seq<Point> {
    [s.head] + s.body
  }

  /** Consecutive cells of s share an edge. */
  predicate Contiguous(s: seq<Point>) {
    forall i :: 0 < i < |s| ==> Adjacent(s[i - 1], s[i])
  }

  /** No cell of s occurs twice. */
  predicate Distinct(s: seq<Point>) {
    forall i, j :: 0 <= i < j < |s| ==> s[i] != s[j]
  }

  predicate AllInGrid(s: seq<Point>) {
    forall i :: 0 <= i < |s| ==> InGrid(s[i])
  }

  /** Every body cell was eaten for FruitBonus points and one speed decay. */
  predicate ScoreMatchesLength(g: SnakeGame) {
    g.score == FruitBonus * |g.snake.body| && g.speedDecays == |g.snake.body|
  }

  /**
   The neck (the first body cell) is never where the next step goes, and
   until steering is used after a step, the head sits one `dir` past the neck.
   */
  predicate NeckSafe(s: Snake, locked: bool) {
    |s.body| > 0 ==>
      && s.body[0] != Add(s.head, s.dir)
      && (!locked ==> Add(s.body[0], s.dir) == s.head)
  }

  predicate Inv(g: SnakeGame) {
    && ScoreMatchesLength(g)
    && IsUnit(g.snake.dir)
    && InGrid(g.fruit)
    && AllInGrid(g.snake.body)
    && Distinct(g.snake.body)
    && Contiguous(Cells(g.snake))
    && NeckSafe(g.snake, g.navigationLock)
    && (g.gameOver ==> !g.navigationLock && NearGrid(g.snake.head))
    && (!g.gameOver ==> InGrid(g.snake.head) && g.snake.head !in g.snake.body)
  }

  /** A session starts in a state that satisfies the invariant. */
  lemma DefaultSatisfiesInv(spawn: Point)
    requires InGrid(spawn)
    ensures Inv(Default(spawn))
  {
  }

  /** Restarting yields a state satisfying the invariant, and after a loss it is exactly the start state. */
  lemma ResetRestoresDefault(g: SnakeGame, spawn: Point)
    requires InGrid(spawn)
    ensures Inv(g) && g.gameOver ==> Reset(g, spawn) == Default(spawn)
    ensures Inv(Reset(g, spawn))
  {
  }

  /** Steering a running game keeps the invariant. */
  lemma HandleDirectionPreservesInv(g: SnakeGame, keys: Keys)
    requires Inv(g) && !g.gameOver
    ensures Inv(HandleDirection(g, keys))
  {
    // a turn keeps the neck one old `dir` behind the head, and the new `dir` is not its reverse
  }

  /** Prepending a cell absent from a distinct sequence keeps it distinct. */
  lemma DistinctCons(p: Point, s: seq<Point>)
    requires Distinct(s) && p !in s
    ensures Distinct([p] + s)
  {
    var t := [p] + s;
    forall i, j | 0 <= i < j < |t|
      ensures t[i] != t[j]
    {
      if i == 0 {
        assert t[j] == s[j - 1];
      } else {
        assert t[i] == s[i - 1] && t[j] == s[j - 1];
      }
    }
  }

  /** The movement step of a running game keeps the invariant. */
  lemma StepPreservesInv(g: SnakeGame, due: bool, spawn: Point)
    requires Inv(g) && !g.gameOver && InGrid(spawn)
    ensures Inv(Step(g, due, spawn))
  {
    // the new body is a prefix of the old head followed by the old body, which is
    // distinct, on the board and contiguous; the new head is one unit step away
  }

  /** A frame keeps the invariant, whichever branch of the dispatch it takes. */
  lemma FramePreservesInv(g: SnakeGame, f: FrameInput)
    requires Inv(g) && InGrid(f.spawn)
    ensures Inv(Frame(g, f))
  {
    if !g.gameOver {
      HandleDirectionPreservesInv(g, f.keys);
      StepPreservesInv(HandleDirection(g, f.keys), f.due, f.spawn);
    } else if f.enter {
      ResetRestoresDefault(g, f.spawn);
      DefaultSatisfiesInv(f.spawn);
    }
  }

  /** Any run of frames keeps the invariant. */
  lemma {:induction false} RunPreservesInv(g: SnakeGame, frames: seq<FrameInput>)
    requires Inv(g) && SpawnsInGrid(frames)
    ensures Inv(Run(g, frames))
    decreases |frames|
  {
    if |frames| > 0 {
      FramePreservesInv(g, frames[0]);
      assert SpawnsInGrid(frames[1..]) by {
        forall i | 0 <= i < |frames[1..]|
          ensures InGrid(frames[1..][i].spawn)
        {
          assert frames[1..][i] == frames[i + 1];
        }
      }
      RunPreservesInv(Frame(g, frames[0]), frames[1..]);
    }
  }

  /**
   Every state reachable from the start of a session satisfies the invariant:
   the score is FruitBonus per body cell, the lock is clear whenever the game
   is lost, and while it runs the snake is a simple path on the board.
   */
  lemma Reachable(spawn: Point, frames: seq<FrameInput>)
    requires InGrid(spawn) && SpawnsInGrid(frames)
    ensures Inv(Run(Default(spawn), frames))
  {
    DefaultSatisfiesInv(spawn);
    RunPreservesInv(Default(spawn), frames);
  }

  /**
   Steering plus the lock never turns the snake into its own neck: in a
   running game the next step never lands on the first body cell.
   */
  lemma NeverIntoNeck(g: SnakeGame, f: FrameInput)
    requires Inv(g) && !g.gameOver && InGrid(f.spawn) && |g.snake.body| > 0
    ensures f.due ==> Frame(g, f).snake.head != g.snake.body[0]
  {
    HandleDirectionPreservesInv(g, f.keys);
  }

  /** A lost game stays exactly as it is until the restart key is pressed. */
  lemma {:induction false} LostGameFrozen(g: SnakeGame, frames: seq<FrameInput>)
    requires g.gameOver && SpawnsInGrid(frames)
    requires forall i :: 0 <= i < |frames| ==> !frames[i].enter
    ensures Run(g, frames) == g
    decreases |frames|
  {
    if |frames| > 0 {
      var rest := frames[1..];
      assert SpawnsInGrid(rest) by {
        forall i | 0 <= i < |rest|
          ensures InGrid(rest[i].spawn)
        {
          assert rest[i] == frames[i + 1];
        }
      }
      assert forall i :: 0 <= i < |rest| ==> !rest[i].enter by {
        forall i | 0 <= i < |rest|
          ensures !rest[i].enter
        {
          assert rest[i] == frames[i + 1];
        }
      }
      LostGameFrozen(g, rest);
    }
  }

  /** At most one change of direction between two steps: once steering is locked, further input does nothing. */
  lemma OneTurnPerStep(g: SnakeGame, first: Keys, second: Keys)
    requires HandleDirection(g, first) != g
    ensures HandleDirection(HandleDirection(g, first), second) == HandleDirection(g, first)
  {
  }
}
