# Snake game state machine in Dafny

A model of the game logic of a single-player snake game written in Rust on
the macroquad engine (`SnakeGame` in `src/main.rs`). The snake moves across a
14 × 14 board at a fixed interval. It grows by one cell and scores 100 points
for each fruit it eats. The session is lost when the head leaves the board or
runs into the body. After a loss, the Enter key restarts the game.

The model keeps the source's state (`Snake` with `body`, `head`, `dir`, and
`SnakeGame` with `fruit`, `score`, `navigationLock`, `gameOver`) as immutable
datatypes, with pure functions for each transition:

- `Game.HandleDirection`: steering from the held arrow keys. It is the
  source's `else if` chain over Right, Left, Up, Down, gated by the
  reverse-direction check and the navigation lock.
- `Game.Step`: the movement step guarded by the timer. The old head is
  pushed onto the body and the head advances. Then the fruit is eaten or the
  tail is dropped, the bounds and self-collision are checked, and the lock
  is cleared.
- `Game.Default` and `Game.Reset`: the start state and the restart.
- `Game.Frame` and `Game.Run`: the per-frame dispatch (steer, then step,
  while running; only restart once lost) and runs of frames.

The host engine is turned into parameters:

- the held arrow keys are four booleans (`Keys`);
- the Enter key is a boolean `enter`;
- the timer test `get_time() - last_update > speed` is a boolean `due`;
- each draw of `rand::gen_range(0, SQUARES)` for a fruit is a caller-supplied
  `spawn` point, which a precondition keeps on the board.

Files:

- `grid.dfy`: the board, points and `Direction` with its unit vectors.
- `game.dfy`: the state and the transitions.
- `invariants.dfy`: the invariant every reachable state satisfies, and its
  preservation by each transition and by whole runs.
- `capacity.dfy`: a pigeonhole bound on the body length. From it, the
  source's `i16` coordinates and `i32` score cannot overflow.
- `scenarios.dfy`: concrete situations worked through the model.

The invariant `Invariants.Inv` says the following:

- the score is 100 times the body length;
- the number of speed decays equals the body length;
- the direction is a unit vector;
- the fruit and every body cell are on the board;
- body cells are pairwise distinct;
- head and body form a chain of edge-adjacent cells;
- the neck (first body cell) is never where the next step goes;
- a lost game has the lock clear and the head at most one cell off the board;
- a running game has the head on the board and not on the body.

Points of the code's behaviour that are easy to get wrong, and that the
model reproduces:

- Moving onto the cell the tail is leaving is not a collision. On a step
  that does not eat, the tail is popped (src/main.rs:114) before the body is
  scanned for the head (src/main.rs:125-129); see
  `Scenarios.OntoTheLeavingTail`. Body `[(4,5)]`, head `(5,5)`, direction
  `(-1,0)` steps on without a loss. No reachable state has that shape,
  because it is a reversal into the neck.
- `handle_direction` has no `game_over` check of its own. The dispatch in
  `start_game` (src/main.rs:231-240) only calls it while the game runs, so
  `Game.HandleDirection` ignores `gameOver` and `Game.Frame` does the gating.
- The restart at src/main.rs:217-226 leaves `navigation_lock` as it is. The
  lock is always clear when the game is lost, so a restart still yields
  exactly the start state (`Invariants.ResetRestoresDefault`).
- The timer test at src/main.rs:104 is a strict `>`. The model abstracts it
  into `due`.

## Model

| member | source | states |
|---|---|---|
| Grid.UnitIsDirection | src/main.rs:22-30 | a point is a unit vector exactly when it is the vector of one of the four directions |
| Grid.Direction.Vector | src/main.rs:22-30 | every direction's vector is a unit vector; Left and Right are the horizontal ones, Right and Down the ones with a positive component |
| Grid.VectorInjective | src/main.rs:22-30 | two directions have the same vector exactly when they are the same direction |
| Game.HandleDirection | src/main.rs:62-91 | only `dir` and the lock can change; with the lock set nothing changes; with no key wanted nothing changes; otherwise the direction becomes the first of Right, Left, Up, Down that is held and not opposite to the current direction, and the lock is set; any change is to a unit vector that is not the negation of the old direction |
| Game.HitsBody | src/main.rs:125-129 | the coordinate-wise scan of the body reports a hit exactly when the head equals some body cell |
| Game.Step | src/main.rs:104-132 | not due: nothing changes; due: the head moves by `dir`, the old head becomes the body front and each later body cell is the previous cell's old value; off the fruit, length, score, fruit and speed are unchanged; on the fruit, the body is one longer, the score 100 higher, the speed decays once more and the fruit moves to the drawn cell; the game is lost exactly when it was lost, or the head is off the board, or the head is on the new body; the lock is cleared |
| Game.Default | src/main.rs:44-58 | the start state: head (0,0), direction Right, empty body, score 0, full speed, running, unlocked, fruit on the board |
| Game.Reset | src/main.rs:217-226 | a restart equals the start state except that the lock keeps its old value |
| Game.Frame | src/main.rs:231-240 | a lost game without Enter is unchanged; a lost game with Enter is restarted; a running frame steers first: with no step due it is exactly the steering, and with a step due the head moves one cell along the freshly steered direction, the old head becomes the body front and the lock is cleared; a running frame never lowers the score or shortens the body, and never reverses the direction |
| Game.Run | src/main.rs:229-243 | no frames leave the game unchanged, and a single frame is one pass of the loop |
| Game.RunConcat | src/main.rs:229-243 | running two stretches of frames one after the other is the same as running them joined: the loop has no memory beyond the game state |
| Invariants.DefaultSatisfiesInv | src/main.rs:44-58 | the start state satisfies the invariant |
| Invariants.ResetRestoresDefault | src/main.rs:217-226 | a restart always satisfies the invariant, and after a reachable loss it is exactly the start state, since the lock is then already clear |
| Invariants.HandleDirectionPreservesInv | src/main.rs:62-91 | steering a running game keeps the invariant, including that the next step cannot land on the neck |
| Invariants.StepPreservesInv | src/main.rs:104-132 | a step of a running game keeps the invariant: score 100 per body cell, body distinct and on the board, snake contiguous, lock clear when lost, head on the board and off the body while running |
| Invariants.FramePreservesInv | src/main.rs:231-240 | every branch of the frame dispatch keeps the invariant |
| Invariants.RunPreservesInv | src/main.rs:229-243 | any sequence of frames keeps the invariant |
| Invariants.Reachable | src/main.rs:246-251 | every state reachable from the start of a session satisfies the invariant |
| Invariants.NeverIntoNeck | src/main.rs:68-90 | in a running game, the step after steering never lands on the first body cell: the reverse check plus the lock rule out a U-turn |
| Invariants.LostGameFrozen | src/main.rs:231-240 | once lost, the game is unchanged by any frames in which Enter is not held |
| Invariants.OneTurnPerStep | src/main.rs:68-90 | after steering changed the state, further steering before the next step changes nothing |
| Capacity.DistinctCellsBounded | src/main.rs:5 | a sequence of distinct board cells has at most 14 × 14 elements |
| Capacity.NoOverflow | src/main.rs:5-41 | in a state satisfying the invariant the body has at most 196 cells, the score is between 0 and 19600, and every coordinate fits an `i16`, so the `i16` points and the `i32` score never overflow |
| Scenarios.EatWithEmptyBody | src/main.rs:106-112 | eating from head (5,5) moving right onto the fruit at (6,5) gives head (6,5), body [(5,5)], score 100 |
| Scenarios.OffTheRightEdge | src/main.rs:117-123 | moving right from (13,5) puts the head at (14,5) and loses the game |
| Scenarios.OntoTheLeavingTail | src/main.rs:113-129 | stepping onto the cell the tail is leaving is not a collision |
| Scenarios.IntoTheBody | src/main.rs:125-129 | stepping onto a body cell that stays loses the game |
| Scenarios.LockedIgnoresKeys | src/main.rs:78-83 | with the lock set, holding Up changes nothing |
| Scenarios.BlockedKeyFallsThrough | src/main.rs:68-83 | moving left with Right and Up held, Right is blocked and Up is taken |

## Left out

- Rendering: `draw_game` and the loss-screen text in `handle_loss`. These are engine draw calls with floating-point layout.
- The async frame loop (`next_frame().await`) and `main`'s window setup. Only the per-frame dispatch is modelled, as `Game.Frame`, and sequences of frames as `Game.Run`.
- Wall-clock time: `get_time`, `last_update` and the strict `>` comparison become the boolean `due`.
- The `f64` speed. `speed *= 0.99` is tracked only as the count `speedDecays`, so the speed is 0.3 × 0.99^speedDecays. Nothing bounds it from below, as in the source.
- `rand::gen_range`: a foreign random number generator. Each draw is a `spawn` parameter kept on the board. As in the source, the fruit may be placed on the snake.
- `is_key_down`: a foreign input query. The keys become boolean parameters.
- The `LinkedList` body becomes a sequence with the front at index 0.
- `i16` and `i32` arithmetic are unbounded integers here. `Capacity.NoOverflow` proves every reachable value stays inside those types, so no wrap-around needs modelling.
- Steps of a lost game: the invariant is proved only for steps of a running game, since the frame loop never steps a lost one. `Step` itself is total and its contract holds in every state.
