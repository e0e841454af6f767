/**
 The state of one snake session and the transitions the frame loop applies
 to it: steering from the held arrow keys, the timed movement step, the
 restart after a loss, and the per-frame dispatch between them.

 Keys, the clock and the random number generator are parameters: the held
 keys arrive as four booleans, "enough time has passed since the last step"
 as `due`, and the position the generator would draw for a new fruit as
 `spawn`, which the generator always places on the board.
 */
module Game {
  import opened Grid

  /** The body lists the cells behind the head, nearest first. */
  datatype Snake = Snake(body: seq<Point>, head: Point, dir: Point)

  /**
   The whole game. The step interval is 0.3 seconds times 0.99 to the
   power `speedDecays`; only the number of decays is kept.
   */
  datatype SnakeGame = SnakeGame(
    snake: Snake,
    fruit: Point,
    score: int,
    speedDecays: nat,
    navigationLock: bool,
    gameOver: bool)

  /** Which arrow keys are held during a frame. */
  datatype Keys = Keys(right: bool, left: bool, up: bool, down: bool)

  /** What the host supplies for one frame. */
  datatype FrameInput = FrameInput(keys: Keys, due: bool, enter: bool, spawn: Point)

  /** Points awarded per fruit eaten. */
  const FruitBonus: int := 100

  /** The order in which simultaneously held arrow keys are considered. */
  const Priority: seq<Direction> := [Right, Left, Up, Down]

  function Held(keys: Keys, d: Direction): bool {
    match d
    case Right => keys.right
    case Left => keys.left
    case Up => keys.up
    case Down => keys.down
  }

  /** Key d is held and the snake is not currently moving against d. */
  predicate Wants(keys: Keys, dir: Point, d: Direction) {
    Held(keys, d) && dir != Neg(d.Vector())
  }

  /** Priority[i] is the first direction in priority order that is wanted. */
  predicate FirstWanted(keys: Keys, dir: Point, i: int) {
    && 0 <= i < |Priority|
    && Wants(keys, dir, Priority[i])
    && forall j :: 0 <= j < i ==> !Wants(keys, dir, Priority[j])
  }

  /** g with the snake now heading in d and further steering locked. */
  function Turned(g: SnakeGame, d: Direction): SnakeGame {
    g.(snake := g.snake.(dir := d.Vector()), navigationLock := true)
  }

  /**
   Steering: an `else if` chain over Right, Left, Up, Down. A branch fires
   when its key is held, the snake is not moving the opposite way and
   steering is not locked; a blocked branch falls through to the next key.
   */
  function HandleDirection(g: SnakeGame, keys: Keys): (r: SnakeGame)
    // only the direction and the lock can change
    ensures r == g.(snake := g.snake.(dir := r.snake.dir), navigationLock := r.navigationLock)
    ensures g.navigationLock ==> r == g
    ensures (!g.navigationLock && forall i :: 0 <= i < |Priority| ==> !Wants(keys, g.snake.dir, Priority[i]))
              ==> r == g
    ensures forall i :: !g.navigationLock && FirstWanted(keys, g.snake.dir, i) ==> r == Turned(g, Priority[i])
    // whatever changes, the new direction is a unit vector and never the exact reverse
    ensures r != g ==> && !g.navigationLock && r.navigationLock
                       && IsUnit(r.snake.dir) && r.snake.dir != Neg(g.snake.dir)
  {
    assert Priority[0] == Right && Priority[1] == Left && Priority[2] == Up && Priority[3] == Down;
    var dir := g.snake.dir;
    var lock := g.navigationLock;
    if keys.right && dir != Left.Vector() && !lock then
      Turned(g, Right)
    else if keys.left && dir != Right.Vector() && !lock then
      Turned(g, Left)
    else if keys.up && dir != Down.Vector() && !lock then
      Turned(g, Up)
    else if keys.down && dir != Up.Vector() && !lock then
      Turned(g, Down)
    else
      g
  }

  /**
   The self-collision scan: walks the body and reports a hit when some
   cell matches the head in both coordinates.
   */
  function HitsBody(body: seq<Point>, head: Point): (hit: bool)
    ensures hit <==> head in body
  {
    if |body| == 0 then false
    else
      var (x, y) := body[0];
      var here := x == head.0 && y == head.1;
      var rest := HitsBody(body[1..], head);
      assert body == [body[0]] + body[1..];
      here || rest
  }

  /**
   The movement step. When `due`: the old head is pushed onto the front of
   the body and the head advances by `dir`; on the fruit, the fruit moves
   to `spawn`, the score grows by FruitBonus and the speed decays, otherwise
   the tail is dropped; the game is lost when the new head is off the board
   or on the body; steering is unlocked.
   */
  function Step(g: SnakeGame, due: bool, spawn: Point): (r: SnakeGame)
    requires InGrid(spawn)
    ensures !due ==> r == g
    ensures due ==> && r.snake.head == Add(g.snake.head, g.snake.dir)
                    && r.snake.dir == g.snake.dir
                    && !r.navigationLock
    // not on the fruit: same length, score, fruit and speed
    ensures due && r.snake.head != g.fruit ==>
              && |r.snake.body| == |g.snake.body|
              && r.score == g.score && r.fruit == g.fruit && r.speedDecays == g.speedDecays
    // on the fruit: one cell longer, FruitBonus more points, one more decay, a new fruit
    ensures due && r.snake.head == g.fruit ==>
              && |r.snake.body| == |g.snake.body| + 1
              && r.score == g.score + FruitBonus
              && r.speedDecays == g.speedDecays + 1
              && r.fruit == spawn && InGrid(r.fruit)
    // the body shifts by one cell: the old head in front, the old body behind it
    ensures due ==> |r.snake.body| <= |g.snake.body| + 1
    ensures due ==> && (|r.snake.body| > 0 ==> r.snake.body[0] == g.snake.head)
                    && forall i :: 0 < i < |r.snake.body| ==> r.snake.body[i] == g.snake.body[i - 1]
    ensures due ==> (r.gameOver <==> g.gameOver || !InGrid(r.snake.head) || r.snake.head in r.snake.body)
  {
    if !due then g
    else
      var pushed := [g.snake.head] + g.snake.body;
      var head := (g.snake.dir.0 + g.snake.head.0, g.snake.dir.1 + g.snake.head.1);
      var ate := head == g.fruit;
      var body := if ate then pushed else pushed[..|pushed| - 1];
      var outside := head.0 < 0 || head.1 < 0 || head.0 >= Squares || head.1 >= Squares;
      SnakeGame(
        snake := Snake(body, head, g.snake.dir),
        fruit := if ate then spawn else g.fruit,
        score := if ate then g.score + FruitBonus else g.score,
        speedDecays := if ate then g.speedDecays + 1 else g.speedDecays,
        navigationLock := false,
        gameOver := g.gameOver || outside || HitsBody(body, head))
  }

  /**
   The state a session starts in: the head at the top-left corner heading
   right, no body, no points, full speed, steering unlocked.
   */
  function Default(spawn: Point): (r: SnakeGame)
    requires InGrid(spawn)
    ensures r.snake == Snake([], (0, 0), Right.Vector())
    ensures r.score == 0 && r.speedDecays == 0
    ensures !r.gameOver && !r.navigationLock
    ensures InGrid(r.fruit)
  {
    SnakeGame(Snake([], (0, 0), (1, 0)), spawn, 0, 0, false, false)
  }

  /** Restart after a loss: every field returns to its start value except the steering lock. */
  function Reset(g: SnakeGame, spawn: Point): (r: SnakeGame)
    requires InGrid(spawn)
    ensures r.navigationLock == g.navigationLock
    ensures r.(navigationLock := false) == Default(spawn)
  {
    g.(snake := Snake([], (0, 0), (1, 0)),
       fruit := spawn,
       score := 0,
       speedDecays := 0,
       gameOver := false)
  }

  /**
   One frame: while the game runs, steering and then the movement step;
   once it is lost, only the restart key has an effect.
   */
  function Frame(g: SnakeGame, f: FrameInput): (r: SnakeGame)
    requires InGrid(f.spawn)
    ensures g.gameOver && !f.enter ==> r == g
    ensures g.gameOver && f.enter ==> r == Reset(g, f.spawn)
    ensures !g.gameOver ==> && r.score >= g.score
                            && |r.snake.body| >= |g.snake.body|
                            && r.snake.head in [g.snake.head, Add(g.snake.head, r.snake.dir)]
    ensures !g.gameOver && IsUnit(g.snake.dir) ==> r.snake.dir != Neg(g.snake.dir)
    // a running frame steers first: without a due step, steering is all that happens
    ensures !g.gameOver && !f.due ==> r == HandleDirection(g, f.keys)
    // with a due step, the head moves along the freshly steered direction and the lock is cleared
    ensures !g.gameOver && f.due ==> && r.snake.dir == HandleDirection(g, f.keys).snake.dir
                                     && r.snake.head == Add(g.snake.head, r.snake.dir)
                                     && (|r.snake.body| > 0 ==> r.snake.body[0] == g.snake.head)
                                     && !r.navigationLock
  {
    if !g.gameOver then
      Step(HandleDirection(g, f.keys), f.due, f.spawn)
    else if f.enter then
      Reset(g, f.spawn)
    else
      g
  }

  predicate SpawnsInGrid(frames: seq<FrameInput>) {
    forall i :: 0 <= i < |frames| ==> InGrid(frames[i].spawn)
  }

  /** The state after the frames, applied first to last. */
  function Run(g: SnakeGame, frames: seq<FrameInput>): (r: SnakeGame)
    requires SpawnsInGrid(frames)
    ensures |frames| == 0 ==> r == g
    ensures |frames| == 1 ==> r == Frame(g, frames[0])
    decreases |frames|
  {
    if |frames| == 0 then g else Run(Frame(g, frames[0]), frames[1..])
  }

  /** Running two stretches of frames one after the other is running them joined. */
  lemma {:induction false} RunConcat(g: SnakeGame, first: seq<FrameInput>, second: seq<FrameInput>)
    requires SpawnsInGrid(first) && SpawnsInGrid(second)
    ensures SpawnsInGrid(first + second)
    ensures Run(g, first + second) == Run(Run(g, first), second)
    decreases |first|
  {
    if |first| > 0 {
      assert (first + second)[0] == first[0];
      assert (first + second)[1..] == first[1..] + second;
      RunConcat(Frame(g, first[0]), first[1..], second);
    } else {
      assert first + second == second;
    }
  }
}
