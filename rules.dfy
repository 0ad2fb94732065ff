/**
 * The rules of the snake game as functions on a game record: the initial
 * state, one tick of movement, food placement, speed progression and the
 * key map. The class SnakeGame (module Snake) updates its fields exactly as
 * these functions say; the lemmas here state what the rules guarantee.
 */
module Rules {
  import opened Wrappers
  import opened Grid

  const INITIAL_SNAKE_LENGTH: int := 5
  const INITIAL_SPEED: int := 120  // milliseconds per move; lower is faster
  const SPEED_STEP: int := -3      // change of the move delay per food eaten
  const MIN_SPEED: int := 40

  const UP: Point := Point(0, -1)
  const DOWN: Point := Point(0, 1)
  const LEFT: Point := Point(-1, 0)
  const RIGHT: Point := Point(1, 0)

  predicate IsDirection(d: Point) {
    d == UP || d == DOWN || d == LEFT || d == RIGHT
  }

  /** The opposite step, each component multiplied by -1. */
  function Negate(d: Point): Point {
    Point(d.x * -1, d.y * -1)
  }

  /** The fields of the game object that the game logic reads and writes. */
  datatype Game = Game(
    snake: seq<Point>,   // head first, tail last
    direction: Point,
    food: Option<Point>,
    score: int,
    speed: int,          // delay between ticks
    running: bool)

  /** `food` is a possible outcome of placing food beside `snake`. */
  predicate FoodPlacedOn(snake: seq<Point>, food: Option<Point>) {
    if FreeCells(snake) == {} then food == None
    else food.Some? && food.value in FreeCells(snake)
  }

  /**
   * The properties every reachable game state has: a non-empty snake on the
   * board without overlap, food off the snake, a unit direction, and the
   * length, score and speed bookkeeping of the foods eaten so far.
   */
  ghost predicate Invariant(g: Game) {
    && |g.snake| > 0
    && InGrid(g.snake)
    && Distinct(g.snake)
    && (g.food.Some? ==> InBounds(g.food.value) && g.food.value !in g.snake)
    && IsDirection(g.direction)
    && g.score >= 0
    && |g.snake| == INITIAL_SNAKE_LENGTH + g.score
    && g.speed == SpeedAfter(g.score)
  }

  // ---------------------------------------------------------------- reset

  /** The snake the game starts with: centred on the board, facing right. */
  function InitialSnake(): (s: seq<Point>)
    ensures s == [Point(15, 10), Point(14, 10), Point(13, 10), Point(12, 10), Point(11, 10)]
  {
    seq(INITIAL_SNAKE_LENGTH, i => Point(GRID_WIDTH / 2 - i, GRID_HEIGHT / 2))
  }

  /**
   * The state after reset_game, which keeps only the running flag of the
   * prior state; `food` is the cell chosen by place_food.
   */
  function Reset(g: Game, food: Option<Point>): (r: Game)
    ensures FoodPlacedOn(InitialSnake(), food) ==> Invariant(r) && r.food.Some?
  {
    assert Point(0, 0) in FreeCells(InitialSnake());
    Game(InitialSnake(), RIGHT, food, 0, INITIAL_SPEED, g.running)
  }

  /**
   * A placed food lies on a free board cell, and there is no food exactly
   * when the snake fills all GRID_WIDTH * GRID_HEIGHT cells.
   */
  lemma PlacementNoneIffFull(snake: seq<Point>, food: Option<Point>)
    requires InGrid(snake) && Distinct(snake) && FoodPlacedOn(snake, food)
    ensures food.Some? ==> InBounds(food.value) && food.value !in snake
    ensures food == None <==> |snake| == GRID_WIDTH * GRID_HEIGHT
  {
    NoFreeCellIffFull(snake);
  }

  // ----------------------------------------------------------------- speed

  /** The delay after eating one food: one step shorter, but never below MIN_SPEED. */
  function SpeedUp(speed: int): (r: int)
    ensures r >= MIN_SPEED
    ensures r >= speed + SPEED_STEP
    ensures r == speed + SPEED_STEP || r == MIN_SPEED
    ensures speed >= MIN_SPEED ==> r <= speed
  {
    if MIN_SPEED >= speed + SPEED_STEP then MIN_SPEED else speed + SPEED_STEP
  }

  /** The delay once `eaten` foods have been eaten since the last reset. */
  function SpeedAfter(eaten: int): int {
    if MIN_SPEED >= INITIAL_SPEED + SPEED_STEP * eaten then MIN_SPEED
    else INITIAL_SPEED + SPEED_STEP * eaten
  }

  /** Each food eaten moves the delay one step along SpeedAfter, which stays in [40, 120]. */
  lemma SpeedAfterStep(eaten: int)
    requires eaten >= 0
    ensures SpeedUp(SpeedAfter(eaten)) == SpeedAfter(eaten + 1)
    ensures MIN_SPEED <= SpeedAfter(eaten + 1) <= SpeedAfter(eaten) <= INITIAL_SPEED
  {
  }

  // ------------------------------------------------------------------ move

  function NewHead(g: Game): Point
    requires |g.snake| > 0
  {
    Point(g.snake[0].x + g.direction.x, g.snake[0].y + g.direction.y)
  }

  /**
   * The new head hits a wall, or any cell of the current snake; the tail
   * cell counts although a plain step would vacate it.
   */
  predicate Collides(g: Game)
    requires |g.snake| > 0
  {
    !InBounds(NewHead(g)) || NewHead(g) in g.snake
  }

  predicate Eats(g: Game)
    requires |g.snake| > 0
  {
    !Collides(g) && g.food == Some(NewHead(g))
  }

  /**
   * One call of move_snake. `placed` is the food cell that place_food picks
   * when the snake eats; it is not used otherwise.
   */
  function Move(g: Game, placed: Option<Point>): (r: Game)
    requires |g.snake| > 0
    ensures r.direction == g.direction
    ensures Collides(g) ==> r == g.(running := false)
    ensures !Collides(g) ==> r.running == g.running && |r.snake| > 0 && r.snake[0] == NewHead(g) && r.snake[1..] <= g.snake
    ensures r.score - g.score == (if Eats(g) then 1 else 0)
    ensures |r.snake| - |g.snake| == r.score - g.score
    ensures r.speed == (if Eats(g) then SpeedUp(g.speed) else g.speed)
    ensures r.food == (if Eats(g) then placed else g.food)
  {
    var head := NewHead(g);
    if !InBounds(head) then g.(running := false)
    else if head in g.snake then g.(running := false)
    else if g.food == Some(head) then
      g.(snake := [head] + g.snake, score := g.score + 1, speed := SpeedUp(g.speed), food := placed)
    else
      g.(snake := [head] + g.snake[..|g.snake| - 1])
  }

  /** A plain step: the new head in front, the tail cell dropped, everything else kept. */
  lemma PlainStep(g: Game, placed: Option<Point>)
    requires |g.snake| > 0 && !Collides(g) && !Eats(g)
    ensures Move(g, placed) == g.(snake := [NewHead(g)] + g.snake[..|g.snake| - 1])
    ensures |Move(g, placed).snake| == |g.snake|
  {
  }

  /** Eating: the tail is kept, the score rises by one, the delay shrinks, food is placed anew. */
  lemma EatingStep(g: Game, placed: Option<Point>)
    requires |g.snake| > 0 && Eats(g)
    ensures Move(g, placed).snake == [NewHead(g)] + g.snake
    ensures Move(g, placed).score == g.score + 1
    ensures Move(g, placed).speed == if g.speed + SPEED_STEP < MIN_SPEED then MIN_SPEED else g.speed + SPEED_STEP
    ensures g.speed == INITIAL_SPEED ==> Move(g, placed).speed == 117
    ensures Move(g, placed).food == placed
  {
  }

  /** `b` is a state that one call of move_snake can produce from `a`. */
  predicate TickTo(a: Game, b: Game) {
    && |a.snake| > 0
    && b == Move(a, b.food)
    && (Eats(a) ==> FoodPlacedOn(b.snake, b.food))
  }

  /** One move keeps every property of Invariant. */
  lemma TickPreservesInvariant(a: Game, b: Game)
    requires Invariant(a) && TickTo(a, b)
    ensures Invariant(b)
  {
  }

  /**
   * Along any sequence of moves from a state with the invariant, every state
   * keeps it, the delay never grows and stays within [MIN_SPEED, INITIAL_SPEED],
   * and the snake grows by exactly the score gained.
   */
  lemma {:induction false} MovesKeepInvariant(gs: seq<Game>)
    requires |gs| > 0 && Invariant(gs[0])
    requires forall i :: 0 <= i < |gs| - 1 ==> TickTo(gs[i], gs[i + 1])
    ensures forall i :: 0 <= i < |gs| ==> Invariant(gs[i]) && MIN_SPEED <= gs[i].speed <= INITIAL_SPEED
    ensures forall i, j :: 0 <= i <= j < |gs| ==>
      gs[j].speed <= gs[i].speed && gs[i].score <= gs[j].score
      && gs[j].score - gs[i].score == |gs[j].snake| - |gs[i].snake|
  {
    if |gs| > 1 {
      var prefix := gs[..|gs| - 1];
      assert forall i :: 0 <= i < |prefix| ==> prefix[i] == gs[i];
      MovesKeepInvariant(prefix);
      var last := gs[|gs| - 1];
      TickPreservesInvariant(gs[|gs| - 2], last);
      forall i | 0 <= i < |gs| ensures MIN_SPEED <= gs[i].speed <= INITIAL_SPEED {
        SpeedAfterBounds(gs[i].score);
      }
      forall i | 0 <= i < |gs| - 1
        ensures last.speed <= gs[i].speed
      {
        MonotoneScoreSpeed(gs[i].score, last.score);
      }
    } else {
      SpeedAfterBounds(gs[0].score);
    }
  }

  /** reset_game yields the same state whatever the prior state, up to the running flag it keeps. */
  lemma ResetIsCanonical(g: Game, h: Game, food: Option<Point>)
    ensures Reset(g, food).(running := h.running) == Reset(h, food)
  {
  }

  lemma SpeedAfterBounds(eaten: int)
    requires eaten >= 0
    ensures MIN_SPEED <= SpeedAfter(eaten) <= INITIAL_SPEED
  {
  }

  lemma MonotoneScoreSpeed(m: int, n: int)
    requires 0 <= m <= n
    ensures SpeedAfter(n) <= SpeedAfter(m)
  {
  }

  // --------------------------------------------------------------- restart

  /**
   * `g` is a state that reset_game followed by start() can produce: a tick
   * from the reset state of some prior state, with the running flag set.
   */
  ghost predicate Restarted(g: Game) {
    exists prior: Game, f0: Option<Point> ::
      FoodPlacedOn(InitialSnake(), f0) && TickTo(Reset(prior, f0).(running := true), g)
  }

  /**
   * The tick that start() runs right after reset_game never collides: the
   * game is running with the head one cell right of the centre, and the
   * snake has grown by one exactly when the food lay on that cell.
   */
  lemma RestartTick(g: Game)
    requires Restarted(g)
    ensures Invariant(g) && g.running && g.direction == RIGHT
    ensures g.score == 0 ==>
      g.snake == [Point(16, 10), Point(15, 10), Point(14, 10), Point(13, 10), Point(12, 10)]
      && g.speed == 120
    ensures g.score != 0 ==>
      g.snake == [Point(16, 10), Point(15, 10), Point(14, 10), Point(13, 10), Point(12, 10), Point(11, 10)]
      && g.score == 1 && g.speed == 117
  {
    var prior, f0 :| FoodPlacedOn(InitialSnake(), f0) && TickTo(Reset(prior, f0).(running := true), g);
    var g0 := Reset(prior, f0).(running := true);
    assert NewHead(g0) == Point(16, 10);
    assert !Collides(g0);
    TickPreservesInvariant(g0, g);
  }

  /**
   * Resuming after a collision without steering first: start() runs the
   * same colliding tick at once, so the game is stopped again and nothing
   * else has changed.
   */
  lemma ResumeAfterCollision(a: Game, b: Game)
    requires Invariant(a) && Collides(a) && TickTo(a.(running := true), b)
    ensures !b.running && b == a.(running := false)
  {
  }

  // ------------------------------------------------------------------ keys

  function LowerChar(c: char): char {
    if 'A' <= c <= 'Z' then (c as int + 32) as char else c
  }

  /** The key name in lower case; key names are ASCII. */
  function Lower(s: string): (r: string)
    ensures |r| == |s|
    ensures forall i :: 0 <= i < |s| ==> r[i] == LowerChar(s[i])
    ensures forall i :: 0 <= i < |r| ==> !('A' <= r[i] <= 'Z')
  {
    if s == [] then [] else [LowerChar(s[0])] + Lower(s[1..])
  }

  /** The direction map of on_key: the arrow keys and w, a, s, d. */
  function KeyDirection(key: string): (d: Option<Point>)
    ensures d.Some? ==> IsDirection(d.value)
    ensures key == "r" || key == "space" ==> d == None
  {
    if key == "up" || key == "w" then Some(UP)
    else if key == "down" || key == "s" then Some(DOWN)
    else if key == "left" || key == "a" then Some(LEFT)
    else if key == "right" || key == "d" then Some(RIGHT)
    else None
  }

  /**
   * The reversal guard: the requested direction, unless it is the exact
   * opposite of the current one. For unit directions, one key press never
   * turns the snake back on itself and is honoured whenever it is not a
   * reversal.
   */
  function Steer(current: Point, requested: Point): (r: Point)
    ensures r == requested || r == current
    ensures r == requested <==> Negate(requested) != current || requested == current
    ensures IsDirection(current) && IsDirection(requested) ==>
      IsDirection(r) && r != Negate(current)
  {
    if Negate(requested) != current then requested else current
  }

  /**
   * Two key presses between ticks do reverse the snake: from the initial
   * state, up then left turns it into its own neck, and the next tick
   * ends the game.
   */
  lemma TwoKeysHitNeck(prior: Game, food: Option<Point>)
    ensures Steer(Steer(RIGHT, UP), LEFT) == Negate(RIGHT)
    ensures Collides(Reset(prior, food).(direction := Steer(Steer(RIGHT, UP), LEFT)))
  {
    var g := Reset(prior, food).(direction := LEFT);
    assert NewHead(g) == g.snake[1];
  }

  /**
   * Moving onto the current tail cell ends the game, although a plain step
   * would have vacated that cell.
   */
  lemma TailCellCollides(g: Game, placed: Option<Point>)
    requires |g.snake| > 0 && NewHead(g) == g.snake[|g.snake| - 1]
    ensures Collides(g) && Move(g, placed) == g.(running := false)
  {
  }

  /** A reachable state, one food eaten, whose next tick runs into the tail cell. */
  lemma TailCollisionReachable()
    ensures var g := Game([Point(0, 1), Point(1, 1), Point(2, 1), Point(2, 0), Point(1, 0), Point(0, 0)],
                          UP, None, 1, 117, true);
      Invariant(g) && NewHead(g) == g.snake[|g.snake| - 1] && !Move(g, None).running
  {
    var g := Game([Point(0, 1), Point(1, 1), Point(2, 1), Point(2, 0), Point(1, 0), Point(0, 0)],
                  UP, None, 1, 117, true);
    TailCellCollides(g, None);
  }

  /** The key names the game reacts to, as Tk reports them, lower-cased. */
  lemma LowerKeys()
    ensures Lower("Up") == "up" && Lower("R") == "r" && Lower("space") == "space" && Lower("W") == "w"
  {
  }
}
