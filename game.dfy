/**
 * The game object of snake.py: the fields SnakeGame updates in place and the
 * methods that update them. Each method's new state is tied to the functions
 * of module Rules; Valid() is the invariant of Rules.Invariant.
 */
module Snake {
  import opened Wrappers
  import opened Grid
  import opened Rules

  class SnakeGame {
    var snake: seq<Point>
    var direction: Point
    var food: Option<Point>
    var score: int
    var speed: int
    var running: bool

    /** The fields as a game record. */
    function Model(): Game
      reads this
    {
      Game(snake, direction, food, score, speed, running)
    }

    ghost predicate Valid()
      reads this
    {
      Invariant(Model())
    }

    /** __init__: reset the game, then start it, which runs the first tick at once. */
    constructor ()
      ensures Valid() && running && Restarted(Model())
    {
      snake, direction, food := [], RIGHT, None;
      score, speed, running := 0, INITIAL_SPEED, false;
      new;
      ghost var prior := Model();
      ResetGame();
      ghost var f0 := food;
      running := true;
      Start();
      assert FoodPlacedOn(InitialSnake(), f0) && TickTo(Reset(prior, f0).(running := true), Model());
      RestartTick(Model());
    }

    method ResetGame()
      modifies this
      ensures Model() == Reset(old(Model()), food)
      ensures FoodPlacedOn(InitialSnake(), food)
      ensures Valid()
    {
      direction := RIGHT;
      snake := InitialSnake();
      speed := INITIAL_SPEED;
      score := 0;
      PlaceFood();
    }

    /** Sets the running flag and runs the loop once, which moves the snake. */
    method Start()
      requires Valid()
      modifies this
      ensures Valid()
      ensures TickTo(old(Model()).(running := true), Model())
    {
      running := true;
      Loop();
    }

    method Stop()
      requires Valid()
      modifies this`running
      ensures Valid()
      ensures Model() == old(Model()).(running := false)
    {
      running := false;
    }

    /** One firing of the timer: a move when the game is running, nothing otherwise. */
    method Loop()
      requires Valid()
      modifies this
      ensures Valid()
      ensures if old(running) then TickTo(old(Model()), Model()) else Model() == old(Model())
    {
      if !running {
        return;
      }
      MoveSnake();
    }

    /** Picks any cell the snake leaves free, or no food when there is none. */
    method PlaceFood()
      modifies this`food
      ensures FoodPlacedOn(snake, food)
    {
      var free := FreeCells(snake);
      if free == {} {
        food := None;
        return;
      }
      var cell :| cell in free;
      food := Some(cell);
    }

    method MoveSnake()
      requires Valid()
      modifies this
      ensures Valid()
      ensures TickTo(old(Model()), Model())
    {
      ghost var before := Model();
      var head := snake[0];
      var newHead := Point(head.x + direction.x, head.y + direction.y);

      if !InBounds(newHead) {
        GameOver();
        TickPreservesInvariant(before, Model());
        return;
      }

      if newHead in snake {
        GameOver();
        TickPreservesInvariant(before, Model());
        return;
      }

      snake := [newHead] + snake;

      if food.Some? && newHead == food.value {
        score := score + 1;
        speed := SpeedUp(speed);
        PlaceFood();
      } else {
        snake := snake[..|snake| - 1];
      }
      TickPreservesInvariant(before, Model());
    }

    /**
     * A key press: "r" resets and starts, "space" stops or starts, a mapped
     * direction key steers unless it reverses, any other key does nothing.
     */
    method OnKey(keysym: string)
      requires Valid()
      modifies this
      ensures Valid()
      ensures Lower(keysym) == "r" ==> Restarted(Model()) && running
      ensures Lower(keysym) == "space" && old(running) ==> Model() == old(Model()).(running := false)
      ensures Lower(keysym) == "space" && !old(running) ==> TickTo(old(Model()).(running := true), Model())
      ensures KeyDirection(Lower(keysym)).Some? ==>
        Model() == old(Model()).(direction := Steer(old(direction), KeyDirection(Lower(keysym)).value))
      ensures Lower(keysym) != "r" && Lower(keysym) != "space" && KeyDirection(Lower(keysym)).None? ==>
        Model() == old(Model())
    {
      var key := Lower(keysym);
      if key == "r" {
        ResetGame();
        ghost var f0 := food;
        Start();
        assert FoodPlacedOn(InitialSnake(), f0) && TickTo(Reset(old(Model()), f0).(running := true), Model());
        RestartTick(Model());
        return;
      }
      if key == "space" {
        if running {
          Stop();
        } else {
          Start();
        }
        return;
      }
      var requested := KeyDirection(key);
      if requested.Some? {
        var newDir := requested.value;
        if Negate(newDir) != direction {
          direction := newDir;
        }
      }
    }

    method GameOver()
      requires Valid()
      modifies this`running
      ensures Valid()
      ensures Model() == old(Model()).(running := false)
    {
      Stop();
    }
  }
}
