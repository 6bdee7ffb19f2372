/**
 * The Game of src/game.rs: the board, the food, the game-over flag and the
 * frame timer, changed in place by key presses and by the frame updates of
 * the window's event loop. Each method is proved to perform the matching rule
 * of module GameRules and to keep the game's invariant.
 */
module Games {
  import opened Options
  import opened Snakes
  import opened GameRules

  class Game {
    var snake: Snake
    var foodExists: bool
    var foodX: int
    var foodY: int
    const width: int
    const height: int
    var gameOver: bool
    /** Milliseconds since the last tick, or since the game ended. */
    var waitingTime: nat

    /** The fields as one value. */
    function State(): GameState
      reads this
    {
      GameState(snake, foodExists, foodX, foodY, width, height, gameOver, waitingTime)
    }

    predicate Valid()
      reads this
    {
      Inv(State())
    }

    /** new: a fresh game on a width x height board. */
    constructor (width: int, height: int)
      ensures Valid()
      ensures State() == InitialState(width, height)
    {
      snake := NewSnake(SnakeStartX, SnakeStartY);
      waitingTime := 0;
      foodExists := true;
      foodX := FoodStartX;
      foodY := FoodStartY;
      this.width := width;
      this.height := height;
      gameOver := false;
    }

    /**
     * key_pressed. `panicked` reports the source's panic on a key that is not
     * an arrow during play; nothing has changed by then.
     */
    method KeyPressed(key: Key) returns (panicked: bool)
      requires Valid()
      modifies this
      ensures Valid()
      ensures panicked <==> AfterKey(old(State()), key).None?
      ensures panicked ==> State() == old(State())
      ensures !panicked ==> AfterKey(old(State()), key) == Some(State())
    {
      panicked := false;
      if gameOver {
        return;
      }
      var dir := KeyDirection(key);
      if dir.None? {
        panicked := true;
        return;
      }
      if dir.value == snake.HeadDirection().Opposite() {
        return;
      }
      UpdateSnake(dir);
    }

    /**
     * update: `delta` milliseconds have passed. `draws` are the random cells
     * add_food draws, in order, if it is called.
     */
    method Update(delta: nat, draws: seq<Cell>)
      requires Valid()
      requires UpdateDraws(State(), draws)
      modifies this
      ensures Valid()
      ensures State() == AfterUpdate(old(State()), delta, draws)
    {
      waitingTime := waitingTime + delta;
      if gameOver {
        if waitingTime > RestartTime {
          Restart();
        }
        return;
      }
      if !foodExists {
        AddFood(draws);
      }
      if waitingTime > MovingPeriod {
        UpdateSnake(None);
      }
    }

    /** check_eating, right after a move. */
    method CheckEating()
      requires |snake.body| >= 1 && snake.tail.Some?
      modifies this
      ensures State() == Eaten(old(State()))
    {
      var (headX, headY) := snake.HeadPosition();
      if foodExists && foodX == headX && foodY == headY {
        foodExists := false;
        snake := snake.RestoreTail();
      }
    }

    /** add_food: rejection sampling over the drawn cells until one is free. */
    method AddFood(draws: seq<Cell>)
      requires Valid()
      requires FoodDraws(State(), draws)
      modifies this
      ensures Valid()
      ensures State() == Fed(old(State()), draws)
    {
      var i := 0;
      var newX, newY := draws[0].0, draws[0].1;
      while snake.OverlapTail(newX, newY)
        invariant 0 <= i < |draws| && (newX, newY) == draws[i]
        invariant forall j :: 0 <= j < i ==> draws[j] in snake.body
        invariant exists k :: i <= k < |draws| && draws[k] !in snake.body
        decreases |draws| - i
      {
        i := i + 1;
        newX, newY := draws[i].0, draws[i].1;
      }
      foodX := newX;
      foodY := newY;
      foodExists := true;
      assert i == FirstFree(old(snake).body, draws);
    }

    /** update_snake: one tick, on a key press or when the timer runs out. */
    method UpdateSnake(dir: Option<Direction>)
      requires Valid()
      modifies this
      ensures Valid()
      ensures State() == Ticked(old(State()), dir)
    {
      if SnakeAlive(State(), dir) {
        snake := snake.MoveForward(dir);
        CheckEating();
      } else {
        gameOver := true;
      }
      waitingTime := 0;
      TickedKeepsInv(old(State()), dir);
    }

    /** restart: back to the state of a new game. */
    method Restart()
      modifies this
      ensures Valid()
      ensures State() == Restarted(old(State()))
    {
      snake := NewSnake(SnakeStartX, SnakeStartY);
      waitingTime := 0;
      foodExists := true;
      foodX := FoodStartX;
      foodY := FoodStartY;
      gameOver := false;
      RestartIsNewGame(old(State()));
    }
  }
}
