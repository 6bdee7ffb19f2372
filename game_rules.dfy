/**
 * The rules of the game as functions of the game's state: one function per
 * operation of the Game (the class in module Games performs each of them in
 * place and is proved to agree with it), and the properties the game relies
 * on, proved as lemmas about these functions.
 *
 * Time is counted in whole milliseconds.
 */
module GameRules {
  import opened Options
  import opened Snakes

  /** Milliseconds between two forced moves of the snake (0.1 s). */
  const MovingPeriod: nat := 100
  /** Milliseconds the game-over screen stays before the game restarts (1.0 s). */
  const RestartTime: nat := 1000

  /** Where every game starts: the snake's origin and the first food cell. */
  const SnakeStartX: int := 2
  const SnakeStartY: int := 2
  const FoodStartX: int := 6
  const FoodStartY: int := 4

  /** The keys the game tells apart; every other key is `Other`. */
  datatype Key = ArrowUp | ArrowDown | ArrowLeft | ArrowRight | Other(code: int)

  /** The direction an arrow key asks for; no direction for any other key. */
  function KeyDirection(key: Key): (dir: Option<Direction>)
    ensures dir.None? <==> key.Other?
  {
    match key
    case ArrowUp => Some(Up)
    case ArrowDown => Some(Down)
    case ArrowLeft => Some(Left)
    case ArrowRight => Some(Right)
    case Other(_) => None
  }

  /** Everything a Game holds, as one value. */
  datatype GameState = GameState(
    snake: Snake,
    foodExists: bool,
    foodX: int,
    foodY: int,
    width: int,
    height: int,
    gameOver: bool,
    waitingTime: nat)

  function Food(g: GameState): Cell {
    (g.foodX, g.foodY)
  }

  /** The cells strictly inside the border ring of a width x height board. */
  predicate Interior(width: int, height: int, c: Cell) {
    1 <= c.0 <= width - 2 && 1 <= c.1 <= height - 2
  }

  /**
   * The game's invariant: a well-formed snake of at least two segments, and
   * food, when there is some, never on the snake.
   */
  predicate Inv(g: GameState) {
    g.snake.WellFormed() && |g.snake.body| >= 2 &&
    (g.foodExists ==> Food(g) !in g.snake.body)
  }

  /** A new game on a width x height board. */
  function InitialState(width: int, height: int): (g: GameState)
    ensures Inv(g)
    ensures !g.gameOver && g.waitingTime == 0 && g.foodExists
  {
    GameState(NewSnake(SnakeStartX, SnakeStartY), true, FoodStartX, FoodStartY,
              width, height, false, 0)
  }

  /**
   * check_if_snake_alive: the snake survives a move with request `dir` exactly
   * when its next head is an interior cell that is not part of its body.
   */
  function SnakeAlive(g: GameState, dir: Option<Direction>): (alive: bool)
    requires |g.snake.body| >= 1
    ensures alive <==>
      Interior(g.width, g.height, g.snake.NextHead(dir)) && g.snake.NextHead(dir) !in g.snake.body
  {
    var (nextX, nextY) := g.snake.NextHead(dir);
    if g.snake.OverlapTail(nextX, nextY) then false
    else nextX > 0 && nextY > 0 && nextX < g.width - 1 && nextY < g.height - 1
  }

  /** check_eating: a head on existing food eats it and the snake grows. */
  function Eaten(g: GameState): (r: GameState)
    requires |g.snake.body| >= 1 && g.snake.tail.Some?
    ensures r.gameOver == g.gameOver && r.waitingTime == g.waitingTime && Food(r) == Food(g)
    ensures r.width == g.width && r.height == g.height
    ensures |g.snake.body| <= |r.snake.body| && r.snake.body[..|g.snake.body|] == g.snake.body
  {
    var (headX, headY) := g.snake.HeadPosition();
    if g.foodExists && g.foodX == headX && g.foodY == headY then
      g.(foodExists := false, snake := g.snake.RestoreTail())
    else
      g
  }

  /** update_snake: one tick of the snake with request `dir`. */
  function Ticked(g: GameState, dir: Option<Direction>): (r: GameState)
    requires |g.snake.body| >= 1
    ensures r.gameOver <==> g.gameOver || !SnakeAlive(g, dir)
    ensures r.width == g.width && r.height == g.height
  {
    if SnakeAlive(g, dir) then
      Eaten(g.(snake := g.snake.MoveForward(dir))).(waitingTime := 0)
    else
      g.(gameOver := true, waitingTime := 0)
  }

  /** restart: the snake, the food, the timer and the game-over flag are put back. */
  function Restarted(g: GameState): (r: GameState)
    ensures Inv(r) && !r.gameOver && r.waitingTime == 0
    ensures r.width == g.width && r.height == g.height
  {
    g.(snake := NewSnake(SnakeStartX, SnakeStartY), waitingTime := 0, foodExists := true,
       foodX := FoodStartX, foodY := FoodStartY, gameOver := false)
  }

  /**
   * What add_food needs of the random cells it draws: each lies inside the
   * border ring, and at least one of them is free of the snake.
   */
  predicate FoodDraws(g: GameState, draws: seq<Cell>) {
    (forall i :: 0 <= i < |draws| ==> Interior(g.width, g.height, draws[i])) &&
    exists i :: 0 <= i < |draws| && draws[i] !in g.snake.body
  }

  /** The index of the first drawn cell that is not on the body. */
  function FirstFree(body: seq<Cell>, draws: seq<Cell>): (i: nat)
    requires exists k :: 0 <= k < |draws| && draws[k] !in body
    ensures i < |draws| && draws[i] !in body
    ensures forall j :: 0 <= j < i ==> draws[j] in body
  {
    if draws[0] !in body then
      0
    else
      assert forall k :: 1 <= k < |draws| ==> draws[1..][k - 1] == draws[k];
      1 + FirstFree(body, draws[1..])
  }

  /** add_food: the food goes to the first drawn cell that is free of the snake. */
  function Fed(g: GameState, draws: seq<Cell>): (r: GameState)
    requires FoodDraws(g, draws)
    ensures r.foodExists && Interior(r.width, r.height, Food(r)) && Food(r) !in r.snake.body
    ensures r == g.(foodExists := true, foodX := r.foodX, foodY := r.foodY)
  {
    var c := draws[FirstFree(g.snake.body, draws)];
    g.(foodX := c.0, foodY := c.1, foodExists := true)
  }

  /**
   * key_pressed: the state after a key press, or None where the source
   * unwraps the direction of a key that has none and panics.
   */
  function AfterKey(g: GameState, key: Key): (r: Option<GameState>)
    requires |g.snake.body| >= 1
    ensures r.None? <==> !g.gameOver && key.Other?
    ensures r.Some? ==> r.value.width == g.width && r.value.height == g.height
  {
    if g.gameOver then
      Some(g)
    else
      match KeyDirection(key)
      case None => None
      case Some(d) =>
        if d == g.snake.HeadDirection().Opposite() then Some(g) else Some(Ticked(g, Some(d)))
  }

  /** What update needs: random draws for add_food when it will place food. */
  predicate UpdateDraws(g: GameState, draws: seq<Cell>) {
    !g.gameOver && !g.foodExists ==> FoodDraws(g, draws)
  }

  /** update: `delta` milliseconds pass. */
  function AfterUpdate(g: GameState, delta: nat, draws: seq<Cell>): (r: GameState)
    requires |g.snake.body| >= 1
    requires UpdateDraws(g, draws)
    ensures r.waitingTime == 0 || r.waitingTime == g.waitingTime + delta
    ensures r.width == g.width && r.height == g.height
  {
    var timed := g.(waitingTime := g.waitingTime + delta);
    if timed.gameOver then
      if timed.waitingTime > RestartTime then Restarted(timed) else timed
    else
      var fed := if !timed.foodExists then Fed(timed, draws) else timed;
      if fed.waitingTime > MovingPeriod then Ticked(fed, None) else fed
  }

  // ---------------------------------------------------------------------------
  // The invariant is established by a new game and kept by every operation.

  /** Restarting puts back exactly the state a new game on the same board starts in. */
  lemma RestartIsNewGame(g: GameState)
    ensures Restarted(g) == InitialState(g.width, g.height)
    ensures Inv(Restarted(g))
  {
  }

  lemma TickedKeepsInv(g: GameState, dir: Option<Direction>)
    requires Inv(g)
    ensures Inv(Ticked(g, dir))
  {
    if SnakeAlive(g, dir) {
      var s := g.snake;
      var moved := s.MoveForward(dir);
      MoveForwardWellFormed(s, dir);
      var (headX, headY) := moved.HeadPosition();
      if g.foodExists && g.foodX == headX && g.foodY == headY {
        GrowthWellFormed(s, dir);
      } else if g.foodExists {
        forall i | 0 <= i < |moved.body|
          ensures moved.body[i] != Food(g)
        {
          if i > 0 {
            assert moved.body[i] == s.body[i - 1];
          }
        }
      }
    }
  }

  lemma FedKeepsInv(g: GameState, draws: seq<Cell>)
    requires Inv(g) && FoodDraws(g, draws)
    ensures Inv(Fed(g, draws))
  {
  }

  lemma AfterKeyKeepsInv(g: GameState, key: Key)
    requires Inv(g)
    ensures AfterKey(g, key).Some? ==> Inv(AfterKey(g, key).value)
  {
    if !g.gameOver && KeyDirection(key).Some? {
      TickedKeepsInv(g, KeyDirection(key));
    }
  }

  lemma AfterUpdateKeepsInv(g: GameState, delta: nat, draws: seq<Cell>)
    requires Inv(g) && UpdateDraws(g, draws)
    ensures Inv(AfterUpdate(g, delta, draws))
  {
  }

  // ---------------------------------------------------------------------------
  // key_pressed

  /** While the game is over, no key changes anything. */
  lemma KeyIgnoredWhileOver(g: GameState, key: Key)
    requires |g.snake.body| >= 1 && g.gameOver
    ensures AfterKey(g, key) == Some(g)
  {
  }

  /** A key asking to reverse the heading is dropped: no move and no timer reset. */
  lemma ReversalIgnored(g: GameState, key: Key)
    requires |g.snake.body| >= 1 && !g.gameOver
    requires KeyDirection(key) == Some(g.snake.direction.Opposite())
    ensures AfterKey(g, key) == Some(g)
  {
  }

  /** Any key other than an arrow, pressed during play, makes the source panic. */
  lemma NonArrowKeyPanics(g: GameState, code: int)
    requires |g.snake.body| >= 1 && !g.gameOver
    ensures AfterKey(g, Other(code)) == None
  {
  }

  /** Any other arrow key moves the snake at once, as a tick in that direction. */
  lemma TurnTicks(g: GameState, key: Key, d: Direction)
    requires |g.snake.body| >= 1 && !g.gameOver
    requires KeyDirection(key) == Some(d) && d != g.snake.direction.Opposite()
    ensures AfterKey(g, key) == Some(Ticked(g, Some(d)))
    ensures AfterKey(g, key).value.waitingTime == 0
  {
  }

  /**
   * Why reversals are dropped: in a game that keeps its invariant, a reversal
   * would put the head on the snake's own second segment and end the game.
   */
  lemma ReversalWouldEndGame(g: GameState)
    requires Inv(g)
    ensures !SnakeAlive(g, Some(g.snake.direction.Opposite()))
    ensures Ticked(g, Some(g.snake.direction.Opposite())).gameOver
  {
    ReversalHitsNeck(g.snake);
  }

  // ---------------------------------------------------------------------------
  // update_snake and check_eating

  /** Every tick resets the timer, whether the snake survives or not. */
  lemma TickResetsTimer(g: GameState, dir: Option<Direction>)
    requires |g.snake.body| >= 1
    ensures Ticked(g, dir).waitingTime == 0
    ensures Ticked(g, dir).width == g.width && Ticked(g, dir).height == g.height
  {
  }

  /**
   * A next head on or outside the border ring, or on the body, ends the game
   * and leaves the snake and the food as they were.
   */
  lemma CollisionEndsGame(g: GameState, dir: Option<Direction>)
    requires |g.snake.body| >= 1
    requires !Interior(g.width, g.height, g.snake.NextHead(dir)) || g.snake.NextHead(dir) in g.snake.body
    ensures Ticked(g, dir) == g.(gameOver := true, waitingTime := 0)
    ensures Ticked(g, dir).gameOver && Ticked(g, dir).snake == g.snake
    ensures Ticked(g, dir).foodExists == g.foodExists && Food(Ticked(g, dir)) == Food(g)
  {
  }

  /**
   * A next head strictly inside and free moves the snake there and keeps the
   * game going; the body either slithers (same length) or, when the new head
   * is on the food, grows by the old tail and the food is gone. Nothing else
   * changes.
   */
  lemma SafeMoveAdvances(g: GameState, dir: Option<Direction>)
    requires |g.snake.body| >= 1
    requires Interior(g.width, g.height, g.snake.NextHead(dir)) && g.snake.NextHead(dir) !in g.snake.body
    ensures var r := Ticked(g, dir);
      var ate := g.foodExists && Food(g) == g.snake.NextHead(dir);
      r.gameOver == g.gameOver && r.waitingTime == 0 &&
      r.width == g.width && r.height == g.height && Food(r) == Food(g) &&
      r.snake.HeadPosition() == g.snake.NextHead(dir) &&
      r.snake.direction == g.snake.Heading(dir) &&
      (ate ==> !r.foodExists && r.snake.body == [g.snake.NextHead(dir)] + g.snake.body) &&
      (!ate ==> r.foodExists == g.foodExists &&
                r.snake.body == [g.snake.NextHead(dir)] + g.snake.body[..|g.snake.body| - 1])
  {
  }

  /**
   * check_eating: with food under the head, the food is used up and the body
   * grows by exactly the remembered tail cell; otherwise nothing changes.
   */
  lemma EatingGrowsByOne(g: GameState)
    requires |g.snake.body| >= 1 && g.snake.tail.Some?
    ensures g.foodExists && Food(g) == g.snake.HeadPosition() ==>
      var r := Eaten(g);
      !r.foodExists && r.snake.body == g.snake.body + [g.snake.tail.value] &&
      |r.snake.body| == |g.snake.body| + 1 && r.snake.direction == g.snake.direction &&
      r == g.(foodExists := false, snake := r.snake)
    ensures !(g.foodExists && Food(g) == g.snake.HeadPosition()) ==> Eaten(g) == g
  {
  }

  // ---------------------------------------------------------------------------
  // add_food and update

  /** add_food takes the first free cell among those drawn; earlier draws were on the snake. */
  lemma FedTakesFirstFreeDraw(g: GameState, draws: seq<Cell>)
    requires FoodDraws(g, draws)
    ensures exists i :: (0 <= i < |draws| && Food(Fed(g, draws)) == draws[i] &&
                         forall j :: 0 <= j < i ==> draws[j] in g.snake.body)
  {
  }

  /** The interior cells of columns 1 .. cols on row y. */
  ghost function RowCells(y: int, cols: nat): (cells: set<Cell>)
    ensures forall c :: c in cells <==> c.1 == y && 1 <= c.0 <= cols
    ensures |cells| == cols
  {
    if cols == 0 then {} else RowCells(y, cols - 1) + {(cols, y)}
  }

  /** The interior cells of rows 1 .. rows, each row holding columns 1 .. cols. */
  ghost function GridCells(cols: nat, rows: nat): (cells: set<Cell>)
    ensures forall c :: c in cells <==> 1 <= c.0 <= cols && 1 <= c.1 <= rows
    ensures |cells| == cols * rows
  {
    if rows == 0 then
      {}
    else
      var below := GridCells(cols, rows - 1);
      var row := RowCells(rows, cols);
      assert below * row == {};
      assert |below + row| == |below| + |row|;
      below + row
  }

  /** A sequence holds at most as many different cells as it is long. */
  lemma {:induction false} CellsOfSeq(cells: seq<Cell>)
    ensures |set c | c in cells| <= |cells|
  {
    if cells != [] {
      CellsOfSeq(cells[1..]);
      var rest := set c | c in cells[1..];
      assert (set c | c in cells) == rest + {cells[0]};
    }
  }

  /** A set larger than another has an element outside it. */
  lemma ElementOutside(larger: set<Cell>, smaller: set<Cell>)
    requires |smaller| < |larger|
    ensures exists c :: c in larger && c !in smaller
  {
    var inside := larger * smaller;
    assert smaller == inside + (smaller - larger);
    assert larger == inside + (larger - smaller);
    assert |larger - smaller| > 0;
    var c :| c in larger - smaller;
  }

  /**
   * While the snake is shorter than the number of interior cells, some
   * interior cell is free, so add_food's rejection sampling has a cell to find.
   */
  lemma RoomForFood(g: GameState)
    requires g.width >= 2 && g.height >= 2
    requires |g.snake.body| < (g.width - 2) * (g.height - 2)
    ensures exists c :: Interior(g.width, g.height, c) && c !in g.snake.body
  {
    var grid := GridCells(g.width - 2, g.height - 2);
    var occupied := set c | c in g.snake.body;
    CellsOfSeq(g.snake.body);
    ElementOutside(grid, occupied);
    var c :| c in grid && c !in occupied;
    assert Interior(g.width, g.height, c);
  }

  /**
   * While the game is over, update only lets time pass, and restarts exactly
   * when the accumulated time exceeds RestartTime.
   */
  lemma UpdateWhileOver(g: GameState, delta: nat, draws: seq<Cell>)
    requires |g.snake.body| >= 1 && g.gameOver
    ensures g.waitingTime + delta > RestartTime ==>
      AfterUpdate(g, delta, draws) == InitialState(g.width, g.height)
    ensures g.waitingTime + delta <= RestartTime ==>
      AfterUpdate(g, delta, draws) == g.(waitingTime := g.waitingTime + delta)
  {
  }

  /**
   * During play, update first puts food on the board if there is none, and
   * forces a tick exactly when the accumulated time exceeds MovingPeriod;
   * otherwise the snake stays where it is and the time accumulates.
   */
  lemma UpdateWhilePlaying(g: GameState, delta: nat, draws: seq<Cell>)
    requires |g.snake.body| >= 1 && !g.gameOver && UpdateDraws(g, draws)
    ensures var fed := if g.foodExists then g.(waitingTime := g.waitingTime + delta)
                       else Fed(g.(waitingTime := g.waitingTime + delta), draws);
      var r := AfterUpdate(g, delta, draws);
      (g.waitingTime + delta > MovingPeriod ==> r == Ticked(fed, None) && r.waitingTime == 0) &&
      (g.waitingTime + delta <= MovingPeriod ==>
        r == fed && r.snake == g.snake && !r.gameOver && r.foodExists &&
        r.waitingTime == g.waitingTime + delta)
  {
  }

  // ---------------------------------------------------------------------------
  // Two worked examples.

  /**
   * A new 10 x 10 game whose first frame lasts 150 ms: the forced tick moves
   * the head from (2, 2) to (3, 2), the length stays 3 and the timer is reset.
   */
  lemma FirstForcedTick()
    ensures var r := AfterUpdate(InitialState(10, 10), 150, []);
      r.snake.HeadPosition() == (3, 2) && |r.snake.body| == 3 &&
      r.waitingTime == 0 && !r.gameOver && r.foodExists && Food(r) == (6, 4)
  {
  }

  /**
   * A game that has just ended stays over after 500 ms and restarts, as a new
   * game, once another 600 ms have passed.
   */
  lemma RestartAfterDelay(g: GameState, draws: seq<Cell>)
    requires |g.snake.body| >= 1 && g.gameOver && g.waitingTime == 0
    ensures AfterUpdate(g, 500, draws).gameOver
    ensures AfterUpdate(AfterUpdate(g, 500, draws), 600, draws) == InitialState(g.width, g.height)
  {
  }
}
