/**
 * The game-state engine: one game of snake on the 20 x 20 board. The object
 * owns the body of the snake (head first), the food cell, the direction, the
 * score and the running flag, and changes them in place on every key press
 * and every timer tick. The timer and the return to the menu are kept as two
 * flags; the best score lives in the GameManager the game reports to.
 */
module Game {
  import opened Grid
  import opened Difficulties
  import opened Manager
  import opened JavaRandom
  import opened SnakeRules

  class SnakeGame {
    /** The manager that receives the final score (gameManager). */
    const manager: GameManager

    /** The level the game was started with; its delay is the timer interval. */
    const difficulty: Difficulty

    /** The generator food cells are drawn from. */
    const random: Random

    /** The body of the snake, head first (snake). */
    var snake: seq<Point>

    /** The food cell (food). */
    var food: Point

    /** The direction of the next move (direction). */
    var direction: Direction

    /** The game is in progress; false once a move has collided (running). */
    var running: bool

    /** Pieces of food eaten (score). */
    var score: int

    /** The tick timer has been started and not stopped since. */
    var timerRunning: bool

    /** The interval of the tick timer in milliseconds, taken from the level at each start. */
    var timerDelay: int

    /** ESC asked the manager to show the start menu. */
    var returnedToMenu: bool

    /**
     * The object invariant: the body is well formed and each segment lies next
     * to the one before it, every point of the score grew the snake by one
     * segment, so the score is the length minus one, and the timer ticks at
     * the delay of the chosen level.
     */
    ghost predicate Valid()
      reads this
      ensures Valid() ==> 0 <= score < Width * Height
    {
      WellFormed(snake) && (LengthAtMostCells(snake);
      Connected(snake) && score == |snake| - 1 && timerDelay == Delay(difficulty))
    }

    /** The food is on the board and off the body (the setFood test hook can break this). */
    ghost predicate FoodClear()
      reads this
    {
      InBounds(food) && food !in snake
    }

    /** The next move, when it eats, is followed by a food placement that finishes. */
    ghost predicate GrowthCanSpawn()
      reads this, random
      requires |snake| > 0
    {
      var head := NextHead(snake, direction);
      !Collides(snake, direction) && head == food ==> EventuallyFree(random, random.calls, [head] + snake)
    }

    /** The generator's stream lets a restart place its food. */
    ghost predicate RestartCanSpawn()
      reads this, random
    {
      EventuallyFree(random, random.calls, [Center()])
    }

    /** A new game (the constructor taking a generator); it starts at once. */
    constructor (manager: GameManager, difficulty: Difficulty, random: Random)
      requires EventuallyFree(random, random.calls, [Center()])
      modifies random
      ensures this.manager == manager && this.difficulty == difficulty && this.random == random
      ensures Valid() && FoodClear()
      ensures snake == [Center()] && direction == Right && score == 0
      ensures running && timerRunning && timerDelay == Delay(difficulty) && !returnedToMenu
      ensures Spawned(random, old(random.calls), random.calls, [Center()], food)
    {
      this.manager := manager;
      this.difficulty := difficulty;
      this.random := random;
      snake := [Center()];
      food := Center();
      direction := Right;
      running := false;
      score := 0;
      timerRunning := false;
      timerDelay := Delay(difficulty);
      returnedToMenu := false;
      new;
      StartGame();
    }

    /**
     * Resets the game (startGame): one segment at the centre, heading right,
     * score 0, food on a free cell, running, with a fresh timer started at
     * the delay of the level.
     */
    method StartGame()
      requires EventuallyFree(random, random.calls, [Center()])
      modifies this, random
      ensures Valid() && FoodClear()
      ensures snake == [Center()] && direction == Right && score == 0
      ensures running && timerRunning && timerDelay == Delay(difficulty) && returnedToMenu == old(returnedToMenu)
      ensures Spawned(random, old(random.calls), random.calls, [Center()], food)
    {
      snake := [Center()];
      direction := Right;
      score := 0;
      SpawnFood();
      running := true;
      timerDelay := Delay(difficulty);
      timerRunning := true;
    }

    /**
     * Places the food (spawnFood): draws x, then y, and draws again while the
     * cell is occupied. The loop ends only if the stream proposes a free cell
     * eventually, hence the precondition.
     */
    method SpawnFood()
      requires EventuallyFree(random, random.calls, snake)
      modifies this`food, random
      ensures InBounds(food) && food !in snake
      ensures Spawned(random, old(random.calls), random.calls, snake, food)
    {
      ghost var from := random.calls;
      ghost var n: nat :| DrawAt(random, from, n) !in snake;
      var x, y := DrawCell();
      ghost var j: nat := 0;
      while Point(x, y) in snake
        invariant random.calls == from + 2 * j + 2
        invariant Point(x, y) == DrawAt(random, from, j)
        invariant forall i :: 0 <= i < j ==> DrawAt(random, from, i) in snake
        invariant j <= n
        decreases n - j
      {
        MissedOneMore(random, from, snake, j, n);
        DrawAtLater(random, from, j);
        x, y := DrawCell();
        j := j + 1;
      }
      SpawnedAtFirstFree(random, from, snake, j);
      food := Point(x, y);
    }

    /** One attempt of spawnFood: x = nextInt(BOARD_WIDTH), then y = nextInt(BOARD_HEIGHT). */
    method DrawCell() returns (x: int, y: int)
      modifies random
      ensures Point(x, y) == DrawAt(random, old(random.calls), 0)
      ensures random.calls == old(random.calls) + 2
    {
      x := random.NextInt(Width);
      y := random.NextInt(Height);
    }

    /**
     * A key press (handleKeyPress). Arrow keys and W/A/S/D steer under the
     * no-reverse rule, whether or not the game is running; SPACE restarts a
     * finished game and is ignored while it runs; ESC stops the timer and
     * returns to the menu; every other key is ignored.
     */
    method HandleKeyPress(keyCode: int)
      requires Valid()
      requires keyCode == KeySpace && !running ==> RestartCanSpawn()
      modifies this, random
      ensures Valid()
      ensures KeyDirection(keyCode).Some? ==>
        direction == Steer(old(direction), KeyDirection(keyCode).value) &&
        snake == old(snake) && food == old(food) && score == old(score) && running == old(running) &&
        timerRunning == old(timerRunning) && returnedToMenu == old(returnedToMenu) && unchanged(random)
      ensures keyCode == KeySpace && !old(running) ==>
        snake == [Center()] && direction == Right && score == 0 && running && timerRunning &&
        FoodClear() && returnedToMenu == old(returnedToMenu) &&
        Spawned(random, old(random.calls), random.calls, [Center()], food)
      ensures keyCode == KeySpace && old(running) ==> unchanged(this) && unchanged(random)
      ensures keyCode == KeyEscape ==>
        !timerRunning && returnedToMenu &&
        snake == old(snake) && food == old(food) && direction == old(direction) && score == old(score) &&
        running == old(running) && unchanged(random)
      ensures KeyDirection(keyCode).None? && keyCode != KeySpace && keyCode != KeyEscape ==>
        unchanged(this) && unchanged(random)
    {
      var wanted := KeyDirection(keyCode);
      if wanted.Some? {
        direction := Steer(direction, wanted.value);
      } else if keyCode == KeySpace {
        if !running {
          StartGame();
        }
      } else if keyCode == KeyEscape {
        timerRunning := false;
        returnedToMenu := true;
      }
    }

    /** Ends the game (gameOver): stops the game and its timer and reports the score. */
    method GameOver()
      modifies this`running, this`timerRunning, manager
      ensures !running && !timerRunning
      ensures manager.highScore == NextHighScore(old(manager.highScore), score)
    {
      running := false;
      timerRunning := false;
      manager.GameOver(score);
    }

    /**
     * One step of the snake (move). On a collision the game is over and
     * nothing else changes, so a further call collides again. Otherwise the
     * body advances; on the food it grows, the score rises by one and new
     * food is placed clear of the longer body. The running flag is not
     * consulted: only the timer callback checks it.
     */
    method Move()
      requires Valid()
      requires GrowthCanSpawn()
      modifies this, random, manager
      ensures Valid()
      ensures direction == old(direction) && returnedToMenu == old(returnedToMenu)
      ensures old(Collides(snake, direction)) ==>
        !running && !timerRunning &&
        snake == old(snake) && score == old(score) && food == old(food) && unchanged(random) &&
        manager.highScore == NextHighScore(old(manager.highScore), score) &&
        Collides(snake, direction)
      ensures !old(Collides(snake, direction)) ==>
        snake == Advance(old(snake), direction, old(food)) &&
        running == old(running) && timerRunning == old(timerRunning) &&
        manager.highScore == old(manager.highScore)
      ensures !old(Collides(snake, direction)) && old(NextHead(snake, direction)) == old(food) ==>
        score == old(score) + 1 && |snake| == old(|snake|) + 1 &&
        Spawned(random, old(random.calls), random.calls, snake, food)
      ensures !old(Collides(snake, direction)) && old(NextHead(snake, direction)) != old(food) ==>
        score == old(score) && |snake| == old(|snake|) && food == old(food) && unchanged(random)
      ensures old(FoodClear()) ==> FoodClear()
    {
      var head := snake[0];
      var newHead := Shift(head, direction);

      if !InBounds(newHead) || newHead in snake {
        GameOver();
        return;
      }

      AdvancePreservesWellFormed(snake, direction, food);
      AdvancePreservesConnected(snake, direction, food);
      if food !in snake && newHead != food {
        AdvanceKeepsFoodClear(snake, direction, food);
      }
      snake := [newHead] + snake;

      if newHead == food {
        score := score + 1;
        SpawnFood();
      } else {
        snake := snake[..|snake| - 1];
      }
    }

    /** The timer callback (actionPerformed): a tick moves the snake only while the game runs. */
    method ActionPerformed()
      requires Valid()
      requires running ==> GrowthCanSpawn()
      modifies this, random, manager
      ensures Valid()
      ensures !old(running) ==> unchanged(this) && unchanged(random) && unchanged(manager)
      ensures old(running) ==> (running <==> !old(Collides(snake, direction)))
      ensures old(running) ==> direction == old(direction) && returnedToMenu == old(returnedToMenu)
      ensures old(running) && old(Collides(snake, direction)) ==>
        !timerRunning && snake == old(snake) && score == old(score) && food == old(food) && unchanged(random) &&
        manager.highScore == NextHighScore(old(manager.highScore), score)
      ensures old(running) && !old(Collides(snake, direction)) ==>
        snake == Advance(old(snake), direction, old(food)) && manager.highScore == old(manager.highScore) &&
        timerRunning == old(timerRunning) &&
        score == old(score) + (if old(NextHead(snake, direction)) == old(food) then 1 else 0)
      ensures old(running) && !old(Collides(snake, direction)) && old(NextHead(snake, direction)) == old(food) ==>
        Spawned(random, old(random.calls), random.calls, snake, food)
      ensures old(running) && !old(Collides(snake, direction)) && old(NextHead(snake, direction)) != old(food) ==>
        food == old(food) && unchanged(random)
      ensures old(FoodClear()) ==> FoodClear()
    {
      if running {
        Move();
      }
    }

    method GetScore() returns (s: int)
      requires Valid()
      ensures s == score && s == |snake| - 1
    {
      s := score;
    }

    method IsRunning() returns (b: bool)
      ensures b == running
    {
      b := running;
    }

    method GetDirection() returns (d: Direction)
      ensures d == direction
    {
      d := direction;
    }

    /** A copy of the body: a value, so the caller cannot change the game through it. */
    method GetSnake() returns (s: seq<Point>)
      requires Valid()
      ensures s == snake && WellFormed(s)
    {
      s := snake;
    }

    method GetFood() returns (p: Point)
      ensures p == food
    {
      p := food;
    }

    /** Test hook: sets the direction with no no-reverse check (setDirection). */
    method SetDirection(d: Direction)
      modifies this`direction
      ensures direction == d
    {
      direction := d;
    }

    /** Test hook: puts the food on any cell, occupied or not (setFood). */
    method SetFood(p: Point)
      modifies this`food
      ensures food == p
    {
      food := p;
    }
  }
}
