/**
 * Clients of SnakeGame that replay the game tests of the repository
 * (SnakeGameTest), proved from the contracts of the class alone. The tests
 * use a real generator; here the generator is only assumed fair, so the food
 * may fall anywhere free, and each scenario holds wherever it falls.
 */
module Scenarios {
  import opened Grid
  import opened Difficulties
  import opened Manager
  import opened JavaRandom
  import opened SnakeRules
  import opened Game

  /** Gives the next move of `game` the food placement it may need. */
  lemma FairMovePossible(game: SnakeGame)
    requires game.Valid() && Fair(game.random) && |game.snake| + 1 < Width * Height
    ensures game.GrowthCanSpawn()
  {
    FairStreamFindsFreeCell(game.random, game.random.calls, [NextHead(game.snake, game.direction)] + game.snake);
  }

  /** A new game: running, score 0, heading right, one segment at the centre, food on the board. */
  method InitializationScenario(manager: GameManager, random: Random)
    returns (running: bool, score: int, direction: Direction, body: seq<Point>, food: Point)
    requires Fair(random)
    modifies random
    ensures running && score == 0 && direction == Right
    ensures body == [Point(10, 10)]
    ensures InBounds(food) && food != Point(10, 10)
  {
    FairStreamFindsFreeCell(random, random.calls, [Center()]);
    var game := new SnakeGame(manager, Normal, random);
    running := game.IsRunning();
    score := game.GetScore();
    direction := game.GetDirection();
    body := game.GetSnake();
    food := game.GetFood();
  }

  /** Food put right in front of the head is eaten: the score rises by one and the snake grows by one. */
  method FoodEatingScenario(manager: GameManager, random: Random) returns (score: int, length: nat)
    requires Fair(random)
    modifies manager, random
    ensures score == 1 && length == 2
  {
    FairStreamFindsFreeCell(random, random.calls, [Center()]);
    var game := new SnakeGame(manager, Normal, random);
    var head := game.snake[0];
    game.SetFood(Point(head.x + 1, head.y));
    FairMovePossible(game);
    game.Move();
    score := game.GetScore();
    var body := game.GetSnake();
    length := |body|;
  }

  /**
   * Steering left and moving Width times: the head walks from x = 10 to x = 0,
   * and the eleventh move runs into the left wall and ends the game.
   */
  method WallCollisionScenario(manager: GameManager, random: Random) returns (runningAfter: bool, endedOnMove: nat)
    requires Fair(random)
    modifies manager, random
    ensures !runningAfter && endedOnMove == 11
  {
    FairStreamFindsFreeCell(random, random.calls, [Center()]);
    var game := new SnakeGame(manager, Normal, random);
    game.SetDirection(Left);
    endedOnMove := 0;
    var i := 0;
    while i < Width
      invariant 0 <= i <= Width
      invariant game.Valid() && game.direction == Left && game.random == random
      invariant |game.snake| <= i + 1
      invariant forall k :: 0 <= k < |game.snake| ==> game.snake[k] == Point((if i <= 10 then 10 - i else 0) + k, 10)
      invariant game.running <==> i <= 10
      invariant endedOnMove == (if i <= 10 then 0 else 11)
    {
      FairMovePossible(game);
      var before := game.IsRunning();
      game.Move();
      i := i + 1;
      var after := game.IsRunning();
      if before && !after {
        endedOnMove := i;
      }
    }
    runningAfter := game.IsRunning();
  }

  /** Feeds a fresh game four times straight ahead (the food is put in front of the head each time). */
  method GrowStraight(game: SnakeGame)
    requires game.Valid() && Fair(game.random) && game.running && game.direction == Right
    requires game.snake == [Point(10, 10)]
    modifies game, game.random, game.manager
    ensures game.Valid() && game.running && game.direction == Right
    ensures |game.snake| == 5 && forall k :: 0 <= k < 5 ==> game.snake[k] == Point(14 - k, 10)
  {
    var i := 0;
    while i < 4
      invariant 0 <= i <= 4
      invariant game.Valid() && game.running && game.direction == Right
      invariant |game.snake| == i + 1
      invariant forall k :: 0 <= k < |game.snake| ==> game.snake[k] == Point(10 + i - k, 10)
    {
      var head := game.snake[0];
      game.SetFood(Point(head.x + 1, head.y));
      FairMovePossible(game);
      game.Move();
      i := i + 1;
    }
  }

  /** Turns down, then left: the head ends up beside its own body. */
  method CurlDownLeft(game: SnakeGame)
    requires game.Valid() && Fair(game.random) && game.running
    requires |game.snake| == 5 && forall k :: 0 <= k < 5 ==> game.snake[k] == Point(14 - k, 10)
    modifies game, game.random, game.manager
    ensures game.Valid() && game.running && 5 <= |game.snake| <= 7
    ensures game.snake[0] == Point(13, 11) && game.snake[1] == Point(14, 11) && game.snake[3] == Point(13, 10)
  {
    ghost var straight := game.snake;
    game.SetDirection(Down);
    FairMovePossible(game);
    game.Move();
    ghost var afterDown := game.snake;
    assert game.running && afterDown[0] == Point(14, 11);
    assert forall k :: 1 <= k < |afterDown| ==> afterDown[k] == straight[k - 1];

    game.SetDirection(Left);
    FairMovePossible(game);
    assert Point(13, 11) !in game.snake;
    game.Move();
    assert game.snake[3] == afterDown[2] == straight[1];
  }

  /**
   * Four pieces of food straight ahead make a snake of five segments; turning
   * down, left and up then runs the head into its own body, and a further
   * move to the right collides again.
   */
  method SelfCollisionScenario(manager: GameManager, random: Random) returns (length: nat, runningAfter: bool)
    requires Fair(random)
    modifies manager, random
    ensures length == 5 && !runningAfter
  {
    FairStreamFindsFreeCell(random, random.calls, [Center()]);
    var game := new SnakeGame(manager, Normal, random);
    GrowStraight(game);
    var body := game.GetSnake();
    length := |body|;

    CurlDownLeft(game);

    game.SetDirection(Up);
    FairMovePossible(game);
    game.Move();
    assert !game.running && game.snake[1] == Point(14, 11);

    game.SetDirection(Right);
    FairMovePossible(game);
    game.Move();
    runningAfter := game.IsRunning();
  }
}
