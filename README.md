# Snake game engine in Dafny

A model of the game-state engine of a Swing snake game, with proofs of its
invariants. A game is played on a board of 20 by 20 cells. It has a snake,
which is a list of cells with the head first, one cell of food, a direction,
a score and a `running` flag. A timer calls `move` at a fixed interval that
depends on the difficulty level. Key presses steer the snake or restart a
finished game. Each move shifts the head by one cell. The move either ends
the game on a collision, or grows the snake (on food) or drops its tail.
When a game ends, its score goes to the `GameManager`, which keeps the best
score.

Files and modules:

- `grid.dfy` (`Grid`): the board constants, `Point`, `Direction`,
  `Opposite`, `Shift`, bounds, and a count of the board's cells (400).
- `difficulty.dfy` (`Difficulties`): the four difficulty levels with their
  delays and names.
- `game_manager.dfy` (`Manager`): the high-score rule as a function, and the
  class `GameManager` that holds `highScore`.
- `random.dfy` (`JavaRandom`): the random generator, modelled as a fixed
  stream of values plus a counter of calls made.
- `snake_rules.dfy` (`SnakeRules`): the rules as functions on values. This
  covers key mapping, the no-reverse rule, the next head, collisions, how the
  body advances, and the cells that food placement proposes.
- `snake_game.dfy` (`Game`): the class `SnakeGame`. Its fields are changed in
  place, as in the source. Each method is specified in terms of
  `SnakeRules`.
- `scenarios.dfy` (`Scenarios`): client methods that replay the repository's
  game tests. They are proved from the class contracts alone.
- `wrappers.dfy` (`Wrappers`): `Option`.

Modelling choices:

- The body is a `seq<Point>` field. The method reassigns it where the source
  calls `add(0, …)` and `remove(size - 1)`.
- `SnakeGame.Valid()` is the object invariant. The body is non-empty, every
  segment is on the board, no two segments overlap, each segment lies next
  to the one behind it, `score == |snake| - 1`, and the timer interval is
  the level's delay. Every point of score lengthens the snake by exactly
  one segment. So the score stays below 400 and Java's `int` cannot
  overflow here (`SnakeRules.LengthAtMostCells`, stated by `Valid`'s own
  contract).
- `java.util.Random` is a parameter object. It holds an arbitrary raw stream
  `source: nat -> int` and a call counter. The k-th `nextInt(bound)` returns
  the k-th raw value reduced into `[0, bound)`.
- `spawnFood` keeps its retry loop. The loop ends only if the stream proposes
  a free cell at some point. That condition (`EventuallyFree`) is the
  precondition of every operation that places food.
  `SnakeRules.FairStreamFindsFreeCell` shows that a fair stream meets it
  whenever the board has a free cell. `SnakeRules.FullBoardStarves` shows
  that nothing meets it once the snake fills the board. That is the endless
  loop the source accepts.
- `move` does not check `running`; only the timer callback `actionPerformed`
  does. `Move` follows the code here. Calling it after a collision collides
  again, and the score is reported to the manager again. The manager ignores
  that repeat.
- The Swing timer is a flag, `timerRunning`. `startGame` starts it, and
  `gameOver` and ESC stop it. Its interval is the field `timerDelay`, which `startGame` sets to `Delay(difficulty)`; the object invariant keeps it there. ESC's call
  `gameManager.showStartMenu()` is recorded as the flag `returnedToMenu`.
- The direction is the datatype `Direction` instead of a string.

Two behaviours of the code are easy to misread, and the model follows the code:

- `handleKeyPress` (`SnakeGame.java:261-285`) never reads `running`: the
  direction keys steer a finished game as well as a running one.
- The Javadoc of `loadHighScore` (`GameManager.java:62-68`) promises a
  record of 0 when the file "contains errors", but the method
  (`GameManager.java:69-76`) catches only `IOException`. A record that is
  not a number, or a numeral outside Java's `int` range, makes
  `Integer.parseInt` throw `NumberFormatException` out of the constructor.
  That case is not modelled: `GameManager.constructor` takes a value that
  was already read, or `None` when the file is missing or unreadable.

## Model

| member | source | states |
|---|---|---|
| Grid.Opposite | src/main/java/SnakeGame.java:263-285 | the pairs of directions the key handler treats as reverses; no direction is its own opposite |
| Grid.OppositeIsInvolution | src/main/java/SnakeGame.java:263-285 | the reverse of the reverse is the original direction |
| Grid.Center | src/main/java/SnakeGame.java:217-219 | the start cell (BOARD_WIDTH/2, BOARD_HEIGHT/2) is (10, 10) and lies on the board |
| Grid.Shift | src/main/java/SnakeGame.java:313-326 | UP and DOWN keep x, LEFT and RIGHT keep y; DOWN and RIGHT add 1 to the moving coordinate, UP and LEFT subtract 1 |
| Grid.ShiftOppositeReturns | src/main/java/SnakeGame.java:313-326 | a step followed by a step in the opposite direction returns to the starting cell |
| Grid.ShiftInjective | src/main/java/SnakeGame.java:313-326 | two directions lead to the same neighbour exactly when they are the same direction |
| Grid.Cells | src/main/java/SnakeGame.java:34-38 | the board's cells are exactly the points in [0,20) x [0,20) |
| Grid.CellCount | src/main/java/SnakeGame.java:34-38 | the board has exactly 20 * 20 = 400 cells |
| Grid.Occupied | src/main/java/SnakeGame.java:244 | the set of cells a body occupies holds exactly its segments and has at most as many elements |
| Grid.FreeCellExists | src/main/java/SnakeGame.java:239-246 | fewer than 400 points always leave a cell of the board free |
| Difficulties.Levels | src/main/java/Difficulty.java:13-22 | there are exactly four levels |
| Difficulties.Ordinal | src/main/java/Difficulty.java:13-22 | each level sits at its declaration position in the list of levels |
| Difficulties.Delay | src/main/java/Difficulty.java:46-48 | every delay lies between 40 and 150 ms |
| Difficulties.Name | src/main/java/Difficulty.java:55-57 | every name is non-empty |
| Difficulties.Table | src/main/java/Difficulty.java:13-22 | EASY is 150 ms "Easy", NORMAL 100 ms "Normal", HARD 70 ms "Hard", EXTREME 40 ms "Extreme" |
| Difficulties.DelayPositive | src/main/java/Difficulty.java:13-22 | every delay is positive |
| Difficulties.DelaysStrictlyDecrease | src/main/java/Difficulty.java:4-5 | a level comes later in declaration order exactly when its delay is strictly smaller (a harder level is faster) |
| Difficulties.TableInjective | src/main/java/Difficulty.java:13-22 | no two levels share a delay or a name |
| Manager.NextHighScore | src/main/java/GameManager.java:88-90 | the new record is the maximum of the old record and the score: at least both and equal to one; a score that is not higher changes nothing |
| Manager.AfterGamesIsUpperBound | src/main/java/GameManager.java:159-161 | after any run of game-overs the record is at least the starting record and at least every score reported |
| Manager.AfterGamesIsAttained | src/main/java/GameManager.java:159-161 | after any run of game-overs the record is the starting record or one of the reported scores |
| Manager.NextHighScoreIdempotent | src/main/java/GameManager.java:88-90 | reporting the same score twice leaves the same record as reporting it once |
| Manager.ReportedScoresExample | src/test/java/GameManagerTest.java:38-47 | from 0, the scores 10, 5, 20 leave the record at 10, 10, 20 |
| Manager.NewHighScoreNeverShown | src/main/java/SnakeGame.java:446-451 | as written, the game-over screen's "NEW HIGH SCORE!" test is false for every score and every previous record |
| Manager.NewHighScoreShownIffRecordRaised | src/main/java/SnakeGame.java:446-451 | the corrected test holds exactly when the game over raised the record, and then the record is the final score |
| Manager.GameManager.constructor | src/main/java/GameManager.java:69-76 | the record starts at the stored value, or at 0 when no record can be read |
| Manager.GameManager.SaveHighScore | src/main/java/GameManager.java:88-90 | the record becomes NextHighScore(old record, score); it never decreases and a score that is not higher leaves it unchanged |
| Manager.GameManager.GameOver | src/main/java/GameManager.java:159-161 | the record becomes the maximum of the old record and the score |
| Manager.GameManager.GetHighScore | src/main/java/GameManager.java:168-170 | returns the current record |
| Manager.ReportedScoresScenario | src/test/java/GameManagerTest.java:32-47 | a new manager with no saved record, after gameOver(10), gameOver(5), gameOver(20), reports 10, 10, 20 |
| JavaRandom.Random.constructor | src/main/java/SnakeGame.java:94-99 | the generator handed to the game is a fixed raw stream of which no value has been drawn yet |
| JavaRandom.Random.Value | src/main/java/SnakeGame.java:242-243 | what the k-th nextInt(bound) call returns lies in [0, bound) |
| JavaRandom.Random.NextInt | src/main/java/SnakeGame.java:242-243 | nextInt(bound) returns the next value of the stream, in [0, bound), and advances the stream by one call |
| SnakeRules.KeyDirection | src/main/java/SnakeGame.java:263-285 | UP/W ask for Up, DOWN/S for Down, LEFT/A for Left, RIGHT/D for Right, and no other key asks for a direction |
| SnakeRules.Steer | src/main/java/SnakeGame.java:263-285 | the wanted direction is taken exactly when it is not the opposite of the current one; otherwise the current one stays; the result is never the reverse of the current direction |
| SnakeRules.SteerIdempotent | src/main/java/SnakeGame.java:263-285 | pressing the same direction key twice gives the same direction as pressing it once |
| SnakeRules.LengthAtMostCells | src/main/java/SnakeGame.java:328-341 | a well-formed body has at most 400 segments, so the score (length minus one) fits in an int |
| SnakeRules.NextHead | src/main/java/SnakeGame.java:310-326 | the new head lies one cell from the current head, sharing a side with it |
| SnakeRules.Collides | src/main/java/SnakeGame.java:328-329 | a move collides when the new head leaves the board or lands on any segment, the tail included (the tail has not moved when the check is made) |
| SnakeRules.Advance | src/main/java/SnakeGame.java:334-341 | after a move without collision the head is the new head, every other segment takes the cell of the one before it, and the length grows by one exactly when the new head is the food |
| SnakeRules.AdvancePreservesWellFormed | src/main/java/SnakeGame.java:328-341 | a move without collision keeps every segment on the board, all segments distinct and the length at least one |
| SnakeRules.AdvancePreservesConnected | src/main/java/SnakeGame.java:334-341 | a move keeps each segment next to the one behind it |
| SnakeRules.AdvanceKeepsFoodClear | src/main/java/SnakeGame.java:334-341 | food off the body that the head does not reach stays off the body |
| SnakeRules.SingleSegmentHitsOnlyWalls | src/main/java/SnakeGame.java:328-329 | a one-segment snake collides exactly when its new head leaves the board |
| SnakeRules.ReversingHitsNeck | src/main/java/SnakeGame.java:263-285 | a snake of two or more segments whose head lies in direction c from its neck would collide if it moved in the opposite of c |
| SnakeRules.DrawAt | src/main/java/SnakeGame.java:241-244 | each cell spawnFood proposes (x drawn first, then y) lies on the board |
| SnakeRules.SpawnedIsFree | src/main/java/SnakeGame.java:239-246 | the food spawnFood settles on is on the board and off the body |
| SnakeRules.SpawnedIsUnique | src/main/java/SnakeGame.java:239-246 | for a given stream and body the retry loop has exactly one outcome: the first free proposal |
| SnakeRules.FairStreamFindsFreeCell | src/main/java/SnakeGame.java:239-246 | with a fair generator the retry loop ends whenever the body leaves a cell free |
| SnakeRules.FullBoardStarves | src/main/java/SnakeGame.java:239-246 | when the body covers the whole board no proposal is ever free, so the retry loop never ends |
| Game.SnakeGame.Valid | src/main/java/SnakeGame.java:309-342 | the invariant every operation keeps: a well-formed, connected body, the score equal to the length minus one, the timer at the level's delay; it bounds the score below 400, so `score++` cannot overflow Java's int |
| Game.SnakeGame.constructor | src/main/java/SnakeGame.java:94-121 | a new game is started at once: one segment at (10, 10), heading right, score 0, running, timer started at the level's delay, food on a free cell |
| Game.SnakeGame.StartGame | src/main/java/SnakeGame.java:217-230 | resets to one segment at the centre, direction Right, score 0, running, timer started at the level's delay; the food is the first free cell the stream proposes |
| SnakeRules.MissedOneMore | src/main/java/SnakeGame.java:239-246 | an occupied proposal extends the run of failed attempts, and a later free proposal still lies ahead, so the retry loop makes progress |
| Game.SnakeGame.SpawnFood | src/main/java/SnakeGame.java:239-246 | the retry loop ends with the food on the board, off the body, at the first free proposal of the stream |
| Game.SnakeGame.DrawCell | src/main/java/SnakeGame.java:242-243 | one attempt draws x then y from the next two calls of the stream, and proposes the cell DrawAt gives for them |
| Game.SnakeGame.HandleKeyPress | src/main/java/SnakeGame.java:261-299 | direction keys apply Steer, running or not, and change nothing else; SPACE restarts exactly when the game is over and changes nothing otherwise; ESC stops the timer and returns to the menu; other keys change nothing |
| Game.SnakeGame.GameOver | src/main/java/SnakeGame.java:351-358 | the game and its timer stop and the manager's record becomes the maximum of the old record and the score |
| Game.SnakeGame.Move | src/main/java/SnakeGame.java:309-342 | keeps Valid(); on a collision the game stops, the body, score and food stay and the collision persists; otherwise the body is Advance(old body); on food the score and the length rise by one and new food is spawned off the longer body; without food the score, length and food stay; food clear of the body stays clear |
| Game.SnakeGame.ActionPerformed | src/main/java/SnakeGame.java:370-375 | a tick changes nothing when the game is over; while it runs, the game stops exactly when the move collides and the timer stops with it, the direction and the menu flag stay, the body, score, food and generator follow Move (food spawned off the longer body on eating, kept otherwise), and food clear of the body stays clear |
| Game.SnakeGame.GetScore | src/main/java/SnakeGame.java:128-130 | returns the score, which equals the body length minus one |
| Game.SnakeGame.IsRunning | src/main/java/SnakeGame.java:137-139 | returns the running flag |
| Game.SnakeGame.GetDirection | src/main/java/SnakeGame.java:146-148 | returns the direction |
| Game.SnakeGame.GetSnake | src/main/java/SnakeGame.java:155-157 | returns a copy of the body, which is well formed |
| Game.SnakeGame.GetFood | src/main/java/SnakeGame.java:164-166 | returns the food cell |
| Game.SnakeGame.SetDirection | src/main/java/SnakeGame.java:191-193 | sets the direction without the no-reverse check |
| Game.SnakeGame.SetFood | src/main/java/SnakeGame.java:200-202 | puts the food on any cell |
| Scenarios.InitializationScenario | src/test/java/SnakeGameTest.java:21-40 | a new game runs with score 0, heading right, with the single segment (10, 10) and food on the board elsewhere |
| Scenarios.FoodEatingScenario | src/test/java/SnakeGameTest.java:72-96 | a move onto food put in front of the head gives score 1 and length 2 |
| Scenarios.WallCollisionScenario | src/test/java/SnakeGameTest.java:98-108 | heading left, 20 moves end the game, and it ends on the 11th move |
| Scenarios.SelfCollisionScenario | src/test/java/SnakeGameTest.java:131-157 | four pieces of food make a snake of five segments, and turning down, left, up, right ends the game wherever the random food falls |

## Findings

| source | as written | input that shows it | evidently intended | confidence | as-written member | corrected member |
|---|---|---|---|---|---|---|
| src/main/java/SnakeGame.java:446 | the game-over screen shows "NEW HIGH SCORE!" when `score > gameManager.getHighScore()`, but `gameOver()` has already passed the score to the manager, which raised the record to at least the score | record 0, final score 5: the record is 5 when the screen is painted, and 5 > 5 is false | show the message when the final score beat the record held before the game ended | not executed | Manager.NewHighScoreNeverShown | Manager.NewHighScoreShownIffRecordRaised |

## Left out

- Rendering is not modelled: `paintComponent`, the font loading, the panel size and the colours. The one rendering test that depends on game state is under "## Findings".
- The timer is not modelled: the Swing `Timer` scheduling and the `KeyAdapter` wiring. Ticks and key presses are method calls, and the timer is reduced to the flag `timerRunning` and its interval `timerDelay`.
- ESC's screen switch is not modelled. It is recorded only as the flag `returnedToMenu`.
- The music clip is not modelled. `gameOver` in the source stops `musicClip`, a field that nothing ever assigns.
- The distribution of `java.util.Random` is not modelled. The generator is an arbitrary stream, and only the range of `nextInt` is kept.
- The two-argument `SnakeGame` constructor is left out. It only supplies `new Random()` to the three-argument one, which is modelled.
- `getBoardWidth` and `getBoardHeight` are the constants `Grid.Width` and `Grid.Height`.
- Any direction string other than the four names is out of scope. In the source, `setDirection` accepts any string. With an unknown string, `move` leaves the head in place and the game ends at once as a self-collision. The model's `Direction` type has only the four values.
- `GameManager`: the frame, the screens (`showStartMenu`, `startGame`) and the music are not modelled. Neither is the file I/O in `loadHighScore` and `saveHighScore`. The loaded value is a constructor parameter, and saving only updates the in-memory `highScore`.
- `GameManager.constructor`: does not model the `NumberFormatException` that `Integer.parseInt` raises for a stored record that is not a number or is a numeral outside Java's `int` range (below -2147483648 or above 2147483647). The `Option<int>` parameter accepts any mathematical integer, so the model takes such an out-of-range value as the record where the source would throw.
- `StartMenu.java`, `MusicPlayer.java` and `Main.java` are not part of this model. They are Swing layout, audio and the program's entry point.
