/**
 * The best-score part of the session controller: the in-memory high score,
 * its initial value and the rule that updates it when a game ends.
 */
module Manager {
  import opened Wrappers

  /**
   * The high score after a game that ended with the given score: the score
   * replaces the record only when it is strictly greater.
   */
  function NextHighScore(highScore: int, score: int): (r: int)
    ensures r >= highScore && r >= score
    ensures r == highScore || r == score
    ensures score <= highScore ==> r == highScore
  {
    if score > highScore then score else highScore
  }

  /** The high score after a run of games that ended with the given scores, in order. */
  function AfterGames(highScore: int, scores: seq<int>): (r: int)
    decreases |scores|
  {
    if scores == [] then highScore else AfterGames(NextHighScore(highScore, scores[0]), scores[1..])
  }

  /** After any run of games the record is at least every score reported and at least the old record. */
  lemma {:induction false} AfterGamesIsUpperBound(highScore: int, scores: seq<int>)
    ensures AfterGames(highScore, scores) >= highScore
    ensures forall i :: 0 <= i < |scores| ==> AfterGames(highScore, scores) >= scores[i]
    decreases |scores|
  {
    if scores != [] {
      var next := NextHighScore(highScore, scores[0]);
      AfterGamesIsUpperBound(next, scores[1..]);
      forall i | 0 <= i < |scores|
        ensures AfterGames(highScore, scores) >= scores[i]
      {
        if i > 0 {
          assert scores[i] == scores[1..][i - 1];
        }
      }
    }
  }

  /** ... and it is one of them: the old record or a reported score. Together: it is their maximum. */
  lemma {:induction false} AfterGamesIsAttained(highScore: int, scores: seq<int>)
    ensures AfterGames(highScore, scores) == highScore || AfterGames(highScore, scores) in scores
    decreases |scores|
  {
    if scores != [] {
      var next := NextHighScore(highScore, scores[0]);
      AfterGamesIsAttained(next, scores[1..]);
      var r := AfterGames(next, scores[1..]);
      if r != next {
        assert r in scores[1..];
      }
    }
  }

  /** Reporting a score twice changes the record no more than reporting it once. */
  lemma NextHighScoreIdempotent(highScore: int, score: int)
    ensures NextHighScore(NextHighScore(highScore, score), score) == NextHighScore(highScore, score)
  {
  }

  /** The record after gameOver(10), gameOver(5), gameOver(20), starting from no record. */
  lemma ReportedScoresExample()
    ensures NextHighScore(0, 10) == 10
    ensures NextHighScore(NextHighScore(0, 10), 5) == 10
    ensures NextHighScore(NextHighScore(NextHighScore(0, 10), 5), 20) == 20
    ensures AfterGames(0, [10, 5, 20]) == 20
  {
  }

  /**
   * The "NEW HIGH SCORE!" test of the game-over screen as written: it compares
   * the final score with the high score read after the game-over hand-off.
   */
  predicate ShowsNewHighScoreAsWritten(highScoreBefore: int, score: int)
  {
    score > NextHighScore(highScoreBefore, score)
  }

  /** As written the message can never appear, not even when the game did set a record. */
  lemma NewHighScoreNeverShown(highScoreBefore: int, score: int)
    ensures !ShowsNewHighScoreAsWritten(highScoreBefore, score)
  {
  }

  /** The evidently intended test: compare with the high score from before the game ended. */
  predicate ShowsNewHighScore(highScoreBefore: int, score: int)
  {
    score > highScoreBefore
  }

  /** The intended message appears exactly when the game over raised the record. */
  lemma NewHighScoreShownIffRecordRaised(highScoreBefore: int, score: int)
    ensures ShowsNewHighScore(highScoreBefore, score) <==> NextHighScore(highScoreBefore, score) > highScoreBefore
    ensures ShowsNewHighScore(highScoreBefore, score) ==> NextHighScore(highScoreBefore, score) == score
  {
  }

  class GameManager {
    /** The best score known to this process (highScore). */
    var highScore: int

    /**
     * Creation, with the high-score record read from storage: None stands for
     * a missing or unreadable file, which leaves the record at 0.
     */
    constructor (stored: Option<int>)
      ensures highScore == (if stored.Some? then stored.value else 0)
    {
      highScore := if stored.Some? then stored.value else 0;
    }

    /** Raises the record to the reported score when it is strictly greater (saveHighScore). */
    method SaveHighScore(score: int)
      modifies this
      ensures highScore == NextHighScore(old(highScore), score)
      ensures highScore >= old(highScore)
      ensures score <= old(highScore) ==> highScore == old(highScore)
    {
      if score > highScore {
        highScore := score;
      }
    }

    /** A finished game hands its final score over (gameOver). */
    method GameOver(score: int)
      modifies this
      ensures highScore == NextHighScore(old(highScore), score)
      ensures highScore >= old(highScore) && highScore >= score
    {
      SaveHighScore(score);
    }

    method GetHighScore() returns (h: int)
      ensures h == highScore
    {
      h := highScore;
    }
  }

  /** With no saved record, gameOver(10), gameOver(5), gameOver(20) leave the record at 10, 10, 20. */
  method ReportedScoresScenario() returns (first: int, second: int, third: int)
    ensures first == 10 && second == 10 && third == 20
  {
    var manager := new GameManager(None);
    assert manager.highScore == 0;
    manager.GameOver(10);
    first := manager.GetHighScore();
    manager.GameOver(5);
    second := manager.GetHighScore();
    manager.GameOver(20);
    third := manager.GetHighScore();
  }
}
