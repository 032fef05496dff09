/**
 * The fixed table of difficulty levels. Each level pairs the delay between two
 * moves of the snake, in milliseconds, with the name shown to the player; a
 * smaller delay means a faster snake and thus a harder level.
 */
module Difficulties {

  datatype Difficulty = Easy | Normal | Hard | Extreme

  /** The levels in declaration order, easiest first (the enum's values()). */
  function Levels(): (s: seq<Difficulty>)
    ensures |s| == 4
  {
    [Easy, Normal, Hard, Extreme]
  }

  /** Position of a level in declaration order (the enum's ordinal()). */
  function Ordinal(d: Difficulty): (i: nat)
    ensures i < |Levels()| && Levels()[i] == d
  {
    match d
    case Easy => 0
    case Normal => 1
    case Hard => 2
    case Extreme => 3
  }

  /** Delay between two moves in milliseconds (getDelay). */
  function Delay(d: Difficulty): (ms: int)
    ensures 40 <= ms <= 150
  {
    match d
    case Easy => 150
    case Normal => 100
    case Hard => 70
    case Extreme => 40
  }

  /** Display name (getName). */
  function Name(d: Difficulty): (name: string)
    ensures |name| > 0
  {
    match d
    case Easy => "Easy"
    case Normal => "Normal"
    case Hard => "Hard"
    case Extreme => "Extreme"
  }

  /** The table as declared: EASY(150, "Easy"), NORMAL(100, "Normal"), HARD(70, "Hard"), EXTREME(40, "Extreme"). */
  lemma Table()
    ensures Delay(Easy) == 150 && Name(Easy) == "Easy"
    ensures Delay(Normal) == 100 && Name(Normal) == "Normal"
    ensures Delay(Hard) == 70 && Name(Hard) == "Hard"
    ensures Delay(Extreme) == 40 && Name(Extreme) == "Extreme"
  {
  }

  /** Every delay is positive, so every level gives a usable timer interval. */
  lemma DelayPositive(d: Difficulty)
    ensures Delay(d) > 0
  {
  }

  /**
   * Delays strictly decrease in declaration order: a later (harder) level
   * always moves the snake faster, and only a later level does.
   */
  lemma DelaysStrictlyDecrease(a: Difficulty, b: Difficulty)
    ensures Ordinal(a) < Ordinal(b) <==> Delay(a) > Delay(b)
  {
  }

  /** Neither the delay nor the name is shared by two levels. */
  lemma TableInjective(a: Difficulty, b: Difficulty)
    ensures Delay(a) == Delay(b) <==> a == b
    ensures Name(a) == Name(b) <==> a == b
  {
  }
}
