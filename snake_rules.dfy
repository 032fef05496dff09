/**
 * The rules of the game as functions on values: how keys steer the snake,
 * where its head goes next, when a move ends the game, how the body follows
 * the head, and which cells the food spawner proposes. The class SnakeGame
 * (snake_game.dfy) is specified in these terms.
 */
module SnakeRules {
  import opened Wrappers
  import opened Grid
  import opened JavaRandom

  // ---------------------------------------------------------------------------
  // Keys
  // ---------------------------------------------------------------------------

  /** Key codes of java.awt.event.KeyEvent that the game reacts to. */
  const KeyEscape: int := 27  // VK_ESCAPE
  const KeySpace: int := 32   // VK_SPACE
  const KeyLeft: int := 37    // VK_LEFT
  const KeyUp: int := 38      // VK_UP
  const KeyRight: int := 39   // VK_RIGHT
  const KeyDown: int := 40    // VK_DOWN
  const KeyA: int := 65       // VK_A
  const KeyD: int := 68       // VK_D
  const KeyS: int := 83       // VK_S
  const KeyW: int := 87       // VK_W

  /** The direction a key asks for: the arrow keys and W/A/S/D; None for every other key. */
  function KeyDirection(keyCode: int): (r: Option<Direction>)
    ensures r == Some(Up) <==> keyCode == KeyUp || keyCode == KeyW
    ensures r == Some(Down) <==> keyCode == KeyDown || keyCode == KeyS
    ensures r == Some(Left) <==> keyCode == KeyLeft || keyCode == KeyA
    ensures r == Some(Right) <==> keyCode == KeyRight || keyCode == KeyD
    ensures r.Some? ==> keyCode != KeySpace && keyCode != KeyEscape
  {
    if keyCode == KeyUp || keyCode == KeyW then Some(Up)
    else if keyCode == KeyDown || keyCode == KeyS then Some(Down)
    else if keyCode == KeyLeft || keyCode == KeyA then Some(Left)
    else if keyCode == KeyRight || keyCode == KeyD then Some(Right)
    else None
  }

  /**
   * The no-reverse rule: the wanted direction is taken unless it is the exact
   * opposite of the current one, in which case the current one stays.
   */
  function Steer(current: Direction, wanted: Direction): (r: Direction)
    ensures r == wanted <==> wanted != Opposite(current)
    ensures r != wanted ==> r == current
    ensures r != Opposite(current)
  {
    if current == Opposite(wanted) then current else wanted
  }

  /** Steering twice with the same key is the same as steering once. */
  lemma SteerIdempotent(current: Direction, wanted: Direction)
    ensures Steer(Steer(current, wanted), wanted) == Steer(current, wanted)
  {
  }

  // ---------------------------------------------------------------------------
  // The body of the snake
  // ---------------------------------------------------------------------------

  /** No two segments share a cell. */
  ghost predicate Distinct(s: seq<Point>)
  {
    forall i, j :: 0 <= i < j < |s| ==> s[i] != s[j]
  }

  /** The invariant of a snake's body: at least one segment, all on the board, none overlapping. */
  ghost predicate WellFormed(s: seq<Point>)
  {
    |s| >= 1 && (forall i :: 0 <= i < |s| ==> InBounds(s[i])) && Distinct(s)
  }

  /** Two cells share a side. */
  predicate Adjacent(a: Point, b: Point)
  {
    (a.x == b.x && (a.y == b.y + 1 || b.y == a.y + 1)) || (a.y == b.y && (a.x == b.x + 1 || b.x == a.x + 1))
  }

  /** Each segment lies next to the one behind it. */
  ghost predicate Connected(s: seq<Point>)
  {
    forall i :: 0 <= i < |s| - 1 ==> Adjacent(s[i], s[i + 1])
  }

  lemma {:induction false} DistinctOccupiedSize(s: seq<Point>)
    requires Distinct(s)
    ensures |Occupied(s)| == |s|
  {
    if s != [] {
      assert Distinct(s[1..]) by {
        forall i, j | 0 <= i < j < |s[1..]| ensures s[1..][i] != s[1..][j] {
          assert s[1..][i] == s[i + 1] && s[1..][j] == s[j + 1];
        }
      }
      DistinctOccupiedSize(s[1..]);
      assert s[0] !in s[1..] by {
        forall k | 0 <= k < |s[1..]| ensures s[1..][k] != s[0] {
          assert s[1..][k] == s[k + 1];
        }
      }
    }
  }

  /** A well-formed body has at most Width * Height = 400 segments. */
  lemma LengthAtMostCells(s: seq<Point>)
    requires WellFormed(s)
    ensures |s| <= Width * Height
  {
    DistinctOccupiedSize(s);
    CellCount();
    SubsetSize(Occupied(s), Cells());
  }

  // ---------------------------------------------------------------------------
  // One move
  // ---------------------------------------------------------------------------

  /** Where the head goes next: one cell from the current head in direction d. */
  function NextHead(body: seq<Point>, d: Direction): (h: Point)
    requires |body| > 0
    ensures Adjacent(body[0], h)
  {
    Shift(body[0], d)
  }

  /**
   * The move ends the game: the new head leaves the board or lands on a cell
   * the body occupies now, the tail cell included (the tail has not moved yet
   * when the check is made).
   */
  predicate Collides(body: seq<Point>, d: Direction)
    requires |body| > 0
    ensures !InBounds(NextHead(body, d)) ==> Collides(body, d)
    ensures NextHead(body, d) == body[|body| - 1] ==> Collides(body, d)
    ensures forall i :: 0 <= i < |body| && body[i] == NextHead(body, d) ==> Collides(body, d)
  {
    !InBounds(NextHead(body, d)) || NextHead(body, d) in body
  }

  /**
   * The body after a move without collision: the new head goes in front;
   * the tail stays when the head reaches the food and is dropped otherwise.
   */
  function Advance(body: seq<Point>, d: Direction, food: Point): (r: seq<Point>)
    requires |body| > 0
    ensures |r| == |body| + (if NextHead(body, d) == food then 1 else 0)
    ensures r[0] == NextHead(body, d)
    ensures forall i :: 0 < i < |r| ==> r[i] == body[i - 1]
  {
    var moved := [NextHead(body, d)] + body;
    if NextHead(body, d) == food then moved else moved[..|moved| - 1]
  }

  /** A move without collision keeps the body on the board and free of overlaps. */
  lemma AdvancePreservesWellFormed(body: seq<Point>, d: Direction, food: Point)
    requires WellFormed(body) && !Collides(body, d)
    ensures WellFormed(Advance(body, d, food))
  {
  }

  /** A move keeps each segment next to the one before it. */
  lemma AdvancePreservesConnected(body: seq<Point>, d: Direction, food: Point)
    requires |body| > 0 && Connected(body)
    ensures Connected(Advance(body, d, food))
  {
  }

  /** Food that is off the body and not reached by the head is still off the body after the move. */
  lemma AdvanceKeepsFoodClear(body: seq<Point>, d: Direction, food: Point)
    requires |body| > 0 && food !in body && NextHead(body, d) != food
    ensures food !in Advance(body, d, food)
  {
  }

  /** A one-segment snake can only hit a wall: its own head is never in the way. */
  lemma SingleSegmentHitsOnlyWalls(p: Point, d: Direction)
    ensures Collides([p], d) <==> !InBounds(Shift(p, d))
  {
  }

  /**
   * Why reversing is forbidden: a snake of two or more segments that just
   * moved in direction c would run into its own neck if it turned to the
   * opposite direction.
   */
  lemma ReversingHitsNeck(body: seq<Point>, c: Direction)
    requires |body| >= 2 && body[0] == Shift(body[1], c)
    ensures Collides(body, Opposite(c))
  {
  }

  // ---------------------------------------------------------------------------
  // Food placement
  // ---------------------------------------------------------------------------

  /**
   * The cell that spawnFood's j-th attempt proposes when the generator stands
   * at call number `from`: x is drawn first, then y, each in [0, 20).
   */
  function DrawAt(r: Random, from: nat, j: nat): (p: Point)
    ensures InBounds(p)
  {
    Point(r.Value(from + 2 * j, Width), r.Value(from + 2 * j + 1, Height))
  }

  /** The first attempt after j + 1 attempts is the (j + 1)-th attempt counted from the start. */
  lemma DrawAtLater(r: Random, from: nat, j: nat)
    ensures DrawAt(r, from + 2 * j + 2, 0) == DrawAt(r, from, j + 1)
  {
  }

  /** One more occupied attempt extends the run of failed attempts; the free attempt n lies beyond it. */
  lemma MissedOneMore(r: Random, from: nat, body: seq<Point>, j: nat, n: nat)
    requires forall i :: 0 <= i < j ==> DrawAt(r, from, i) in body
    requires DrawAt(r, from, j) in body && DrawAt(r, from, n) !in body && j <= n
    ensures forall i :: 0 <= i < j + 1 ==> DrawAt(r, from, i) in body
    ensures j + 1 <= n
  {
  }

  /** Some attempt of spawnFood, starting at call `from`, proposes a cell off the body. */
  ghost predicate EventuallyFree(r: Random, from: nat, body: seq<Point>)
  {
    exists j: nat :: DrawAt(r, from, j) !in body
  }

  /**
   * The outcome of spawnFood when the generator stands at call `from`: the
   * attempts before the j-th all proposed occupied cells, the j-th proposes
   * `food`, a free cell, and the generator is left at call `to`.
   */
  ghost predicate Spawned(r: Random, from: nat, to: nat, body: seq<Point>, food: Point)
  {
    exists j: nat ::
      to == from + 2 * j + 2 && food == DrawAt(r, from, j) && food !in body &&
      forall i :: 0 <= i < j ==> DrawAt(r, from, i) in body
  }

  /** The first free attempt, the j-th, is what spawnFood settles on. */
  lemma SpawnedAtFirstFree(r: Random, from: nat, body: seq<Point>, j: nat)
    requires forall i :: 0 <= i < j ==> DrawAt(r, from, i) in body
    requires DrawAt(r, from, j) !in body
    ensures Spawned(r, from, from + 2 * j + 2, body, DrawAt(r, from, j))
  {
  }

  /** Spawned food is on the board and off the body. */
  lemma SpawnedIsFree(r: Random, from: nat, to: nat, body: seq<Point>, food: Point)
    requires Spawned(r, from, to, body, food)
    ensures InBounds(food) && food !in body
  {
  }

  /** The retry loop is deterministic: for a given stream and body there is one outcome. */
  lemma SpawnedIsUnique(r: Random, from: nat, body: seq<Point>, to1: nat, food1: Point, to2: nat, food2: Point)
    requires Spawned(r, from, to1, body, food1) && Spawned(r, from, to2, body, food2)
    ensures food1 == food2 && to1 == to2
  {
  }

  /** Some attempt starting at call `from` proposes cell p. */
  ghost predicate Hits(r: Random, from: nat, p: Point)
  {
    exists j: nat :: DrawAt(r, from, j) == p
  }

  /** From any point of the stream on, every cell of the board is proposed sooner or later. */
  ghost predicate Fair(r: Random)
  {
    forall from: nat, p :: InBounds(p) ==> Hits(r, from, p)
  }

  /** With a fair generator spawnFood finishes whenever the body leaves a cell free. */
  lemma FairStreamFindsFreeCell(r: Random, from: nat, body: seq<Point>)
    requires Fair(r) && |body| < Width * Height
    ensures EventuallyFree(r, from, body)
  {
    FreeCellExists(body);
    var p :| InBounds(p) && p !in body;
    assert Hits(r, from, p);
    var j: nat :| DrawAt(r, from, j) == p;
  }

  /** When the body covers the whole board no attempt can succeed: spawnFood would retry forever. */
  lemma FullBoardStarves(r: Random, from: nat, body: seq<Point>)
    requires forall p :: InBounds(p) ==> p in body
    ensures !EventuallyFree(r, from, body)
  {
  }
}
