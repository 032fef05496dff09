/**
 * The playing field of the snake game: a fixed board of 20 by 20 cells,
 * the cells (points) on it and the four directions the snake can travel.
 */
module Grid {

  /** Board width in cells (BOARD_WIDTH). */
  const Width: int := 20

  /** Board height in cells (BOARD_HEIGHT). */
  const Height: int := 20

  /** A cell coordinate, as java.awt.Point: x grows to the right, y grows downwards. */
  datatype Point = Point(x: int, y: int)

  /** The direction of travel; the source keeps it as one of the strings "UP", "DOWN", "LEFT", "RIGHT". */
  datatype Direction = Up | Down | Left | Right

  /** The direction that points the other way. */
  function Opposite(d: Direction): (r: Direction)
    ensures r != d
  {
    match d
    case Up => Down
    case Down => Up
    case Left => Right
    case Right => Left
  }

  lemma OppositeIsInvolution(d: Direction)
    ensures Opposite(Opposite(d)) == d
  {
  }

  /** A point lies on the board: [0, Width) x [0, Height). */
  predicate InBounds(p: Point)
  {
    0 <= p.x < Width && 0 <= p.y < Height
  }

  /** The cell where a fresh snake starts: (Width / 2, Height / 2). */
  function Center(): (c: Point)
    ensures InBounds(c)
    ensures c == Point(10, 10)
  {
    Point(Width / 2, Height / 2)
  }

  /**
   * The neighbouring cell one step away in direction d: UP is y - 1, DOWN is y + 1,
   * LEFT is x - 1, RIGHT is x + 1.
   */
  function Shift(p: Point, d: Direction): (r: Point)
    ensures d == Up || d == Down ==> r.x == p.x
    ensures d == Left || d == Right ==> r.y == p.y
    ensures (r.x - p.x) + (r.y - p.y) == (if d == Down || d == Right then 1 else -1)
  {
    match d
    case Up => Point(p.x, p.y - 1)
    case Down => Point(p.x, p.y + 1)
    case Left => Point(p.x - 1, p.y)
    case Right => Point(p.x + 1, p.y)
  }

  /** Stepping one way and then the opposite way returns to the starting cell. */
  lemma ShiftOppositeReturns(p: Point, d: Direction)
    ensures Shift(Shift(p, d), Opposite(d)) == p
  {
  }

  /** Distinct directions lead to distinct neighbours. */
  lemma ShiftInjective(p: Point, d: Direction, e: Direction)
    ensures Shift(p, d) == Shift(p, e) <==> d == e
  {
  }

  // ---------------------------------------------------------------------------
  // Counting the cells of the board
  // ---------------------------------------------------------------------------

  /** The first n cells of row y. */
  ghost function RowPrefix(y: int, n: nat): set<Point>
  {
    set x | 0 <= x < n :: Point(x, y)
  }

  /** The cells of the first h rows of the board. */
  ghost function Rows(h: nat): set<Point>
  {
    set x, y | 0 <= x < Width && 0 <= y < h :: Point(x, y)
  }

  /** Every cell of the board. */
  ghost function Cells(): (s: set<Point>)
    ensures forall p :: p in s <==> InBounds(p)
  {
    Rows(Height)
  }

  lemma {:induction false} RowPrefixSize(y: int, n: nat)
    ensures |RowPrefix(y, n)| == n
  {
    if n > 0 {
      RowPrefixSize(y, n - 1);
      assert RowPrefix(y, n) == RowPrefix(y, n - 1) + {Point(n - 1, y)};
    }
  }

  lemma {:induction false} RowsSize(h: nat)
    ensures |Rows(h)| == h * Width
  {
    if h > 0 {
      RowsSize(h - 1);
      RowPrefixSize(h - 1, Width);
      assert Rows(h) == Rows(h - 1) + RowPrefix(h - 1, Width);
      assert Rows(h - 1) * RowPrefix(h - 1, Width) == {};
    }
  }

  /** The board has exactly Width * Height = 400 cells. */
  lemma CellCount()
    ensures |Cells()| == Width * Height == 400
  {
    RowsSize(Height);
  }

  /** The set of cells a sequence of points occupies. */
  function Occupied(s: seq<Point>): (r: set<Point>)
    ensures forall p :: p in r <==> p in s
    ensures |r| <= |s|
  {
    if s == [] then {} else {s[0]} + Occupied(s[1..])
  }

  lemma SubsetSize<T>(a: set<T>, b: set<T>)
    requires a <= b
    ensures |a| <= |b|
  {
    assert b == a + (b - a);
  }

  /** Pigeonhole: fewer than Width * Height points always leave some cell of the board free. */
  lemma FreeCellExists(s: seq<Point>)
    requires |s| < Width * Height
    ensures exists p :: InBounds(p) && p !in s
  {
    CellCount();
    if forall p :: InBounds(p) ==> p in s {
      SubsetSize(Cells(), Occupied(s));
      assert false;
    }
  }
}
