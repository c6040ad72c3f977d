/**
 * The board of the snake game (snakeLogic.js, lines 1-14, 147-152 and 166-172):
 * a square grid of `GridSize` cells per side whose edges wrap around,
 * cell positions, the four movement directions and the three food tiers.
 */
module Board {
  import opened JsPrims

  /** Cells per side of the board (`GRID_SIZE`). */
  const GridSize: nat := 16

  datatype Option<T> = None | Some(value: T)

  datatype Pos = Pos(x: int, y: int)

  /** The four entries of `DIRECTIONS`, each a unit vector (Dx(), Dy()); y grows downwards. */
  datatype Direction = Up | Down | Left | Right {
    function Dx(): int {
      match this
      case Left => -1
      case Right => 1
      case _ => 0
    }

    function Dy(): int {
      match this
      case Up => -1
      case Down => 1
      case _ => 0
    }

    /** The direction pointing the other way, as a reference for IsOppositeDirection. */
    function Reverse(): Direction {
      match this
      case Up => Down
      case Down => Up
      case Left => Right
      case Right => Left
    }
  }

  /** The entries of `FOOD_TYPES`. */
  datatype FoodType = Normal | Silver | Golden

  predicate InBounds(p: Pos, n: int) {
    0 <= p.x < n && 0 <= p.y < n
  }

  /** `positionsEqual`: coordinate-wise comparison is value equality of positions. */
  function PositionsEqual(a: Pos, b: Pos): (r: bool)
    ensures r <==> a == b
  {
    a.x == b.x && a.y == b.y
  }

  /** `isOppositeDirection`: the two vectors sum to (0, 0). */
  function IsOppositeDirection(a: Direction, b: Direction): (r: bool)
    ensures r <==> b == a.Reverse()
    ensures r <==> a == b.Reverse()
    ensures a == b ==> !r
  {
    a.Dx() + b.Dx() == 0 && a.Dy() + b.Dy() == 0
  }

  /** The cell one step from `p` in direction `d`, before wrapping. */
  function Move(p: Pos, d: Direction): (r: Pos)
    ensures Abs(r.x - p.x) + Abs(r.y - p.y) == 1
    ensures r.x + d.Reverse().Dx() == p.x && r.y + d.Reverse().Dy() == p.y
  {
    Pos(p.x + d.Dx(), p.y + d.Dy())
  }

  /**
   * `wrapPosition`: `(c + n) % n` on each coordinate, with JavaScript's
   * truncating `%`. Every coordinate no smaller than -n lands on the board;
   * one at most a board width off the board comes back shifted by exactly
   * one board width, so a cell is always sent to a congruent cell.
   */
  function WrapPosition(p: Pos, n: int): (r: Pos)
    requires n > 0
    ensures p.x >= -n && p.y >= -n ==> InBounds(r, n)
    ensures -n <= p.x <= n ==> r.x in {p.x - n, p.x, p.x + n}
    ensures -n <= p.y <= n ==> r.y in {p.y - n, p.y, p.y + n}
    ensures InBounds(p, n) ==> r == p
  {
    ModRange(p.x + n, n);
    ModRange(p.y + n, n);
    Pos(JsRem(p.x + n, n), JsRem(p.y + n, n))
  }

  lemma ModRange(a: int, n: int)
    requires n > 0
    ensures 0 <= a <= 2 * n ==> a % n == if a < n then a else if a < 2 * n then a - n else 0
  {
    if n <= a < 2 * n {
      assert (a - n) % n == a % n;
    }
  }
}
