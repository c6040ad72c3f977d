/**
 * Food placement (`placeFood`, snakeLogic.js lines 126-140): list the cells
 * of the board that no snake segment occupies, in row-major order, and pick
 * one of them; report that there is none when the snake covers the board.
 *
 * The source picks `freeCells[Math.floor(randomFn() * freeCells.length)]`.
 * Here the random source is a `draw: nat` supplied by the caller and the
 * index is `draw % |freeCells|`, so every draw yields a valid index and
 * every index is reached by some draw.
 */
module Food {
  import opened Board

  /** Row-major order: an earlier row first, then the smaller column. */
  predicate Before(a: Pos, b: Pos) {
    a.y < b.y || (a.y == b.y && a.x < b.x)
  }

  predicate RowMajorSorted(s: seq<Pos>) {
    forall i, j :: 0 <= i < j < |s| ==> Before(s[i], s[j])
  }

  /** The snake occupies every cell of the n-by-n board. */
  ghost predicate Covers(snake: seq<Pos>, n: int) {
    forall p :: InBounds(p, n) ==> p in snake
  }

  /**
   * The free cells that come before (x, y) in row-major order on an
   * n-column board: every free cell of rows 0 .. y-1, then the free cells
   * (0, y) .. (x-1, y). This is the list the two nested loops of
   * `placeFood` have built when they reach (x, y).
   */
  function FreeBefore(n: nat, snake: seq<Pos>, y: nat, x: nat): seq<Pos>
    requires x <= n
    decreases y, x
  {
    if x == 0 then
      if y == 0 then [] else FreeBefore(n, snake, y - 1, n)
    else
      var cell := Pos(x - 1, y);
      if cell in snake then FreeBefore(n, snake, y, x - 1) else FreeBefore(n, snake, y, x - 1) + [cell]
  }

  lemma {:induction false} FreeBeforeMember(n: nat, snake: seq<Pos>, y: nat, x: nat, p: Pos)
    requires x <= n
    ensures p in FreeBefore(n, snake, y, x) <==> 0 <= p.x < n && 0 <= p.y && Before(p, Pos(x, y)) && p !in snake
    decreases y, x
  {
    if x == 0 {
      if y > 0 {
        FreeBeforeMember(n, snake, y - 1, n, p);
      }
    } else {
      FreeBeforeMember(n, snake, y, x - 1, p);
    }
  }

  lemma {:induction false} FreeBeforeSorted(n: nat, snake: seq<Pos>, y: nat, x: nat)
    requires x <= n
    ensures RowMajorSorted(FreeBefore(n, snake, y, x))
    decreases y, x
  {
    if x == 0 {
      if y > 0 {
        FreeBeforeSorted(n, snake, y - 1, n);
      }
    } else {
      FreeBeforeSorted(n, snake, y, x - 1);
      var cell := Pos(x - 1, y);
      var prev := FreeBefore(n, snake, y, x - 1);
      if cell !in snake {
        forall i | 0 <= i < |prev| ensures Before(prev[i], cell) {
          FreeBeforeMember(n, snake, y, x - 1, prev[i]);
        }
      }
    }
  }

  /**
   * The list `freeCells` that `placeFood` builds: exactly the board cells no
   * segment occupies, each once, in row-major order; empty exactly when the
   * snake covers the board.
   */
  function FreeCells(n: nat, snake: seq<Pos>): (r: seq<Pos>)
    ensures forall p :: p in r <==> InBounds(p, n) && p !in snake
    ensures RowMajorSorted(r)
    ensures r == [] <==> Covers(snake, n)
  {
    var r := FreeBefore(n, snake, n, 0);
    forall p ensures p in r <==> InBounds(p, n) && p !in snake {
      FreeBeforeMember(n, snake, n, 0, p);
    }
    FreeBeforeSorted(n, snake, n, 0);
    assert r != [] ==> r[0] in r;
    r
  }

  /** The cell chosen from the free list for a given draw, or none when the list is empty. */
  function PickFree(free: seq<Pos>, draw: nat): (r: Option<Pos>)
    ensures r.None? <==> free == []
    ensures r.Some? ==> r.value in free
    ensures draw < |free| ==> r == Some(free[draw])
  {
    if |free| == 0 then None else Some(free[draw % |free|])
  }

  /** `placeFood(gridSize, snake, randomFn)`. */
  method PlaceFood(n: nat, snake: seq<Pos>, draw: nat) returns (food: Option<Pos>)
    ensures food == PickFree(FreeCells(n, snake), draw)
    ensures food.None? <==> Covers(snake, n)
    ensures food.Some? ==> InBounds(food.value, n) && food.value !in snake
  {
    var occupied := set p | p in snake;
    var freeCells: seq<Pos> := [];
    for y := 0 to n
      invariant freeCells == FreeBefore(n, snake, y, 0)
    {
      for x := 0 to n
        invariant freeCells == FreeBefore(n, snake, y, x)
      {
        assert Pos(x, y) in occupied <==> Pos(x, y) in snake;
        if Pos(x, y) !in occupied {
          freeCells := freeCells + [Pos(x, y)];
        }
      }
    }
    assert freeCells == FreeCells(n, snake);
    if |freeCells| == 0 {
      return None;
    }
    var index := draw % |freeCells|;
    food := Some(freeCells[index]);
  }
}
