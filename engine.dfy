/**
 * The game-state engine of snakeLogic.js: the state record, the session
 * factory, the two input reducers and the per-tick transition.
 *
 * The source never updates a state in place: every operation returns a
 * new record (object spread), which is a datatype update here.
 */
module Engine {
  import opened Board
  import opened Food

  datatype State = State(
    gridSize: int,
    snake: seq<Pos>,              // head first, tail last
    direction: Direction,         // the direction of the last move
    nextDirection: Direction,     // the direction the next tick will take
    food: Option<Pos>,            // `null` in the source is None
    foodType: FoodType,
    score: nat,
    normalFoodEatenCount: nat,
    silverCollected: nat,
    goldenCollected: nat,
    gameOver: bool,
    paused: bool)

  predicate NoDuplicates(s: seq<Pos>) {
    forall i, j :: 0 <= i < j < |s| ==> s[i] != s[j]
  }

  /**
   * What every state the engine produces satisfies: the snake is non-empty
   * and on the board, it has no repeated cell unless the game is over, food
   * is absent only in a finished game and otherwise lies on a free cell, and
   * the buffered direction never reverses the current one.
   */
  ghost predicate Valid(s: State) {
    && s.gridSize > 0
    && |s.snake| > 0
    && (forall i :: 0 <= i < |s.snake| ==> InBounds(s.snake[i], s.gridSize))
    && (!s.gameOver ==> NoDuplicates(s.snake))
    && (s.food.None? ==> s.gameOver)
    && (s.food.Some? ==> InBounds(s.food.value, s.gridSize) && s.food.value !in s.snake)
    && !IsOppositeDirection(s.direction, s.nextDirection)
  }

  /**
   * What `tick` needs of its input: a running game must have a head to move
   * (`state.snake[0]`) and a food cell to compare with (`state.food.x`);
   * the source would throw on either missing.
   */
  predicate Ready(s: State) {
    s.gameOver || s.paused || (s.gridSize > 0 && |s.snake| > 0 && s.food.Some?)
  }

  /** The snake of a new session (snakeLogic.js lines 17-21). */
  function InitialSnake(): seq<Pos> {
    [Pos(8, 8), Pos(7, 8), Pos(6, 8)]
  }

  /** Every field of a new session except its food. */
  predicate IsFreshSession(s: State) {
    && s.gridSize == GridSize
    && s.snake == InitialSnake()
    && s.direction == Right && s.nextDirection == Right
    && s.foodType == Normal
    && s.score == 0 && s.normalFoodEatenCount == 0
    && s.silverCollected == 0 && s.goldenCollected == 0
    && !s.gameOver && !s.paused
  }

  /** `createInitialState(randomFn)`: a new session with food on a free cell. */
  method CreateInitialState(draw: nat) returns (r: State)
    ensures IsFreshSession(r)
    ensures r.food == PickFree(FreeCells(r.gridSize, r.snake), draw)
    ensures r.food.Some? && Valid(r)
  {
    var snake := InitialSnake();
    assert NoDuplicates(snake);
    assert forall i :: 0 <= i < |snake| ==> InBounds(snake[i], GridSize);
    assert InBounds(Pos(0, 0), GridSize) && Pos(0, 0) !in snake;
    var food := PlaceFood(GridSize, snake, draw);
    r := State(GridSize, snake, Right, Right, food, Normal, 0, 0, 0, 0, false, false);
  }

  /** `restartGame(randomFn)`: exactly a new session, nothing carried over. */
  method RestartGame(draw: nat) returns (r: State)
    ensures IsFreshSession(r)
    ensures r.food == PickFree(FreeCells(r.gridSize, r.snake), draw)
    ensures r.food.Some? && Valid(r)
  {
    r := CreateInitialState(draw);
  }

  /**
   * `setDirection`: buffer a turn for the next tick. A finished game and a
   * reversal of the current direction are ignored; otherwise only
   * `nextDirection` changes, so the buffered turn never reverses the snake.
   */
  function SetDirection(s: State, d: Direction): (r: State)
    ensures s.gameOver || d == s.direction.Reverse() ==> r == s
    ensures !s.gameOver && d != s.direction.Reverse() ==> r == s.(nextDirection := d)
    ensures !IsOppositeDirection(s.direction, s.nextDirection) ==> !IsOppositeDirection(r.direction, r.nextDirection)
    ensures Valid(s) ==> Valid(r)
  {
    if s.gameOver then s
    else if IsOppositeDirection(s.direction, d) then s
    else s.(nextDirection := d)
  }

  /** `togglePause`: flip `paused` in a running game; a finished game is left alone. */
  function TogglePause(s: State): (r: State)
    ensures s.gameOver ==> r == s
    ensures !s.gameOver ==> r.paused == !s.paused && r.(paused := s.paused) == s
    ensures Valid(s) ==> Valid(r)
  {
    if s.gameOver then s else s.(paused := !s.paused)
  }

  /** Pausing twice restores the state. */
  lemma TogglePauseTwice(s: State)
    ensures TogglePause(TogglePause(s)) == s
  {
  }

  /**
   * `getNextFoodType`: after the count of normal food eaten reaches a
   * positive multiple of 10 the next food is golden, else after a positive
   * multiple of 5 it is silver, else normal.
   */
  function NextFoodType(count: int): (r: FoodType)
    ensures r == Golden <==> count > 0 && count % 10 == 0
    ensures r == Silver <==> count > 0 && count % 5 == 0 && count % 10 != 0
    ensures r == Normal <==> count <= 0 || count % 5 != 0
  {
    TenthsAreFifths(count);
    if count > 0 && count % 10 == 0 then Golden
    else if count > 0 && count % 5 == 0 then Silver
    else Normal
  }

  lemma TenthsAreFifths(count: int)
    ensures count % 10 == 0 ==> count % 5 == 0
  {
    if count % 10 == 0 {
      assert count == 5 * (2 * (count / 10));
    }
  }

  /** `hasSelfCollision`: the head shares its cell with another segment. */
  function HasSelfCollision(snake: seq<Pos>): (r: bool)
    ensures r <==> |snake| > 0 && snake[0] in snake[1..]
  {
    if |snake| == 0 then false
    else
      var r := exists i :: 1 <= i < |snake| && PositionsEqual(snake[0], snake[i]);
      assert r <==> snake[0] in snake[1..] by {
        if snake[0] in snake[1..] {
          var k :| 0 <= k < |snake[1..]| && snake[1..][k] == snake[0];
          assert PositionsEqual(snake[0], snake[k + 1]);
        }
        if r {
          var i :| 1 <= i < |snake| && PositionsEqual(snake[0], snake[i]);
          assert snake[1..][i - 1] == snake[0];
        }
      }
      r
  }

  /**
   * For a snake whose body has no repeated cell, a self-collision is exactly
   * the snake having a repeated cell: only the head can be the duplicate.
   */
  lemma SelfCollisionIsDuplicate(snake: seq<Pos>)
    requires |snake| > 0 && NoDuplicates(snake[1..])
    ensures HasSelfCollision(snake) <==> !NoDuplicates(snake)
  {
    if HasSelfCollision(snake) {
      var k :| 0 <= k < |snake[1..]| && snake[1..][k] == snake[0];
      assert snake[0] == snake[k + 1];
    }
    if !HasSelfCollision(snake) {
      forall i, j | 0 <= i < j < |snake| ensures snake[i] != snake[j] {
        assert snake[1..][j - 1] == snake[j];
        if i > 0 {
          assert snake[1..][i - 1] == snake[i];
        }
      }
    }
  }

  /** Points awarded for eating food of type `t`. */
  function Reward(t: FoodType): nat {
    match t
    case Normal => 1
    case Silver => 5
    case Golden => 10
  }

  /**
   * The tiered scoring of a meal (snakeLogic.js lines 92-105): the food's
   * reward is added to the score, its tier's counter goes up by one, and the
   * next food is chosen from the normal-food count after a normal meal and
   * is normal after a silver or golden one. Nothing else changes.
   */
  function Eat(s: State): (e: State)
    ensures e.score == s.score + Reward(s.foodType) > s.score
    ensures e.normalFoodEatenCount == s.normalFoodEatenCount + (if s.foodType == Normal then 1 else 0)
    ensures e.silverCollected == s.silverCollected + (if s.foodType == Silver then 1 else 0)
    ensures e.goldenCollected == s.goldenCollected + (if s.foodType == Golden then 1 else 0)
    ensures e.foodType == if s.foodType == Normal then NextFoodType(e.normalFoodEatenCount) else Normal
    ensures e.(score := s.score, normalFoodEatenCount := s.normalFoodEatenCount, silverCollected := s.silverCollected,
               goldenCollected := s.goldenCollected, foodType := s.foodType) == s
  {
    match s.foodType
    case Normal =>
      var count := s.normalFoodEatenCount + 1;
      s.(score := s.score + 1, normalFoodEatenCount := count, foodType := NextFoodType(count))
    case Silver =>
      s.(score := s.score + 5, silverCollected := s.silverCollected + 1, foodType := Normal)
    case Golden =>
      s.(score := s.score + 10, goldenCollected := s.goldenCollected + 1, foodType := Normal)
  }

  /**
   * The result of one tick from `s` when the random source yields `draw`:
   *   - a finished or paused game is returned unchanged;
   *   - otherwise the head moves one wrapped step in `nextDirection`, which
   *     becomes `direction`; the snake grows by one when the new head is the
   *     food cell and otherwise drops its last segment;
   *   - a new head on another segment ends the game with everything else
   *     unchanged;
   *   - eating adds the food's reward to the score, counts the food, chooses
   *     the next food type and places new food on the grown snake, ending the
   *     game when the board is full.
   */
  ghost predicate TickOutcome(s: State, draw: nat, r: State)
    requires Ready(s)
  {
    if s.gameOver || s.paused then r == s
    else
      var head := WrapPosition(Move(s.snake[0], s.nextDirection), s.gridSize);
      var eating := s.food == Some(head);
      var moved := [head] + if eating then s.snake else s.snake[..|s.snake| - 1];
      var after := s.(direction := s.nextDirection, snake := moved);
      if HasSelfCollision(moved) then r == after.(gameOver := true)
      else if !eating then r == after
      else
        var food := PickFree(FreeCells(s.gridSize, moved), draw);
        r == Eat(after).(food := food, gameOver := food.None?)
  }

  /** `tick(state, randomFn)`. */
  method Tick(s: State, draw: nat) returns (r: State)
    requires Ready(s)
    ensures TickOutcome(s, draw, r)
  {
    if s.gameOver || s.paused {
      return s;
    }

    var direction := s.nextDirection;
    var currentHead := s.snake[0];
    var rawNewHead := Pos(currentHead.x + direction.Dx(), currentHead.y + direction.Dy());
    var newHead := WrapPosition(rawNewHead, s.gridSize);

    var isEating := PositionsEqual(newHead, s.food.value);
    var grownSnake := [newHead] + s.snake;
    var nextSnake := if isEating then grownSnake else grownSnake[..|grownSnake| - 1];
    assert rawNewHead == Move(s.snake[0], s.nextDirection);
    assert isEating <==> s.food == Some(newHead);
    if !isEating {
      assert nextSnake == [newHead] + s.snake[..|s.snake| - 1];
    }
    ghost var after := s.(direction := direction, snake := nextSnake);

    if HasSelfCollision(nextSnake) {
      r := s.(direction := direction, snake := nextSnake, gameOver := true);
      assert TickOutcome(s, draw, r);
      return;
    }

    var nextFood := s.food;
    var nextFoodType := s.foodType;
    var nextScore := s.score;
    var nextNormalFoodEatenCount := s.normalFoodEatenCount;
    var nextSilverCollected := s.silverCollected;
    var nextGoldenCollected := s.goldenCollected;
    var nextGameOver := false;

    if isEating {
      match s.foodType {
        case Normal =>
          nextScore := nextScore + 1;
          nextNormalFoodEatenCount := nextNormalFoodEatenCount + 1;
          nextFoodType := NextFoodType(nextNormalFoodEatenCount);
        case Silver =>
          nextScore := nextScore + 5;
          nextSilverCollected := nextSilverCollected + 1;
          nextFoodType := Normal;
        case Golden =>
          nextScore := nextScore + 10;
          nextGoldenCollected := nextGoldenCollected + 1;
          nextFoodType := Normal;
      }
      nextFood := PlaceFood(s.gridSize, nextSnake, draw);
      if nextFood.None? {
        nextGameOver := true;
      }
    }

    r := s.(direction := direction, snake := nextSnake, food := nextFood, foodType := nextFoodType,
            score := nextScore, normalFoodEatenCount := nextNormalFoodEatenCount,
            silverCollected := nextSilverCollected, goldenCollected := nextGoldenCollected,
            gameOver := nextGameOver);
    if isEating {
      assert r == Eat(after).(food := nextFood, gameOver := nextFood.None?);
    } else {
      assert r == after;
    }
  }

  /**
   * A tick never takes anything away: the score and the three food counters
   * only grow, and a finished game stays finished.
   */
  lemma TickMonotone(s: State, draw: nat, r: State)
    requires Ready(s) && TickOutcome(s, draw, r)
    ensures r.score >= s.score && r.normalFoodEatenCount >= s.normalFoodEatenCount
    ensures r.silverCollected >= s.silverCollected && r.goldenCollected >= s.goldenCollected
    ensures s.gameOver ==> r.gameOver
  {
  }

  /**
   * A tick of a running game moves the snake: the head advances one wrapped
   * step in the buffered direction, which becomes the current direction, and
   * stays on the board; the snake keeps its whole old body when it eats and
   * otherwise drops its last segment; a collision changes only the snake, the
   * direction and `gameOver`.
   */
  lemma TickMovesSnake(s: State, draw: nat, r: State)
    requires Valid(s) && TickOutcome(s, draw, r) && !s.gameOver && !s.paused
    ensures r.direction == s.nextDirection
    ensures |r.snake| > 0 && r.snake[0] == WrapPosition(Move(s.snake[0], s.nextDirection), s.gridSize)
    ensures InBounds(r.snake[0], s.gridSize)
    ensures s.food == Some(r.snake[0]) ==> r.snake == [r.snake[0]] + s.snake
    ensures s.food != Some(r.snake[0]) ==> r.snake == [r.snake[0]] + s.snake[..|s.snake| - 1] && |r.snake| == |s.snake|
    ensures HasSelfCollision(r.snake) ==> r == s.(direction := s.nextDirection, snake := r.snake, gameOver := true)
  {
    assert InBounds(s.snake[0], s.gridSize);
  }

  /**
   * The invariant survives a tick: whatever a tick produces from a valid
   * state (no move, a collision, a plain move or a meal) is valid again.
   */
  lemma TickPreservesValid(s: State, draw: nat, r: State)
    requires Valid(s) && TickOutcome(s, draw, r)
    ensures Valid(r)
  {
    if !(s.gameOver || s.paused) {
      var head := WrapPosition(Move(s.snake[0], s.nextDirection), s.gridSize);
      var eating := s.food == Some(head);
      var body := if eating then s.snake else s.snake[..|s.snake| - 1];
      var moved := [head] + body;
      MovedSnakeValid(s, head, body);
      var after := s.(direction := s.nextDirection, snake := moved);
      assert !IsOppositeDirection(after.direction, after.nextDirection);
      if HasSelfCollision(moved) {
        assert r == after.(gameOver := true);
      } else {
        SelfCollisionIsDuplicate(moved);
        if !eating {
          assert r == after;
          assert s.food.value != head;
        } else {
          var food := PickFree(FreeCells(s.gridSize, moved), draw);
          assert r == Eat(after).(food := food, gameOver := food.None?);
        }
      }
    }
  }

  /**
   * The cells of a moved snake, the new head followed by the kept body, lie
   * on the board, the body repeats no cell, and the food is not on the body.
   */
  lemma MovedSnakeValid(s: State, head: Pos, body: seq<Pos>)
    requires Valid(s) && !s.gameOver
    requires head == WrapPosition(Move(s.snake[0], s.nextDirection), s.gridSize)
    requires body == s.snake || body == s.snake[..|s.snake| - 1]
    ensures ([head] + body)[1..] == body
    ensures forall i :: 0 <= i < |[head] + body| ==> InBounds(([head] + body)[i], s.gridSize)
    ensures NoDuplicates(body)
    ensures s.food.value !in body
  {
    var moved := [head] + body;
    assert moved[1..] == body;
    assert forall i :: 0 <= i < |body| ==> body[i] == s.snake[i];
    forall i | 0 <= i < |moved| ensures InBounds(moved[i], s.gridSize) {
      if i > 0 {
        assert moved[i] == body[i - 1];
      }
    }
  }
}
