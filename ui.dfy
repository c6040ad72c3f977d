/**
 * The module-level state of the browser shell (main.js) and the handlers
 * that change it around the engine: the trail, direction input and swipes,
 * the movement step and the end of a round. Rendering, timers and event
 * wiring are not modelled.
 */
module Ui {
  import opened Board
  import opened Food
  import opened Engine
  import opened Trail
  import opened Controls

  /** Why the round ended (`gameEndReason`; "" before it ends). */
  datatype EndReason = NoReason | TimeUp | Collision

  /** A pointer position. */
  datatype Point = Point(x: int, y: int)

  /** The module-level variables of main.js that the modelled handlers read and write. */
  class App {
    var state: State
    var trail: seq<Particle>
    var phase: Phase
    var controlMode: ControlMode
    var swipeStart: Option<Point>
    var endReason: EndReason

    ghost predicate Valid()
      reads this
    {
      Engine.Valid(state) && TrailValid(trail)
    }

    /**
     * The initial values of main.js lines 53-69, where `initial` is the
     * session `createInitialState()` returned (see Engine.CreateInitialState).
     */
    constructor (mode: ControlMode, initial: State)
      requires IsFreshSession(initial) && Engine.Valid(initial)
      ensures Valid()
      ensures state == initial && trail == [] && phase == Setup && controlMode == mode
      ensures swipeStart == None && endReason == NoReason
    {
      state := initial;
      trail := [];
      phase := Setup;
      controlMode := mode;
      swipeStart := None;
      endReason := NoReason;
    }

    /** `pushTrailFromMove(prevState, nextState)`. */
    method PushTrailFromMove(prev: State, next: State)
      requires |prev.snake| > 0
      modifies this`trail
      ensures trail == TrailAfterMove(old(trail), prev.snake[|prev.snake| - 1], next.snake)
    {
      var prevTail := prev.snake[|prev.snake| - 1];
      var isTailStillOccupied := exists i :: 0 <= i < |next.snake| && PositionsEqual(next.snake[i], prevTail);
      if isTailStillOccupied {
        return;
      }
      trail := trail + [Particle(prevTail.x, prevTail.y, TrailLife)];
      if |trail| > MaxTrail {
        trail := trail[|trail| - MaxTrail..];
      }
    }

    /** `decayTrail()`. */
    method DecayTrail()
      modifies this`trail
      ensures trail == Decayed(old(trail))
    {
      trail := Alive(Aged(trail));
    }

    /** `handleDirectionInput(direction, source)`. */
    method HandleDirectionInput(d: Direction, source: InputSource)
      requires Valid()
      modifies this`state
      ensures Valid()
      ensures state == if AcceptsInput(phase, controlMode, source) then SetDirection(old(state), d) else old(state)
    {
      if phase != Playing {
        return;
      }
      if controlMode == Swipe && source != FromSwipe {
        return;
      }
      if controlMode == Buttons && source == FromSwipe {
        return;
      }
      state := SetDirection(state, d);
    }

    /** `beginSwipe(x, y)`: remember where a gesture starts, in swipe mode only. */
    method BeginSwipe(x: int, y: int)
      modifies this`swipeStart
      ensures swipeStart == if controlMode == Swipe then Some(Point(x, y)) else old(swipeStart)
    {
      if controlMode != Swipe {
        return;
      }
      swipeStart := Some(Point(x, y));
    }

    /**
     * `endSwipe(x, y)`: in swipe mode with a gesture under way, forget its
     * start and feed the classified direction, if any, to the direction input.
     */
    method EndSwipe(x: int, y: int)
      requires Valid()
      modifies this`swipeStart, this`state
      ensures Valid()
      ensures controlMode != Swipe || old(swipeStart).None? ==> swipeStart == old(swipeStart) && state == old(state)
      ensures controlMode == Swipe && old(swipeStart).Some? ==>
        && swipeStart == None
        && var start := old(swipeStart).value;
           state == match SwipeDirection(x - start.x, y - start.y)
                    case None => old(state)
                    case Some(d) => if phase == Playing then SetDirection(old(state), d) else old(state)
    {
      if controlMode != Swipe || swipeStart.None? {
        return;
      }
      var deltaX := x - swipeStart.value.x;
      var deltaY := y - swipeStart.value.y;
      swipeStart := None;
      match SwipeDirection(deltaX, deltaY) {
        case None =>
        case Some(d) => HandleDirectionInput(d, FromSwipe);
      }
    }

    /** `endGame(reason)`: finish the round once; a finished round is left alone. */
    method EndGame(reason: EndReason)
      requires Valid()
      modifies this`state, this`phase, this`endReason
      ensures Valid()
      ensures old(phase) == GameOver || old(phase) == Stats ==>
        state == old(state) && phase == old(phase) && endReason == old(endReason)
      ensures old(phase) != GameOver && old(phase) != Stats ==>
        state == old(state).(gameOver := true, paused := false) && phase == GameOver && endReason == reason
    {
      if phase == GameOver || phase == Stats {
        return;
      }
      endReason := reason;
      state := state.(gameOver := true, paused := false);
      phase := GameOver;
    }

    /**
     * `step()`: one movement tick while playing. The trail decays and takes
     * the vacated tail cell only when the tick moved the snake (neither
     * paused nor over), and a tick that ends the game ends the round.
     * `ticked` is the state `tick` returned.
     */
    method Step(draw: nat) returns (ghost ticked: State)
      requires Valid()
      modifies this`state, this`trail, this`phase, this`endReason
      ensures Valid()
      ensures old(phase) != Playing ==>
        state == old(state) && trail == old(trail) && phase == old(phase) && endReason == old(endReason)
      ensures old(phase) == Playing ==>
        && TickOutcome(old(state), draw, ticked)
        && trail == (if old(state).gameOver || old(state).paused then old(trail)
                     else TrailAfterMove(Decayed(old(trail)), old(state).snake[|old(state).snake| - 1], ticked.snake))
        && (ticked.gameOver ==> state == ticked.(paused := false) && phase == GameOver && endReason == Collision)
        && (!ticked.gameOver ==> state == ticked && phase == Playing && endReason == old(endReason))
      ensures state.score >= old(state.score)
    {
      ticked := state;
      if phase != Playing {
        return;
      }
      var previousState := state;
      var nextState := Tick(state, draw);
      TickPreservesValid(previousState, draw, nextState);
      TickMonotone(previousState, draw, nextState);
      ticked := nextState;
      Commit(previousState, nextState);
    }

    /**
     * The part of `step()` after `tick`: update the trail when the snake
     * moved, store the new state, and end the round when it is over.
     */
    method Commit(previousState: State, nextState: State)
      requires Valid() && phase == Playing && state == previousState && Engine.Valid(nextState)
      modifies this`state, this`trail, this`phase, this`endReason
      ensures Valid()
      ensures trail == (if previousState.gameOver || previousState.paused then old(trail)
                        else TrailAfterMove(Decayed(old(trail)), previousState.snake[|previousState.snake| - 1], nextState.snake))
      ensures nextState.gameOver ==> state == nextState.(paused := false) && phase == GameOver && endReason == Collision
      ensures !nextState.gameOver ==> state == nextState && phase == Playing && endReason == old(endReason)
    {
      // `nextState !== state` holds exactly when tick did not return its input
      // early, that is when the game was neither over nor paused.
      if !(previousState.gameOver || previousState.paused) {
        DecayTrail();
        PushTrailFromMove(previousState, nextState);
      }
      state := nextState;
      if state.gameOver {
        EndGame(Collision);
        return;
      }
    }
  }
}
