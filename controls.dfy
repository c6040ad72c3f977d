/**
 * How the shell turns player input into turns (main.js lines 392-398 and
 * 443-463): which inputs count in which phase and control mode, and which
 * direction a swipe gesture stands for.
 */
module Controls {
  import opened JsPrims
  import opened Board

  /** Shortest swipe, in pixels along either axis, that counts (main.js line 451). */
  const SwipeThreshold: int := 24

  /** `GAME_PHASES`. */
  datatype Phase = Setup | Countdown | Playing | GameOver | Stats

  /** `CONTROL_MODES`. */
  datatype ControlMode = Buttons | Swipe

  /** The `source` argument of `handleDirectionInput`. */
  datatype InputSource = FromButtons | FromSwipe | FromKey

  /** How far the gesture (dx, dy) travels along direction d. */
  function Along(d: Direction, dx: int, dy: int): int {
    d.Dx() * dx + d.Dy() * dy
  }

  /**
   * The gesture rule of `endSwipe`: a gesture shorter than the threshold on
   * both axes issues nothing; otherwise the issued direction is the one the
   * gesture travels furthest along (its length on the dominant axis), and a
   * gesture as wide as it is tall counts as vertical.
   */
  function SwipeDirection(dx: int, dy: int): (r: Option<Direction>)
    ensures r.None? <==> Abs(dx) < SwipeThreshold && Abs(dy) < SwipeThreshold
    ensures r.Some? ==> Along(r.value, dx, dy) == Max(Abs(dx), Abs(dy))
    ensures r.Some? ==> forall d :: Along(d, dx, dy) <= Along(r.value, dx, dy)
    ensures r.Some? && Abs(dx) == Abs(dy) ==> r.value == Up || r.value == Down
  {
    if Abs(dx) < SwipeThreshold && Abs(dy) < SwipeThreshold then None
    else if Abs(dx) > Abs(dy) then
      if dx > 0 then Some(Right) else Some(Left)
    else
      if dy > 0 then Some(Down) else Some(Up)
  }

  /**
   * The gating of `handleDirectionInput`: input counts only while playing,
   * and then exactly when its source matches the control mode (swipes in
   * swipe mode, buttons or keys in buttons mode).
   */
  function AcceptsInput(phase: Phase, mode: ControlMode, source: InputSource): (r: bool)
    ensures r <==> phase == Playing && (mode.Swipe? <==> source.FromSwipe?)
  {
    if phase != Playing then false
    else if mode == Swipe && source != FromSwipe then false
    else if mode == Buttons && source == FromSwipe then false
    else true
  }
}
