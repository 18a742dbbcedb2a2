/**
 * The input classifiers: which key steers where, and how a pointer drag is read as a tap or a swipe.
 */
module Input {
  import opened Wrappers
  import opened Grid

  /** The keys of the keydown map: the arrows and WASD in both cases. */
  const SteeringKeys: set<string> :=
    {"ArrowUp", "ArrowDown", "ArrowLeft", "ArrowRight", "w", "s", "a", "d", "W", "S", "A", "D"}

  /** The keydown map: a key's direction, if it has one. */
  function KeyDirection(key: string): (r: Option<Dir>)
    ensures r.Some? <==> key in SteeringKeys
  {
    if key == "ArrowUp" || key == "w" || key == "W" then Some(Up)
    else if key == "ArrowDown" || key == "s" || key == "S" then Some(Down)
    else if key == "ArrowLeft" || key == "a" || key == "A" then Some(Left)
    else if key == "ArrowRight" || key == "d" || key == "D" then Some(Right)
    else None
  }

  /** Each letter key, in either case, steers the way of its arrow key, and every direction has a key. */
  lemma LettersMatchArrows()
    ensures KeyDirection("w") == KeyDirection("W") == KeyDirection("ArrowUp") == Some(Up)
    ensures KeyDirection("s") == KeyDirection("S") == KeyDirection("ArrowDown") == Some(Down)
    ensures KeyDirection("a") == KeyDirection("A") == KeyDirection("ArrowLeft") == Some(Left)
    ensures KeyDirection("d") == KeyDirection("D") == KeyDirection("ArrowRight") == Some(Right)
  {
  }

  datatype KeyAction = TogglePause | Steer(d: Dir) | NoAction

  /** The keydown handler's decision: the space bar toggles pause, a mapped key steers, any other key does nothing. */
  function KeyActionOf(key: string): (a: KeyAction)
    ensures a == TogglePause <==> key == " "
    ensures a.Steer? <==> key in SteeringKeys
    ensures a.Steer? ==> KeyDirection(key) == Some(a.d)
  {
    if key == " " then TogglePause
    else match KeyDirection(key)
      case Some(d) => Steer(d)
      case None => NoAction
  }

  /** A pointer release: a tap, or a swipe in one direction. */
  datatype Gesture = Tap | Swipe(d: Dir)

  /** A pointer position in CSS pixels (`clientX`, `clientY`), fractional in general. */
  datatype Point = Point(x: real, y: real)

  /** Drags shorter than this on both axes are taps (pixels). */
  const TapLimit: real := 10.0

  function Abs(v: real): real {
    if v < 0.0 then -v else v
  }

  /**
   * The pointerup handler's reading of a drag (dx, dy): below 10 px on both axes it is a tap;
   * otherwise a swipe along the dominant axis (ties go vertical) in the direction of the drag.
   */
  function ClassifySwipe(dx: real, dy: real): (g: Gesture)
    ensures g == Tap <==> Abs(dx) < TapLimit && Abs(dy) < TapLimit
    ensures g.Swipe? ==> (g.d.dy == 0 <==> Abs(dx) > Abs(dy))
    ensures g.Swipe? ==> g.d.dx as real * dx + g.d.dy as real * dy > 0.0
  {
    var adx, ady := Abs(dx), Abs(dy);
    var m := if adx < ady then ady else adx;
    if m < TapLimit then Tap
    else if adx > ady then Swipe(if dx > 0.0 then Right else Left)
    else Swipe(if dy > 0.0 then Down else Up)
  }

  /** Dragging the opposite way gives the opposite swipe. */
  lemma SwipeReversed(dx: real, dy: real)
    ensures ClassifySwipe(-dx, -dy) == match ClassifySwipe(dx, dy)
                                       case Tap => Tap
                                       case Swipe(d) => Swipe(Reverse(d))
  {
  }

  /** A diagonal drag of at least 10 px reads as vertical. */
  lemma SwipeTieIsVertical(dx: real, dy: real)
    requires Abs(dx) == Abs(dy) >= TapLimit
    ensures ClassifySwipe(dx, dy) == Swipe(if dy > 0.0 then Down else Up)
  {
  }

}
