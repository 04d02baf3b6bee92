/**
  The swipe rule of the touch hook: a touch start records the point, a touch
  end compares the end point with it, picks the dominant axis, applies the
  threshold and reports at most one direction, and then forgets the start.

  Touch coordinates are CSS pixels, so they are reals here; the direction
  the hook passes to its callback is the returned value.
*/
module Touch {
  import opened Board

  datatype Option<T> = None | Some(value: T)

  datatype Point = Point(x: real, y: real)

  /** The smallest travel, exclusive, that counts as a swipe. */
  const SwipeThreshold: real := 50.0

  function Abs(r: real): real
  {
    if r < 0.0 then -r else r
  }

  /** The direction a touch that travelled (dx, dy) reports, if any. The
      horizontal axis wins only when it travelled strictly further, so ties
      go to the vertical axis; the winning axis must travel strictly more
      than the threshold, and its sign picks the direction (y grows
      downwards). */
  function Classify(dx: real, dy: real): (swipe: Option<Direction>)
    ensures swipe == Some(Right) <==> dx > SwipeThreshold && dx > Abs(dy)
    ensures swipe == Some(Left) <==> -dx > SwipeThreshold && -dx > Abs(dy)
    ensures swipe == Some(Down) <==> dy > SwipeThreshold && dy >= Abs(dx)
    ensures swipe == Some(Up) <==> -dy > SwipeThreshold && -dy >= Abs(dx)
    ensures swipe == None <==> Abs(dx) <= SwipeThreshold && Abs(dy) <= SwipeThreshold
  {
    if Abs(dx) > Abs(dy) then
      if Abs(dx) > SwipeThreshold then Some(if dx > 0.0 then Right else Left) else None
    else
      if Abs(dy) > SwipeThreshold then Some(if dy > 0.0 then Down else Up) else None
  }

  function Opposite(d: Direction): Direction
  {
    match d
    case Up => Down
    case Down => Up
    case Left => Right
    case Right => Left
  }

  /** A touch travelling the other way reports the opposite direction: a
      reported axis has travelled more than the threshold, so its sign is
      never zero. */
  lemma ClassifyReversed(dx: real, dy: real)
    ensures Classify(-dx, -dy) == match Classify(dx, dy)
      case None => None
      case Some(d) => Some(Opposite(d))
  {
  }

  /** The hook's state: the point where the current touch started, if a
      touch has started and not ended yet. */
  class TouchHandler
  {
    var touchStart: Option<Point>

    constructor ()
      ensures touchStart == None
    {
      touchStart := None;
    }

    /** `handleTouchStart`: remember where the touch began. */
    method HandleTouchStart(start: Point)
      modifies this
      ensures touchStart == Some(start)
    {
      touchStart := Some(start);
    }

    /** `handleTouchEnd`: without a recorded start nothing is reported and
        nothing changes; otherwise the travel from the start decides the
        reported direction, and the start is forgotten whether or not a
        swipe was reported. */
    method HandleTouchEnd(end: Point) returns (swipe: Option<Direction>)
      modifies this
      ensures old(touchStart) == None ==> swipe == None && touchStart == None
      ensures old(touchStart) != None ==>
        touchStart == None &&
        swipe == Classify(end.x - old(touchStart).value.x, end.y - old(touchStart).value.y)
    {
      if touchStart == None {
        return None;
      }
      var dx := end.x - touchStart.value.x;
      var dy := end.y - touchStart.value.y;
      swipe := Classify(dx, dy);
      touchStart := None;
    }
  }
}
