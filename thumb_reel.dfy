/**
 * The thumb reel: a track of thumbnails inside a viewport, scrolled by setting the
 * track's `left` offset. Offsets and positions are integer pixels; `left` is the
 * track's current offset (zero or negative when scrolled), a thumbnail's `left` is
 * its position inside the track, and `viewport` is the viewport's width.
 */
module ThumbReel {
  import opened Wrappers

  function Max(a: int, b: int): int { if a >= b then a else b }

  function Min(a: int, b: int): int { if a <= b then a else b }

  /** checkThumbScroll's test: the reel gets `no-scroll` when the last thumbnail ends inside the viewport. */
  predicate NoScroll(lastLeft: int, lastWidth: int, viewport: int)
  {
    lastLeft + lastWidth <= viewport
  }

  /** The offset that puts the last thumbnail's right edge on the viewport's right edge. */
  function LeftMax(lastLeft: int, lastWidth: int, viewport: int): (r: int)
    ensures lastLeft + lastWidth + r == viewport
    // the end offset is a scroll to the left exactly when the thumbnails do not fit
    ensures r < 0 <==> !NoScroll(lastLeft, lastWidth, viewport)
  {
    -(lastLeft + lastWidth - viewport)
  }

  /** Whether the thumbnail at `thumbLeft` of width `thumbWidth` lies wholly inside the viewport. */
  predicate InView(thumbLeft: int, thumbWidth: int, left: int, viewport: int)
  {
    0 <= thumbLeft + left && thumbLeft + thumbWidth + left <= viewport
  }

  /**
   * The right button: nothing when the thumbnails fit or the track is already at
   * its end; otherwise one viewport further, but never past the end.
   */
  function ScrollRight(left: int, lastLeft: int, lastWidth: int, viewport: int): (r: Option<int>)
    ensures r.None? <==> NoScroll(lastLeft, lastWidth, viewport) || left == LeftMax(lastLeft, lastWidth, viewport)
    ensures r.Some? && 0 < viewport ==> r.value != left
    // the last thumbnail never ends left of the viewport's right edge
    ensures r.Some? ==> lastLeft + lastWidth + r.value >= viewport
    // from anywhere short of the end it moves towards the end by at most one viewport
    ensures r.Some? && 0 < viewport && left > LeftMax(lastLeft, lastWidth, viewport) ==> left - viewport <= r.value < left
    // a full viewport step where one remains before the end, and otherwise exactly the end
    ensures r.Some? && left - viewport >= LeftMax(lastLeft, lastWidth, viewport) ==> r.value == left - viewport
    ensures r.Some? && left - viewport < LeftMax(lastLeft, lastWidth, viewport) ==> r.value == LeftMax(lastLeft, lastWidth, viewport)
    // a track already past its end snaps back to the end
    ensures r.Some? && 0 <= viewport && left < LeftMax(lastLeft, lastWidth, viewport) ==> r.value == LeftMax(lastLeft, lastWidth, viewport)
  {
    var leftMax := LeftMax(lastLeft, lastWidth, viewport);
    if NoScroll(lastLeft, lastWidth, viewport) then None
    else if left == leftMax then None
    else Some(Max(left - viewport, leftMax))
  }

  /** The left button: one viewport back, but never before the start. */
  function ScrollLeft(left: int, viewport: int): (r: int)
    // the first thumbnail never starts right of the viewport's left edge
    ensures r <= 0
    ensures 0 <= viewport ==> r - left <= viewport
    ensures 0 <= viewport && left <= 0 ==> left <= r
    ensures r == left + viewport || r == 0
  {
    Min(left + viewport, 0)
  }

  /**
   * The `change` listener's auto-scroll for the selected thumbnail: when it ends
   * past the viewport's right edge, bring its right edge to that edge (clamped at
   * the end of the track); when it starts before the left edge, bring its left
   * edge there; otherwise leave the track where it is.
   */
  function AutoScroll(thumbLeft: int, thumbWidth: int, left: int, lastLeft: int, lastWidth: int, viewport: int): (r: Option<int>)
    // the track moves exactly when the thumbnail is not wholly in view
    ensures r.None? <==> InView(thumbLeft, thumbWidth, left, viewport)
    // offscreen to the right: the right edges meet, unless that passes the end of the track
    ensures r.Some? && thumbLeft + thumbWidth > viewport - left ==>
              r.value == Max(viewport - thumbLeft - thumbWidth, LeftMax(lastLeft, lastWidth, viewport))
    // offscreen to the left only: the left edges meet
    ensures r.Some? && thumbLeft + thumbWidth <= viewport - left ==> r.value == -thumbLeft
    // a thumbnail narrower than the viewport that is not past the last one ends up wholly in view
    ensures r.Some? && 0 <= thumbWidth <= viewport && thumbLeft + thumbWidth <= lastLeft + lastWidth ==>
              InView(thumbLeft, thumbWidth, r.value, viewport)
  {
    if thumbLeft + thumbWidth > viewport - left then
      Some(Max(-(thumbLeft + thumbWidth - viewport), -(lastLeft + lastWidth - viewport)))
    else if -thumbLeft > left then
      Some(-thumbLeft)
    else None
  }

  /** In a reel whose thumbnails fit, the right button never scrolls. */
  lemma NoScrollRightIdle(left: int, lastLeft: int, lastWidth: int, viewport: int)
    requires NoScroll(lastLeft, lastWidth, viewport)
    ensures ScrollRight(left, lastLeft, lastWidth, viewport) == None
  {
  }

  /** A left click followed by a right click returns the track to where it was, away from both ends. */
  lemma RightUndoesLeft(left: int, lastLeft: int, lastWidth: int, viewport: int)
    requires !NoScroll(lastLeft, lastWidth, viewport) && 0 < viewport
    requires LeftMax(lastLeft, lastWidth, viewport) <= left && left + viewport <= 0
    ensures ScrollRight(ScrollLeft(left, viewport), lastLeft, lastWidth, viewport) == Some(left)
  {
  }

  /** A right click followed by a left click returns the track to where it was, away from both ends. */
  lemma LeftUndoesRight(left: int, lastLeft: int, lastWidth: int, viewport: int)
    requires !NoScroll(lastLeft, lastWidth, viewport) && 0 < viewport && left <= 0
    requires LeftMax(lastLeft, lastWidth, viewport) <= left - viewport
    ensures ScrollRight(left, lastLeft, lastWidth, viewport) == Some(left - viewport)
    ensures ScrollLeft(left - viewport, viewport) == left
  {
  }

  /** When the selected thumbnail is not past the last one, the auto-scroll clamp at the end never applies. */
  lemma AutoScrollClampInactive(thumbLeft: int, thumbWidth: int, left: int, lastLeft: int, lastWidth: int, viewport: int)
    requires thumbLeft + thumbWidth <= lastLeft + lastWidth
    requires thumbLeft + thumbWidth > viewport - left
    ensures AutoScroll(thumbLeft, thumbWidth, left, lastLeft, lastWidth, viewport) == Some(viewport - thumbLeft - thumbWidth)
    ensures viewport - thumbLeft - thumbWidth >= LeftMax(lastLeft, lastWidth, viewport)
  {
  }
}
