/** `render(index)` and the scroll-to-frame mapping that drives it. */
module Renderer {

  import opened Canvas2D
  import opened FrameStore

  /** The canvas' logical size, set once on mount. */
  const SurfaceWidth: nat := 1920
  const SurfaceHeight: nat := 1080

  /** Draws frame slot `index` over a cleared surface when that slot holds an
      image; otherwise leaves the canvas exactly as it was. */
  function Render(s: Store, c: Canvas, index: int): (r: Canvas)
    ensures !Filled(s, index) ==> r == c
    ensures Filled(s, index) ==>
      r == Canvas(c.width, c.height, [Draw(s[index].value, c.width, c.height)])
    ensures r.width == c.width && r.height == c.height
  {
    if Filled(s, index) then DrawFull(ClearAll(c), s[index].value) else c
  }

  /** `Math.round(x)`: the nearest integer, halves rounded up. */
  function Round(x: real): (r: int)
    ensures x - 0.5 < r as real <= x + 0.5
  {
    (x + 0.5).Floor
  }

  /** The tweened `obj.frame` at timeline progress `p`: the tween runs from
      0 to `frameCount - 1` with no easing. */
  function FrameAt(p: real): (f: real)
    ensures 0.0 <= p <= 1.0 ==> 0.0 <= f <= (FrameCount - 1) as real
  {
    p * (FrameCount - 1) as real
  }

  /** A frame value anywhere on the tween's range rounds to a store index. */
  lemma RoundInRange(x: real)
    requires 0.0 <= x <= (FrameCount - 1) as real
    ensures 0 <= Round(x) < FrameCount
  {
  }

  /** The ends of the timeline show the first and last frame, and its middle
      shows frame index 90 (89.5 rounded up). */
  lemma TimelineEnds()
    ensures Round(FrameAt(0.0)) == 0
    ensures Round(FrameAt(1.0)) == FrameCount - 1
    ensures Round(FrameAt(0.5)) == 90
  {
  }

  /** Rendering is idempotent. */
  lemma RenderIdempotent(s: Store, c: Canvas, index: int)
    ensures Render(s, Render(s, c, index), index) == Render(s, c, index)
  {
  }

}
