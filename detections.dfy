/** What the external detector/tracker hands the counting loop for one frame,
    the filter that picks out the boxes worth counting, and the anchor point
    drawn under each of them. */
module Detections {

  datatype Option<+T> = None | Some(value: T)

  /** Corners of an axis-aligned box in pixels (left, top, right, bottom),
      already truncated to integers as the loop does with `map(int, ...)`. */
  datatype Box = Box(x1: int, y1: int, x2: int, y2: int)

  /** One detection of one frame: the class name the model gives its class
      id, the confidence score, the track id the tracker assigned (absent when
      tracking has not caught the object), and its box. */
  datatype Detection = Detection(className: string, conf: real, trackId: Option<int>, box: Box)

  /** The `boxes` of one tracker result: `None` when the tracker returns none. */
  type Frame = Option<seq<Detection>>

  datatype Point = Point(x: int, y: int)

  /** The one class that is counted. */
  const TargetLabel: string := "car"

  /** Confidence must be strictly above this for a box to be counted. */
  const Threshold: real := 0.5

  /** A box takes part in counting (and is drawn) exactly when it is a car
      seen with confidence strictly above the threshold. */
  predicate Qualifies(d: Detection)
  {
    d.className == TargetLabel && d.conf > Threshold
  }

  /** The loop reads the track id of every qualifying box without checking it
      first, so a qualifying box must carry one. */
  predicate Tracked(d: Detection)
  {
    Qualifies(d) ==> d.trackId.Some?
  }

  /** The anchor point of a box: the middle of its bottom edge, the horizontal
      middle taken with Python's floor division `//`. */
  function Anchor(b: Box): (p: Point)
    ensures p.y == b.y2
    ensures 2 * p.x <= b.x1 + b.x2 < 2 * p.x + 2
    ensures b.x1 <= b.x2 ==> b.x1 <= p.x <= b.x2
    ensures b.x1 <= b.x2 ==> p.x - b.x1 <= b.x2 - p.x <= p.x - b.x1 + 1
  {
    Point((b.x1 + b.x2) / 2, b.y2)
  }
}
