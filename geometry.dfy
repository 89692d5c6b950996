/**
 * Box geometry of the detector: corner-form boxes, the centre/size to corner
 * conversion of the backend, and the intersection-over-union (IoU) measure
 * used by non-maximum suppression.
 */
module Geometry {

  /** A corner-form box, in the order the backend stacks it: [x_min, y_min, x_max, y_max]. */
  datatype Box = Box(xMin: real, yMin: real, xMax: real, yMax: real)

  /** A detector anchor in centre/size form. */
  datatype CenterSize = CenterSize(cx: real, cy: real, w: real, h: real)

  /**
   * The corner box of an anchor: each corner lies half the width (height)
   * away from the centre; no rescaling to the original image size.
   */
  function CornerBox(cx: real, cy: real, w: real, h: real): (b: Box)
    ensures b.xMax - b.xMin == w && b.yMax - b.yMin == h
    ensures b.xMin + b.xMax == 2.0 * cx && b.yMin + b.yMax == 2.0 * cy
    ensures w >= 0.0 ==> b.xMin <= b.xMax
    ensures h >= 0.0 ==> b.yMin <= b.yMax
  {
    Box(cx - w / 2.0, cy - h / 2.0, cx + w / 2.0, cy + h / 2.0)
  }

  /** Centre and size of a corner box: the inverse of CornerBox. */
  function ToCenterSize(b: Box): (a: CenterSize)
  {
    CenterSize((b.xMin + b.xMax) / 2.0, (b.yMin + b.yMax) / 2.0, b.xMax - b.xMin, b.yMax - b.yMin)
  }

  lemma CornerBoxRoundTrip(cx: real, cy: real, w: real, h: real)
    ensures ToCenterSize(CornerBox(cx, cy, w, h)) == CenterSize(cx, cy, w, h)
  {
  }

  lemma CenterSizeRoundTrip(b: Box)
    ensures var a := ToCenterSize(b); CornerBox(a.cx, a.cy, a.w, a.h) == b
  {
  }

  function Min(a: real, b: real): real { if a <= b then a else b }
  function Max(a: real, b: real): real { if a <= b then b else a }

  /** A side length, with an inverted side counting as zero. */
  function Clamp(x: real): (r: real)
    ensures r >= 0.0 && r >= x
    ensures x >= 0.0 ==> r == x
  {
    if x < 0.0 then 0.0 else x
  }

  /** Area of a box; an inverted (degenerate) box has area zero. */
  function Area(b: Box): (r: real)
    ensures r >= 0.0
  {
    Clamp(b.xMax - b.xMin) * Clamp(b.yMax - b.yMin)
  }

  /** Length of the overlap of two intervals, zero when they are disjoint. */
  function Overlap(aMin: real, aMax: real, bMin: real, bMax: real): (r: real)
    ensures 0.0 <= r <= Clamp(aMax - aMin) && r <= Clamp(bMax - bMin)
  {
    Clamp(Min(aMax, bMax) - Max(aMin, bMin))
  }

  /** Area of the overlap of two boxes. */
  function Intersection(a: Box, b: Box): (r: real)
    ensures 0.0 <= r <= Area(a) && r <= Area(b)
  {
    var w := Overlap(a.xMin, a.xMax, b.xMin, b.xMax);
    var h := Overlap(a.yMin, a.yMax, b.yMin, b.yMax);
    WithinArea(w, h, a);
    WithinArea(w, h, b);
    w * h
  }

  /** A rectangle no wider and no taller than box b has no more area. */
  lemma WithinArea(w: real, h: real, b: Box)
    requires 0.0 <= w <= Clamp(b.xMax - b.xMin) && 0.0 <= h <= Clamp(b.yMax - b.yMin)
    ensures 0.0 <= w * h <= Area(b)
  {
    ProductMonotone(w, Clamp(b.xMax - b.xMin), h, Clamp(b.yMax - b.yMin));
  }

  lemma ProductMonotone(a: real, b: real, c: real, d: real)
    requires 0.0 <= a <= b && 0.0 <= c <= d
    ensures 0.0 <= a * c <= b * d
  {
    assert a * c <= b * c;
    assert b * c <= b * d;
  }

  /** Area covered by either box. */
  function Union(a: Box, b: Box): (r: real)
    ensures r >= Area(a) && r >= Area(b)
  {
    Area(a) + Area(b) - Intersection(a, b)
  }

  /** Intersection over union, defined as zero when the union is empty. */
  function IoU(a: Box, b: Box): (r: real)
    ensures 0.0 <= r <= 1.0
    ensures r > 0.0 ==> Intersection(a, b) > 0.0
  {
    var u := Union(a, b);
    var i := Intersection(a, b);
    if u == 0.0 then 0.0
    else
      RatioWithin(i, u);
      i / u
  }

  lemma RatioWithin(i: real, u: real)
    requires 0.0 <= i <= u && u > 0.0
    ensures 0.0 <= i / u <= 1.0
    ensures i / u > 0.0 ==> i > 0.0
  {
    var q := i / u;
    assert q * u == i;
    assert (1.0 - q) * u == u - i;
  }

  lemma IoUSymmetric(a: Box, b: Box)
    ensures IoU(a, b) == IoU(b, a)
  {
    assert Min(a.xMax, b.xMax) == Min(b.xMax, a.xMax) && Max(a.xMin, b.xMin) == Max(b.xMin, a.xMin);
    assert Min(a.yMax, b.yMax) == Min(b.yMax, a.yMax) && Max(a.yMin, b.yMin) == Max(b.yMin, a.yMin);
    assert Intersection(a, b) == Intersection(b, a);
  }

  /** A box with some area covers itself exactly: its IoU with itself is one. */
  lemma IoUSelf(b: Box)
    requires Area(b) > 0.0
    ensures IoU(b, b) == 1.0
  {
    assert Min(b.xMax, b.xMax) == b.xMax && Max(b.xMin, b.xMin) == b.xMin;
    assert Min(b.yMax, b.yMax) == b.yMax && Max(b.yMin, b.yMin) == b.yMin;
    assert Intersection(b, b) == Area(b);
  }

  /** A box with no area overlaps nothing, so it never suppresses another box. */
  lemma {:induction false} ZeroAreaIoU(a: Box, b: Box)
    requires Area(a) == 0.0
    ensures IoU(a, b) == 0.0 && IoU(b, a) == 0.0
  {
    assert Intersection(a, b) == 0.0;
    IoUSymmetric(a, b);
  }

  /** The box with the roles of the x and y axes exchanged. */
  function SwapAxes(b: Box): Box
  {
    Box(b.yMin, b.xMin, b.yMax, b.xMax)
  }

  /** Every box with its axes exchanged. */
  function SwapAxesAll(boxes: seq<Box>): (swapped: seq<Box>)
    ensures |swapped| == |boxes|
    ensures forall k :: 0 <= k < |boxes| ==> swapped[k] == SwapAxes(boxes[k])
  {
    seq(|boxes|, k requires 0 <= k < |boxes| => SwapAxes(boxes[k]))
  }

  /**
   * Exchanging the axes of both boxes leaves their IoU unchanged, so boxes
   * handed over as [x1, y1, x2, y2] where [y1, x1, y2, x2] is documented
   * overlap exactly as much.
   */
  lemma SwapAxesIoU(a: Box, b: Box)
    ensures IoU(SwapAxes(a), SwapAxes(b)) == IoU(a, b)
  {
    SwapAxesArea(a);
    SwapAxesArea(b);
    SwapAxesIntersection(a, b);
  }

  lemma SwapAxesArea(a: Box)
    ensures Area(SwapAxes(a)) == Area(a)
  {
    MulCommutes(Clamp(a.xMax - a.xMin), Clamp(a.yMax - a.yMin));
  }

  lemma SwapAxesIntersection(a: Box, b: Box)
    ensures Intersection(SwapAxes(a), SwapAxes(b)) == Intersection(a, b)
  {
    MulCommutes(Overlap(a.xMin, a.xMax, b.xMin, b.xMax), Overlap(a.yMin, a.yMax, b.yMin, b.yMax));
  }

  lemma MulCommutes(x: real, y: real)
    ensures x * y == y * x
  {
  }
}
