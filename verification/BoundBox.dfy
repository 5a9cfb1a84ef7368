/** Axis-aligned bounding boxes and the gap test that filters item pairs. */
module BoundBoxes {

  datatype Box = Box(xmin: real, ymin: real, zmin: real, xmax: real, ymax: real, zmax: real)

  /** `Precision::Confusion()`, the absolute length tolerance of the geometry kernel. */
  const CONFUSION: real := 0.0000001

  /** A gap between zero and the length tolerance is widened to the tolerance, on either side. */
  function ClampGap(gap: real): real {
    if gap < 0.0 && gap > -CONFUSION then -CONFUSION
    else if gap > 0.0 && gap < CONFUSION then CONFUSION
    else gap
  }

  predicate Overlapped(t: Box, o: Box, gap: real) {
    var g := ClampGap(gap);
    if t.xmin > o.xmax + g || t.xmax < o.xmin - g then false
    else if t.ymin > o.ymax + g || t.ymax < o.ymin - g then false
    else if t.zmin > o.zmax + g || t.zmax < o.zmin - g then false
    else true
  }

  lemma OverlapMonotone(t: Box, o: Box, small: real, large: real)
    requires ClampGap(small) <= ClampGap(large)
    requires Overlapped(t, o, small)
    ensures Overlapped(t, o, large)
  {
  }

  /** Testing with the wide gap never rejects a pair the narrow gap accepts, for all boxes, exactly
      when the clamped gaps are ordered. */
  lemma FilterSoundIff(narrow: real, wide: real)
    ensures (forall t, o :: Overlapped(t, o, narrow) ==> Overlapped(t, o, wide)) <==> ClampGap(narrow) <= ClampGap(wide)
  {
    if ClampGap(narrow) <= ClampGap(wide) {
      forall t, o | Overlapped(t, o, narrow) ensures Overlapped(t, o, wide) {
        OverlapMonotone(t, o, narrow, wide);
      }
    } else {
      // Two boxes wide enough in y and z to overlap for any gap, at x-distance ClampGap(narrow).
      var n, w := ClampGap(narrow), ClampGap(wide);
      var m := if n >= 0.0 then n else -n;
      var big := m + 1.0;
      var t := Box(0.0, -big, -big, big, big, big);
      var o := Box(big + n, -big, -big, big + n + big, big, big);
      assert Overlapped(t, o, narrow);
      assert !Overlapped(t, o, wide);
    }
  }

  // ----- What the test decides -----

  datatype Point = Point(x: real, y: real, z: real)

  predicate Proper(b: Box) {
    b.xmin <= b.xmax && b.ymin <= b.ymax && b.zmin <= b.zmax
  }

  predicate Inside(p: Point, b: Box) {
    b.xmin <= p.x <= b.xmax && b.ymin <= p.y <= b.ymax && b.zmin <= p.z <= b.zmax
  }

  predicate Apart(a: real, b: real, g: real) {
    a - b > g || b - a > g
  }

  /** Neither interval starts more than g behind the end of the other. */
  predicate IntervalsMeet(low: real, high: real, low': real, high': real, g: real) {
    low - high' <= g && low' - high <= g
  }

  /** The boxes meet within g on all three axes; for a negative g they reach at least -g into each other. */
  predicate BoxesMeet(t: Box, o: Box, g: real) {
    && IntervalsMeet(t.xmin, t.xmax, o.xmin, o.xmax, g)
    && IntervalsMeet(t.ymin, t.ymax, o.ymin, o.ymax, g)
    && IntervalsMeet(t.zmin, t.zmax, o.zmin, o.zmax, g)
  }

  lemma OverlappedIffMeet(t: Box, o: Box, gap: real)
    ensures Overlapped(t, o, gap) <==> BoxesMeet(t, o, ClampGap(gap))
  {
  }

  /** A point of each box, no more than g from the other in any coordinate. */
  ghost predicate NearPoints(t: Box, o: Box, g: real, p: Point, q: Point) {
    && Inside(p, t) && Inside(q, o)
    && !Apart(p.x, q.x, g) && !Apart(p.y, q.y, g) && !Apart(p.z, q.z, g)
  }

  /** The nearest pair of numbers from two intervals. */
  function Nearest(low: real, high: real, low': real, high': real): (real, real) {
    if high < low' then (high, low') else if high' < low then (low, high')
    else if low <= low' then (low', low') else (low, low)
  }

  lemma NearestMeets(low: real, high: real, low': real, high': real, g: real)
    requires low <= high && low' <= high' && 0.0 <= g && IntervalsMeet(low, high, low', high', g)
    ensures var (a, b) := Nearest(low, high, low', high'); low <= a <= high && low' <= b <= high' && !Apart(a, b, g)
  {
  }

  /** For boxes that are not empty and a clamped gap that is not negative, the test accepts exactly if some
      points of the two boxes are no further apart than the gap in every coordinate. */
  lemma OverlappedIffNear(t: Box, o: Box, gap: real)
    requires Proper(t) && Proper(o) && ClampGap(gap) >= 0.0
    ensures Overlapped(t, o, gap) <==> exists p, q :: NearPoints(t, o, ClampGap(gap), p, q)
  {
    var g := ClampGap(gap);
    if Overlapped(t, o, gap) {
      OverlappedIffMeet(t, o, gap);
      NearestMeets(t.xmin, t.xmax, o.xmin, o.xmax, g);
      NearestMeets(t.ymin, t.ymax, o.ymin, o.ymax, g);
      NearestMeets(t.zmin, t.zmax, o.zmin, o.zmax, g);
      var x, y, z := Nearest(t.xmin, t.xmax, o.xmin, o.xmax), Nearest(t.ymin, t.ymax, o.ymin, o.ymax),
                     Nearest(t.zmin, t.zmax, o.zmin, o.zmax);
      assert NearPoints(t, o, g, Point(x.0, y.0, z.0), Point(x.1, y.1, z.1));
    }
  }

  /** Only gaps strictly between zero and the tolerance change: they become the tolerance, with their sign. */
  lemma ClampGapMeaning(gap: real)
    ensures ClampGap(gap) == gap <==> gap == 0.0 || gap <= -0.0000001 || gap >= 0.0000001
    ensures 0.0 < gap < 0.0000001 ==> ClampGap(gap) == 0.0000001
    ensures -0.0000001 < gap < 0.0 ==> ClampGap(gap) == -0.0000001
  {
  }
}
