/**
 * The RTS client's selection-box arithmetic (rts/src/helpers/mod.rs): the box spanned by the
 * two corners of a mouse drag, and whether a unit lies inside it, with half a unit of margin.
 */
module Helpers {

  datatype Vec2 = Vec2(x: real, y: real)

  function MinR(a: real, b: real): (r: real)
    ensures r <= a && r <= b && (r == a || r == b)
  {
    if a <= b then a else b
  }

  function MaxR(a: real, b: real): (r: real)
    ensures r >= a && r >= b && (r == a || r == b)
  {
    if a <= b then b else a
  }

  /**
   * `calculate_low_high`: the lower-left and upper-right corners of the box two points span,
   * taken axis by axis, so that `low` never exceeds `high`.
   */
  function CalculateLowHigh(point0: Vec2, point1: Vec2): (r: (Vec2, Vec2))
    ensures r.0 == Vec2(MinR(point0.x, point1.x), MinR(point0.y, point1.y))
    ensures r.1 == Vec2(MaxR(point0.x, point1.x), MaxR(point0.y, point1.y))
    ensures r.0.x <= r.1.x && r.0.y <= r.1.y
  {
    if point0.x <= point1.x && point0.y <= point1.y then
      (Vec2(point0.x, point0.y), Vec2(point1.x, point1.y))
    else if point0.x <= point1.x && point0.y > point1.y then
      (Vec2(point0.x, point1.y), Vec2(point1.x, point0.y))
    else if point0.x > point1.x && point0.y <= point1.y then
      (Vec2(point1.x, point0.y), Vec2(point0.x, point1.y))
    else
      (Vec2(point1.x, point1.y), Vec2(point0.x, point0.y))
  }

  /** The box does not depend on which corner the drag started from. */
  lemma LowHighSymmetric(point0: Vec2, point1: Vec2)
    ensures CalculateLowHigh(point0, point1) == CalculateLowHigh(point1, point0)
  {
  }

  /**
   * `calculate_midpoint_scale`: the centre of the box, which is the average of the two points,
   * and its size, which is their distance along each axis and so never negative.
   */
  function CalculateMidpointScale(point0: Vec2, point1: Vec2): (r: (Vec2, Vec2))
    ensures r.0 == Vec2((point0.x + point1.x) / 2.0, (point0.y + point1.y) / 2.0)
    ensures r.1.x == (if point0.x <= point1.x then point1.x - point0.x else point0.x - point1.x)
    ensures r.1.y == (if point0.y <= point1.y then point1.y - point0.y else point0.y - point1.y)
    ensures r.1.x >= 0.0 && r.1.y >= 0.0
  {
    var (low, high) := CalculateLowHigh(point0, point1);
    (Vec2((low.x + high.x) / 2.0, (low.y + high.y) / 2.0), Vec2(high.x - low.x, high.y - low.y))
  }

  const SELECTION_MARGIN: real := 0.5

  /**
   * `is_selected`: whether `point` lies strictly inside the box grown by the margin on every
   * side, that is, less than the margin away from the box on both axes. The source asserts that
   * `low` does not exceed `high`.
   */
  function IsSelected(low: Vec2, high: Vec2, point: Vec2): (r: bool)
    requires low.x <= high.x && low.y <= high.y
    ensures r <==> Gap(low.x, high.x, point.x) < SELECTION_MARGIN && Gap(low.y, high.y, point.y) < SELECTION_MARGIN
  {
    point.x > low.x - SELECTION_MARGIN
    && point.x < high.x + SELECTION_MARGIN
    && point.y > low.y - SELECTION_MARGIN
    && point.y < high.y + SELECTION_MARGIN
  }

  /** How far `v` lies outside the interval `[lo, hi]`; 0 inside it. */
  function Gap(lo: real, hi: real, v: real): (g: real)
    requires lo <= hi
    ensures g >= 0.0
    ensures g == 0.0 <==> lo <= v <= hi
  {
    if v < lo then lo - v else if v > hi then v - hi else 0.0
  }

  /** Every point of the closed box is selected. */
  lemma ClosedBoxSelected(low: Vec2, high: Vec2, point: Vec2)
    requires low.x <= point.x <= high.x && low.y <= point.y <= high.y
    ensures IsSelected(low, high, point)
  {
  }

  /** Every point between the two drag corners is selected by the box they span. */
  lemma DragSelectsBetween(point0: Vec2, point1: Vec2, point: Vec2)
    requires MinR(point0.x, point1.x) <= point.x <= MaxR(point0.x, point1.x)
    requires MinR(point0.y, point1.y) <= point.y <= MaxR(point0.y, point1.y)
    ensures IsSelected(CalculateLowHigh(point0, point1).0, CalculateLowHigh(point0, point1).1, point)
  {
    var (low, high) := CalculateLowHigh(point0, point1);
    ClosedBoxSelected(low, high, point);
  }
}
