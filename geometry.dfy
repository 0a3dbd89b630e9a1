/** Points, cell sizes, rounding and the tolerance window shared by the
    food and obstacle collision tests. Coordinates are real numbers: the
    game's `f32` values without their rounding error. */
module Geometry {

  /** An `[f32; 2]` position on the screen: x grows rightwards, y downwards. */
  datatype Point = Point(x: real, y: real)

  /** The `size: [f32; 2]` of a drawn cell: width first, then height. */
  datatype Size = Size(width: real, height: real)

  /** Every entity of the game is drawn as a 10 x 10 cell. */
  const DefaultSize: Size := Size(10.0, 10.0)

  /** `f32::round`: the nearest integer, halfway cases away from zero. */
  function Round(v: real): (r: int)
    ensures r as real - 0.5 <= v <= r as real + 0.5
    ensures v - r as real == 0.5 ==> v < 0.0
    ensures r as real - v == 0.5 ==> v > 0.0
  {
    if v >= 0.0 then (v + 0.5).Floor else -((0.5 - v).Floor)
  }

  /** An inclusive range `lo..=hi` of coordinate differences. */
  datatype Window = Window(lo: real, hi: real)

  /** `RangeInclusive::contains`. */
  predicate Contains(w: Window, d: real)
  {
    w.lo <= d <= w.hi
  }

  /** The collision window `-size[0] * boost ..= size[1] * boost`: the lower
      bound uses the cell's width and the upper bound its height. */
  function Tolerance(size: Size, boost: real): (w: Window)
    ensures 0.0 <= size.width && 0.0 <= size.height && 0.0 <= boost ==> Contains(w, 0.0)
  {
    Window(-size.width * boost, size.height * boost)
  }
}
