/** The obstacles: a fixed list of positions drawn once per session, and the
    per-frame hit test. */
module Obstacles {
  import opened Geometry
  import opened SnakeEntity

  /** The obstacle at `p` is within the tolerance window of `reference` on
      both axes (no rounding here, unlike the food). */
  predicate Near(p: Point, reference: Point, w: Window)
  {
    Contains(w, p.x - reference.x) && Contains(w, p.y - reference.y)
  }

  /** `Iterator::any` over the obstacle list: some listed point is near
      `reference`. */
  predicate AnyNear(list: seq<Point>, reference: Point, w: Window)
  {
    exists i :: 0 <= i < |list| && Near(list[i], reference, w)
  }

  /** An obstacle lying exactly on the reference point is hit whenever the
      window holds 0, and adding obstacles never clears a hit. */
  lemma HitAtReference(list: seq<Point>, more: seq<Point>, reference: Point, w: Window)
    requires reference in list
    ensures Contains(w, 0.0) ==> AnyNear(list, reference, w)
    ensures AnyNear(list, reference, w) ==> AnyNear(list + more, reference, w)
  {
    var i :| 0 <= i < |list| && list[i] == reference;
    assert Contains(w, 0.0) ==> Near(list[i], reference, w);
    if AnyNear(list, reference, w) {
      var j :| 0 <= j < |list| && Near(list[j], reference, w);
      assert (list + more)[j] == list[j];
    }
  }

  class Obstacle {
    var posList: seq<Point>
    var isHit: bool
    const size: Size := DefaultSize

    /** `Obstacle::generate_obstacles`: one position per value of the range
        `0..=objectCount`, each from the next random sample, in order; the
        range is empty for a negative count. */
    constructor Generate(objectCount: int, samples: seq<Point>)
      requires -128 <= objectCount <= 127
      requires objectCount + 1 <= |samples|
      ensures objectCount >= 0 ==> |posList| == objectCount + 1
      ensures objectCount < 0 ==> posList == []
      ensures posList == samples[..|posList|]
      ensures !isHit
    {
      var obsList: seq<Point> := [];
      var j := 0;
      while j <= objectCount
        invariant 0 <= j && (objectCount >= 0 ==> j <= objectCount + 1) && (objectCount < 0 ==> j == 0)
        invariant |obsList| == j
        invariant obsList == samples[..j]
      {
        obsList := obsList + [samples[j]];
        j := j + 1;
      }
      posList := obsList;
      isHit := false;
    }

    /** `Obstacle::exist`: the hit flag is recomputed from the first element
        of the snake's trail, its oldest point, and the food's speed boost.
        The trail must not be empty: the game unwraps its first point
        once per obstacle. */
    method Exist(snake: SnakeState, speedBoost: real)
      requires |snake.positions| > 0
      modifies this`isHit
      ensures isHit == AnyNear(posList, snake.positions[0], Tolerance(size, speedBoost))
    {
      var tolerance := Tolerance(size, speedBoost);
      var reference := snake.positions[0];
      if AnyNear(posList, reference, tolerance) {
        isHit := true;
      } else {
        isHit := false;
      }
    }
  }
}
