/** The snake: its heading, one step of movement with screen wrap,
    self-collision and the bounded trail of visited points. */
module SnakeEntity {
  import opened Geometry

  /** The heading, stored in the game as one of the characters 'l', 'r',
      'u', 'd'; a closed enumeration leaves no room for the panic arm of
      the character match. */
  datatype Heading = Left | Right | Up | Down

  /** A pressed key as reported by the keyboard library; only the four
      arrow keys matter to the game. */
  datatype Key = KeyLeft | KeyRight | KeyUp | KeyDown | KeyOther(code: nat)

  function Opposite(h: Heading): Heading
  {
    match h
    case Left => Right
    case Right => Left
    case Up => Down
    case Down => Up
  }

  /** The arrow key that asks for heading `h`. */
  function KeyFor(h: Heading): Key
  {
    match h
    case Left => KeyLeft
    case Right => KeyRight
    case Up => KeyUp
    case Down => KeyDown
  }

  /** Position of `h` in the order in which the keys are examined. */
  function Priority(h: Heading): nat
  {
    match h
    case Left => 0
    case Right => 1
    case Up => 2
    case Down => 3
  }

  /** Key `KeyFor(h)` is pressed and turning to `h` is not a reversal. */
  predicate Admits(current: Heading, h: Heading, keys: seq<Key>)
  {
    KeyFor(h) in keys && current != Opposite(h)
  }

  /** The heading after reading the pressed keys: the first admissible
      heading in the order Left, Right, Up, Down, or the current one if
      none is admissible. A snake never turns straight back on itself. */
  function NextHeading(current: Heading, keys: seq<Key>): (next: Heading)
    ensures next != Opposite(current)
    ensures (forall h :: !Admits(current, h, keys)) ==> next == current
    ensures (exists h :: Admits(current, h, keys)) ==>
              Admits(current, next, keys) &&
              forall h :: Priority(h) < Priority(next) ==> !Admits(current, h, keys)
  {
    if Admits(current, Left, keys) then Left
    else if Admits(current, Right, keys) then Right
    else if Admits(current, Up, keys) then Up
    else if Admits(current, Down, keys) then Down
    else current
  }

  /** `step` taken in the heading's direction along its axis: y grows
      downwards, so Up and Left both decrease their coordinate. */
  function Signed(h: Heading, step: real): real
  {
    if h == Left || h == Up then -step else step
  }

  predicate IsHorizontal(h: Heading)
  {
    h == Left || h == Right
  }

  /** One move of `step` along the heading, before any wrap: only the
      heading's axis changes, by `step` in the heading's direction. */
  function Displace(p: Point, h: Heading, step: real): (q: Point)
    ensures IsHorizontal(h) ==> q.y == p.y && q.x - p.x == Signed(h, step)
    ensures !IsHorizontal(h) ==> q.x == p.x && q.y - p.y == Signed(h, step)
  {
    match h
    case Left => Point(p.x - step, p.y)
    case Right => Point(p.x + step, p.y)
    case Up => Point(p.x, p.y - step)
    case Down => Point(p.x, p.y + step)
  }

  /** A move followed by the same move on the opposite heading is undone. */
  lemma DisplaceInverse(p: Point, h: Heading, step: real)
    ensures Displace(Displace(p, h, step), Opposite(h), step) == p
  {
  }

  /** Screen wrap on one axis: past the far edge `limit` the coordinate
      restarts at 0; further than one cell before the near edge it jumps to
      `limit`. The far edge is tested first, as in the game. */
  function WrapAxis(v: real, limit: real, cell: real): (w: real)
    ensures w == v || w == 0.0 || w == limit
    ensures 0.0 <= cell && 0.0 <= limit ==> -cell <= w <= limit
    ensures 0.0 <= cell ==> (-cell <= v <= limit ==> w == v)
    ensures 0.0 <= cell && v > limit ==> w == 0.0
    ensures 0.0 <= cell && 0.0 <= limit && v < -cell ==> w == limit
  {
    var v1 := if v > limit then 0.0 else v;
    if v1 < -cell then limit else v1
  }

  /** The most points the trail may hold once `head` is appended before the
      oldest point is evicted: `score * 100`. */
  function TrailBound(score: nat): nat
  {
    score * 100
  }

  /** The trail after appending `head`: when the grown trail reaches
      `score * 100` points, its oldest point is removed. */
  function PushBounded(trail: seq<Point>, head: Point, score: nat): (r: seq<Point>)
    ensures |r| == if |trail| + 1 < TrailBound(score) then |trail| + 1 else |trail|
    ensures |trail| + 1 < TrailBound(score) ==> r == trail + [head]
    ensures |trail| + 1 >= TrailBound(score) && |trail| >= 1 ==> r == trail[1..] + [head]
    ensures score >= 1 ==> |r| >= 1 && r[|r| - 1] == head
    ensures |trail| < TrailBound(score) ==> |r| < TrailBound(score)
    ensures |r| <= if |trail| < TrailBound(score) - 1 then TrailBound(score) - 1 else |trail|
  {
    var grown := trail + [head];
    assert |trail| >= 1 ==> grown[1..] == trail[1..] + [head];
    if |grown| >= TrailBound(score) then grown[1..] else grown
  }

  /** The trail after the heads of several frames, scored alike, are pushed
      in order. */
  function PushAll(trail: seq<Point>, heads: seq<Point>, score: nat): seq<Point>
    decreases |heads|
  {
    if heads == [] then trail else PushAll(PushBounded(trail, heads[0], score), heads[1..], score)
  }

  /** How many points a trail of `length` points holds after `pushed`
      more heads: all of them, up to one less than `score * 100`. */
  function WindowLength(length: nat, pushed: nat, score: nat): int
  {
    if length + pushed < TrailBound(score) then length + pushed else TrailBound(score) - 1
  }

  /** The last `n` elements of `s`. */
  function Newest(s: seq<Point>, n: int): seq<Point>
    requires 0 <= n <= |s|
  {
    s[|s| - n..]
  }

  /** Dropping a prefix does not change the newest `n` elements. */
  lemma NewestOfSuffix(s: seq<Point>, k: nat, n: int)
    requires k <= |s| && 0 <= n <= |s| - k
    ensures Newest(s[k..], n) == Newest(s, n)
  {
    assert s[k..][|s| - k - n..] == s[|s| - n..];
  }

  /** One push, followed by the heads still to come, is a suffix of the old
      trail followed by all the heads. */
  lemma PushThenRest(trail: seq<Point>, heads: seq<Point>, score: nat)
    requires heads != [] && |trail| < TrailBound(score)
    ensures var next := PushBounded(trail, heads[0], score);
            |next| <= |trail| + 1 &&
            next + heads[1..] == (trail + heads)[|trail| + 1 - |next|..]
  {
    var next := PushBounded(trail, heads[0], score);
    var k := |trail| + 1 - |next|;
    var all := trail + heads;
    assert next == trail[k..] + [heads[0]] by {
      if k == 0 {
        assert trail[k..] == trail;
      }
    }
    assert heads == [heads[0]] + heads[1..];
    assert all == trail[..k] + (trail[k..] + [heads[0]] + heads[1..]);
  }

  /** The trail is a sliding window: whatever was pushed, it holds exactly
      the newest points visited, as many as fit below `score * 100`. */
  lemma {:induction false} PushAllWindow(trail: seq<Point>, heads: seq<Point>, score: nat)
    requires |trail| < TrailBound(score)
    ensures 0 <= WindowLength(|trail|, |heads|, score) <= |trail| + |heads|
    ensures PushAll(trail, heads, score) == Newest(trail + heads, WindowLength(|trail|, |heads|, score))
    decreases |heads|
  {
    if heads == [] {
      assert trail + heads == trail;
    } else {
      var next := PushBounded(trail, heads[0], score);
      var k := |trail| + 1 - |next|;
      PushAllWindow(next, heads[1..], score);
      PushThenRest(trail, heads, score);
      NewestOfSuffix(trail + heads, k, WindowLength(|trail|, |heads|, score));
    }
  }

  /** The snake's state as a value: what `clone()` copies, and what one
      update of the snake maps to its successor. */
  datatype SnakeState = SnakeState(x: real, y: real, positions: seq<Point>, direction: Heading, isAlive: bool)

  /** The signed step length `xy_diff` of every snake. */
  const XyDiff: int := 1

  /** `Snake::default()`: at the origin, heading right, alive, no trail. */
  const StartSnake: SnakeState := SnakeState(0.0, 0.0, [], Right, true)

  /** The state after one update of the snake, given the keys pressed this
      frame, the food's score and speed boost, and the screen size. The new
      heading is the key test's; the head moves one step along it and
      wraps; the snake dies iff the new head is already on the trail, and
      never revives; the trail is the old one with the head pushed. On an
      axis that the step does not leave, the coordinate moves by exactly the
      step along the heading's axis and the other axis keeps its on-screen
      coordinate. */
  function Stepped(s: SnakeState, keys: seq<Key>, score: nat, speedBoost: real,
                   screenWidth: real, screenHeight: real): (t: SnakeState)
    ensures t.direction == NextHeading(s.direction, keys)
    ensures 0.0 <= screenWidth ==> -DefaultSize.width <= t.x <= screenWidth
    ensures 0.0 <= screenHeight ==> -DefaultSize.height <= t.y <= screenHeight
    ensures IsHorizontal(t.direction) && -DefaultSize.height <= s.y <= screenHeight ==> t.y == s.y
    ensures !IsHorizontal(t.direction) && -DefaultSize.width <= s.x <= screenWidth ==> t.x == s.x
    ensures IsHorizontal(t.direction) &&
            -DefaultSize.width <= s.x + Signed(t.direction, XyDiff as real * speedBoost) <= screenWidth ==>
              t.x == s.x + Signed(t.direction, XyDiff as real * speedBoost)
    ensures !IsHorizontal(t.direction) &&
            -DefaultSize.height <= s.y + Signed(t.direction, XyDiff as real * speedBoost) <= screenHeight ==>
              t.y == s.y + Signed(t.direction, XyDiff as real * speedBoost)
    ensures t.isAlive == (s.isAlive && Point(t.x, t.y) !in s.positions)
    ensures t.positions == PushBounded(s.positions, Point(t.x, t.y), score)
  {
    var heading := NextHeading(s.direction, keys);
    var moved := Displace(Point(s.x, s.y), heading, XyDiff as real * speedBoost);
    var x := WrapAxis(moved.x, screenWidth, DefaultSize.width);
    var y := WrapAxis(moved.y, screenHeight, DefaultSize.height);
    SnakeState(x, y, PushBounded(s.positions, Point(x, y), score), heading,
               s.isAlive && Point(x, y) !in s.positions)
  }

  class Snake {
    var x: real
    var y: real
    const xyDiff: int := XyDiff
    /** The trail, oldest point first. */
    var positions: seq<Point>
    var direction: Heading
    const size: Size := DefaultSize
    var isAlive: bool

    /** `Snake::default()`. */
    constructor ()
      ensures Snapshot() == StartSnake
    {
      x, y := 0.0, 0.0;
      positions := [];
      direction := Right;
      isAlive := true;
    }

    /** `clone()`: the snake's state as a value. */
    function Snapshot(): (s: SnakeState)
      reads this
      ensures s.positions == positions && Point(s.x, s.y) == Point(x, y)
      ensures s.direction == direction && s.isAlive == isAlive
    {
      SnakeState(x, y, positions, direction, isAlive)
    }

    /** `Snake::snake`: one update, given the keys pressed this frame, the
        food's score and speed boost, and the screen size. */
    method Step(keys: seq<Key>, score: nat, speedBoost: real, screenWidth: real, screenHeight: real)
      modifies this
      ensures Snapshot() == Stepped(old(Snapshot()), keys, score, speedBoost, screenWidth, screenHeight)
    {
      ghost var before := Snapshot();
      Steer(keys);
      ghost var step := xyDiff as real * speedBoost;
      assert step == XyDiff as real * speedBoost;
      ghost var moved := Displace(Point(before.x, before.y), direction, step);
      Advance(speedBoost);
      assert Point(x, y) == moved;
      WrapAround(screenWidth, screenHeight);
      assert positions == before.positions && isAlive == before.isAlive;
      ghost var head := Point(x, y);
      Record(score);
      assert direction == NextHeading(before.direction, keys);
      assert head == Point(WrapAxis(moved.x, screenWidth, DefaultSize.width),
                           WrapAxis(moved.y, screenHeight, DefaultSize.height));
      assert Snapshot() == SnakeState(head.x, head.y, PushBounded(before.positions, head, score), direction,
                                      before.isAlive && head !in before.positions);
    }

    /** The key test of `Snake::snake`: Left, Right, Up, Down in that order,
        each refused when it would reverse the current heading. */
    method Steer(keys: seq<Key>)
      modifies this`direction
      ensures direction == NextHeading(old(direction), keys)
    {
      if KeyLeft in keys && direction != Right {
        direction := Left;
      } else if KeyRight in keys && direction != Left {
        direction := Right;
      } else if KeyUp in keys && direction != Down {
        direction := Up;
      } else if KeyDown in keys && direction != Up {
        direction := Down;
      }
    }

    /** The move of `xy_diff * speed_boost` along the heading. */
    method Advance(speedBoost: real)
      modifies this`x, this`y
      ensures Point(x, y) == Displace(Point(old(x), old(y)), direction, xyDiff as real * speedBoost)
    {
      match direction {
        case Left => x := x - xyDiff as real * speedBoost;
        case Right => x := x + xyDiff as real * speedBoost;
        case Up => y := y - xyDiff as real * speedBoost;
        case Down => y := y + xyDiff as real * speedBoost;
      }
    }

    /** The four edge tests, in the game's order. */
    method WrapAround(screenWidth: real, screenHeight: real)
      modifies this`x, this`y
      ensures x == WrapAxis(old(x), screenWidth, size.width)
      ensures y == WrapAxis(old(y), screenHeight, size.height)
    {
      if x > screenWidth {
        x := 0.0;
      }
      if y > screenHeight {
        y := 0.0;
      }
      if y < 0.0 - size.height {
        y := screenHeight;
      }
      if x < 0.0 - size.width {
        x := screenWidth;
      }
    }

    /** Self-collision against the trail, then `push` of the head and
        `remove(0)` once the trail has reached `score * 100` points. */
    method Record(score: nat)
      modifies this`positions, this`isAlive
      ensures isAlive == (old(isAlive) && Point(x, y) !in old(positions))
      ensures positions == PushBounded(old(positions), Point(x, y), score)
    {
      if Point(x, y) in positions {
        isAlive := false;
      }

      positions := positions + [Point(x, y)];

      if |positions| >= score * 100 {
        positions := positions[1..];
      }
    }
  }
}
