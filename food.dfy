/** The food: respawn by rejection sampling, the special flag, and the eat
    rule that raises the score and the speed boost. */
module FoodEntity {
  import opened Geometry
  import opened SnakeEntity

  /** The score is a `u8`. */
  const ScoreMax: int := 255

  /** Some sample lies off the trail, so the rejection loop stops. */
  predicate HasFreeSample(samples: seq<Point>, trail: seq<Point>)
  {
    exists i :: 0 <= i < |samples| && samples[i] !in trail
  }

  /** The first sample from position `i` on that does not coincide with a
      point of the trail. */
  function FirstFreeFrom(samples: seq<Point>, trail: seq<Point>, i: nat): (k: nat)
    requires i <= |samples| && exists j :: i <= j < |samples| && samples[j] !in trail
    ensures i <= k < |samples| && samples[k] !in trail
    ensures forall j :: i <= j < k ==> samples[j] in trail
    decreases |samples| - i
  {
    if samples[i] !in trail then i else FirstFreeFrom(samples, trail, i + 1)
  }

  /** Which sample the rejection loop accepts: the first one that does not
      coincide with a point of the trail. */
  function FirstFreeIndex(samples: seq<Point>, trail: seq<Point>): (k: nat)
    requires HasFreeSample(samples, trail)
    ensures k < |samples| && samples[k] !in trail
    ensures forall j :: 0 <= j < k ==> samples[j] in trail
  {
    FirstFreeFrom(samples, trail, 0)
  }

  /** Food eaten at a score that is a multiple of 10 is special. */
  predicate IsSpecialScore(score: int)
  {
    score % 10 == 0
  }

  /** The points an eaten food is worth. */
  function Reward(special: bool): int
  {
    if special then 5 else 1
  }

  /** The eat test: the rounded differences between the food and the snake's
      head, on both axes, lie in the tolerance window. */
  predicate Touches(food: Point, snake: SnakeState, w: Window)
  {
    Contains(w, (Round(food.y) - Round(snake.y)) as real) &&
    Contains(w, (Round(food.x) - Round(snake.x)) as real)
  }

  /** The eat test compares whole cells: food whose coordinates round like
      the head's is eaten whenever the tolerance window holds 0, and two
      spots that round alike are eaten alike. */
  lemma TouchesAtHead(food: Point, other: Point, snake: SnakeState, w: Window)
    requires Round(food.x) == Round(snake.x) && Round(food.y) == Round(snake.y)
    requires Round(other.x) == Round(food.x) && Round(other.y) == Round(food.y)
    ensures Contains(w, 0.0) ==> Touches(food, snake, w)
    ensures Touches(other, snake, w) == Touches(food, snake, w)
  {
  }

  /** A special score never overflows the `u8` when 5 is added to it: the
      largest multiple of 10 below 256 is 250. */
  lemma SpecialRewardFits(score: int)
    requires 0 <= score <= ScoreMax && IsSpecialScore(score)
    ensures score + Reward(true) <= ScoreMax
  {
  }

  /** The food's state as a value. */
  datatype FoodState = FoodState(
    x: real, y: real, snake: SnakeState, isAlive: bool, score: int, isSpecial: bool, speedBoost: real)

  /** `Food::default()`: not yet placed, score 1, boost 1, holding a copy of
      a fresh snake. */
  const StartFood: FoodState := FoodState(0.0, 0.0, StartSnake, false, 1, false, 1.0)

  /** The result of one food update, and whether its `u8` score overflowed. */
  datatype Fed = Fed(food: FoodState, overflow: bool)

  /** One food update on the copy of the snake it holds. Live food stays
      where it is; eaten food respawns at the first sample off the trail.
      The special flag is taken from the score before the eat test. An eat
      adds 5 points and 0.3 boost to special food, 1 point otherwise, and
      kills the food; without an eat, score, boost and liveness are kept.
      `overflow` holds exactly when the game's `score += 1` would leave
      the `u8` range, and the state is then the one reached at that point. */
  function Feed(f: FoodState, samples: seq<Point>): (r: Fed)
    requires 0 <= f.score <= ScoreMax
    requires !f.isAlive ==> HasFreeSample(samples, f.snake.positions)
    ensures 0 <= r.food.score <= ScoreMax
    ensures f.score <= r.food.score && f.speedBoost <= r.food.speedBoost
    ensures r.food.snake == f.snake
    ensures f.isAlive ==> r.food.x == f.x && r.food.y == f.y
    ensures !f.isAlive ==> Point(r.food.x, r.food.y) == samples[FirstFreeIndex(samples, f.snake.positions)]
    ensures !f.isAlive ==> Point(r.food.x, r.food.y) !in f.snake.positions
    ensures r.food.isSpecial == IsSpecialScore(f.score)
    ensures r.overflow == (Touches(Point(r.food.x, r.food.y), f.snake, Tolerance(DefaultSize, f.speedBoost)) &&
                           !r.food.isSpecial && f.score == ScoreMax)
    ensures Touches(Point(r.food.x, r.food.y), f.snake, Tolerance(DefaultSize, f.speedBoost)) && !r.overflow ==>
              !r.food.isAlive && r.food.score == f.score + Reward(r.food.isSpecial) &&
              r.food.speedBoost == f.speedBoost + (if r.food.isSpecial then 0.3 else 0.0)
    ensures !Touches(Point(r.food.x, r.food.y), f.snake, Tolerance(DefaultSize, f.speedBoost)) || r.overflow ==>
              r.food.isAlive && r.food.score == f.score && r.food.speedBoost == f.speedBoost
  {
    var spot := if f.isAlive then Point(f.x, f.y) else samples[FirstFreeIndex(samples, f.snake.positions)];
    var special := IsSpecialScore(f.score);
    var placed := f.(x := spot.x, y := spot.y, isAlive := true, isSpecial := special);
    if !Touches(spot, f.snake, Tolerance(DefaultSize, f.speedBoost)) then Fed(placed, false)
    else if special then
      SpecialRewardFits(f.score);
      Fed(placed.(score := f.score + 5, speedBoost := f.speedBoost + 0.3, isAlive := false), false)
    else if f.score + 1 > ScoreMax then Fed(placed, true)
    else Fed(placed.(score := f.score + 1, isAlive := false), false)
  }

  class Food {
    var x: real
    var y: real
    /** The copy of the snake taken at the start of the frame. */
    var snake: SnakeState
    const size: Size := DefaultSize
    var isAlive: bool
    var score: int
    var isSpecial: bool
    var speedBoost: real

    /** The score stays in the range of a `u8`. */
    ghost predicate Valid()
      reads this
    {
      0 <= score <= ScoreMax
    }

    /** The food's fields as a value. */
    function State(): (f: FoodState)
      reads this
      ensures f.snake == snake && f.isAlive == isAlive && f.score == score
      ensures f.isSpecial == isSpecial && f.speedBoost == speedBoost && Point(f.x, f.y) == Point(x, y)
    {
      FoodState(x, y, snake, isAlive, score, isSpecial, speedBoost)
    }

    /** `Food::default()`. */
    constructor ()
      ensures Valid() && State() == StartFood
    {
      x, y := 0.0, 0.0;
      snake := StartSnake;
      isAlive := false;
      score := 1;
      isSpecial := false;
      speedBoost := 1.0;
    }

    /** `Food::food`: respawn if eaten, refresh the special flag, then test
        whether the snake's head eats the food. `overflow` reports the one
        case in which the game's `score += 1` overflows its `u8` and the
        program panics; the state is then left as it was at that point. */
    method Update(samples: seq<Point>) returns (overflow: bool)
      requires Valid()
      requires !isAlive ==> HasFreeSample(samples, snake.positions)
      modifies this`x, this`y, this`isAlive, this`isSpecial, this`score, this`speedBoost
      ensures Valid()
      ensures State() == Feed(old(State()), samples).food
      ensures overflow == Feed(old(State()), samples).overflow
    {
      ghost var before := State();
      overflow := false;
      if !isAlive {
        ghost var k := FirstFreeIndex(samples, snake.positions);
        var i := 0;
        while true
          invariant i <= k
          modifies this`x, this`y
          decreases k - i
        {
          x := samples[i].x;
          y := samples[i].y;
          if Point(x, y) in snake.positions {
            i := i + 1;
            continue;
          }
          break;
        }
        assert Point(x, y) == samples[k];
        isAlive := true;
      }
      assert Point(x, y) == (if before.isAlive then Point(before.x, before.y)
                             else samples[FirstFreeIndex(samples, snake.positions)]);

      if score % 10 == 0 {
        isSpecial := true;
      } else {
        isSpecial := false;
      }

      var tolerance := Tolerance(size, speedBoost);
      if Contains(tolerance, (Round(y) - Round(snake.y)) as real) &&
         Contains(tolerance, (Round(x) - Round(snake.x)) as real)
      {
        if isSpecial {
          SpecialRewardFits(score);
          score := score + 5;
          speedBoost := speedBoost + 0.3;
        } else {
          if score + 1 > ScoreMax {
            overflow := true;
            return;
          }
          score := score + 1;
        }
        isAlive := false;
      }
    }
  }
}
