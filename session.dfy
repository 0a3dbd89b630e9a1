/** One game session, `game_main`: a fresh snake, food and obstacle set,
    then one frame per input until the snake dies or hits an obstacle. */
module Session {
  import opened Geometry
  import opened SnakeEntity
  import opened FoodEntity
  import opened Obstacles

  /** The session passes 20 to `generate_obstacles`. */
  const ObstacleCount: int := 20

  /** What one frame reads from outside: the pressed keys, and the random
      positions the food's rejection loop draws if it has to respawn. */
  datatype Frame = Frame(keys: seq<Key>, foodSamples: seq<Point>)

  /** The whole game state: the snake, the food with its copy of the snake,
      and the obstacles with their hit flag. */
  datatype World = World(snake: SnakeState, food: FoodState, obstacles: seq<Point>, obstacleHit: bool)

  /** How one frame went: completed, stopped because the eaten food found
      no free cell among the frame's samples, or stopped by the panic of the
      `u8` score. */
  datatype FrameStatus = Played | Starved | Overflowed

  datatype Outcome = Outcome(status: FrameStatus, world: World)

  /** Why a run of the session stopped: the game's own end, the panic of the
      `u8` score, or the supplied inputs ran out (no further frame, or no
      free cell among the respawn samples of the next frame). */
  datatype Ending = GameOver | ScoreOverflow | NoFreeCell | FramesExhausted

  /** The states after the completed frames, and why the run stopped. */
  datatype Run = Run(trace: seq<World>, ending: Ending)

  /** The loop's exit test: the snake is dead or an obstacle is hit. */
  predicate SessionOver(w: World)
  {
    !w.snake.isAlive || w.obstacleHit
  }

  /** What holds at the start of every frame: the score is a positive `u8`
      and the trail is below `score * 100` points. */
  predicate Ready(w: World)
  {
    1 <= w.food.score <= ScoreMax && |w.snake.positions| < TrailBound(w.food.score)
  }

  /** What holds after every completed frame: besides `Ready`, the trail
      ends at the head and the head is on screen, up to one cell beyond the
      near edges. */
  predicate Settled(w: World, screenWidth: real, screenHeight: real)
  {
    Ready(w) &&
    1 <= |w.snake.positions| &&
    w.snake.positions[|w.snake.positions| - 1] == Point(w.snake.x, w.snake.y) &&
    -DefaultSize.width <= w.snake.x <= screenWidth &&
    -DefaultSize.height <= w.snake.y <= screenHeight
  }

  /** Across a frame the trail grows by one point or keeps its length, and
      neither the score nor the speed boost falls. */
  predicate Successive(before: World, after: World)
  {
    before.food.score <= after.food.score && before.food.speedBoost <= after.food.speedBoost &&
    (|after.snake.positions| == |before.snake.positions| ||
     |after.snake.positions| == |before.snake.positions| + 1)
  }

  /** The state `game_main` sets up before its loop. */
  function Start(obstacleSamples: seq<Point>): (w: World)
    requires ObstacleCount + 1 <= |obstacleSamples|
    ensures Ready(w) && !SessionOver(w)
    ensures |w.obstacles| == ObstacleCount + 1 && w.obstacles == obstacleSamples[..|w.obstacles|]
  {
    World(StartSnake, StartFood, obstacleSamples[..ObstacleCount + 1], false)
  }

  /** The food of `w` was eaten and the trail covers every one of the
      respawn samples: the rejection loop would never end. */
  predicate Starving(w: World, frame: Frame)
  {
    !w.food.isAlive && !HasFreeSample(frame.foodSamples, w.snake.positions)
  }

  /** One pass of the `game_main` loop. The food receives a copy of the
      snake as it is before it moves, and updates; the snake then moves with
      the food's new score and boost; the obstacles are tested against the
      new trail. The frame stops early only when the eaten food finds no
      free sample, or when the score overflows at 255. */
  function NextFrame(w: World, frame: Frame, screenWidth: real, screenHeight: real): (o: Outcome)
    requires Ready(w)
    ensures o.status == Starved <==> Starving(w, frame)
    ensures o.status == Overflowed ==> w.food.score == ScoreMax
    ensures o.status == Played ==> Ready(o.world)
  {
    var food := w.food.(snake := w.snake);
    if !food.isAlive && !HasFreeSample(frame.foodSamples, w.snake.positions) then
      Outcome(Starved, w.(food := food))
    else
      var fed := Feed(food, frame.foodSamples);
      if fed.overflow then
        Outcome(Overflowed, w.(food := fed.food))
      else
        var snake := Stepped(w.snake, frame.keys, fed.food.score, fed.food.speedBoost, screenWidth, screenHeight);
        var hit := AnyNear(w.obstacles, snake.positions[0], Tolerance(DefaultSize, fed.food.speedBoost));
        Outcome(Played, World(snake, fed.food, w.obstacles, hit))
  }

  /** What a frame does to each entity. The food's copy of the snake is the
      snake before the frame, and the obstacles never move; unless the frame
      starved, the food is what `Feed` makes of it, and the frame overflows
      exactly when `Feed` reports the overflow; unless it completed, the
      snake and the hit flag are untouched; a completed frame steps the snake
      as `Stepped` does with the new score and boost, sets the hit flag
      exactly when an obstacle lies within the tolerance window of the first
      trail point, and leaves a settled state that follows on from `w`. */
  lemma FrameEffects(w: World, frame: Frame, screenWidth: real, screenHeight: real)
    requires Ready(w)
    ensures var o := NextFrame(w, frame, screenWidth, screenHeight);
            o.world.food.snake == w.snake && o.world.obstacles == w.obstacles &&
            (o.status != Starved ==> o.world.food == Feed(w.food.(snake := w.snake), frame.foodSamples).food) &&
            (o.status == Overflowed <==>
               !Starving(w, frame) && Feed(w.food.(snake := w.snake), frame.foodSamples).overflow) &&
            (o.status != Played ==> o.world.snake == w.snake && o.world.obstacleHit == w.obstacleHit) &&
            (o.status == Played ==>
               o.world.snake == Stepped(w.snake, frame.keys, o.world.food.score, o.world.food.speedBoost,
                                        screenWidth, screenHeight) &&
               |o.world.snake.positions| > 0 &&
               (o.world.obstacleHit <==>
                  exists i :: 0 <= i < |w.obstacles| &&
                    Near(w.obstacles[i], o.world.snake.positions[0], Tolerance(DefaultSize, o.world.food.speedBoost))) &&
               Successive(w, o.world)) &&
            (o.status == Played && 0.0 <= screenWidth && 0.0 <= screenHeight ==>
               Settled(o.world, screenWidth, screenHeight))
  {
  }

  /** The state before frame `k` of a run from `w` that produced `trace`. */
  function Before(w: World, trace: seq<World>, k: int): World
    requires 0 <= k <= |trace|
  {
    if k == 0 then w else trace[k - 1]
  }

  /** `trace` is what successive completed frames produce from `w`, one
      frame each of `frames[i..]`: every state is `NextFrame` of the one
      before it. */
  predicate Chain(w: World, frames: seq<Frame>, i: int, trace: seq<World>, screenWidth: real, screenHeight: real)
  {
    0 <= i && i + |trace| <= |frames| &&
    forall k {:trigger Before(w, trace, k)} :: 0 <= k < |trace| ==>
      Ready(Before(w, trace, k)) &&
      NextFrame(Before(w, trace, k), frames[i + k], screenWidth, screenHeight) == Outcome(Played, trace[k])
  }

  /** Every state of a chain is settled, and no frame lowers the score or
      the boost or shortens the trail. */
  lemma ChainSettles(w: World, frames: seq<Frame>, i: nat, trace: seq<World>, screenWidth: real, screenHeight: real)
    requires Chain(w, frames, i, trace, screenWidth, screenHeight)
    requires 0.0 <= screenWidth && 0.0 <= screenHeight
    ensures forall k :: 0 <= k < |trace| ==>
              Settled(trace[k], screenWidth, screenHeight) && Successive(Before(w, trace, k), trace[k])
  {
    forall k | 0 <= k < |trace|
      ensures Settled(trace[k], screenWidth, screenHeight) && Successive(Before(w, trace, k), trace[k])
    {
      FrameEffects(Before(w, trace, k), frames[i + k], screenWidth, screenHeight);
      assert NextFrame(Before(w, trace, k), frames[i + k], screenWidth, screenHeight).world == trace[k];
    }
  }

  /** No frame of a chain moves the obstacles. */
  lemma {:induction false} ChainObstacles(w: World, frames: seq<Frame>, i: int, trace: seq<World>,
                                          screenWidth: real, screenHeight: real, k: int)
    requires Chain(w, frames, i, trace, screenWidth, screenHeight) && 0 <= k < |trace|
    ensures trace[k].obstacles == w.obstacles
    decreases k
  {
    FrameEffects(Before(w, trace, k), frames[i + k], screenWidth, screenHeight);
    assert NextFrame(Before(w, trace, k), frames[i + k], screenWidth, screenHeight).world == trace[k];
    if k > 0 {
      ChainObstacles(w, frames, i, trace, screenWidth, screenHeight, k - 1);
    }
  }

  /** The session from `w` over the frames `frames[i..]`: a pass of the
      loop per frame, until the frames run out. */
  function Play(w: World, frames: seq<Frame>, i: nat, screenWidth: real, screenHeight: real): (r: Run)
    requires Ready(w) && i <= |frames| && 0.0 <= screenWidth && 0.0 <= screenHeight
    ensures |r.trace| <= |frames| - i
    decreases |frames| - i, 1
  {
    if i == |frames| then Run([], FramesExhausted)
    else Pass(w, frames, i, screenWidth, screenHeight)
  }

  /** One pass of the loop on `frames[i]`, then the rest of the session:
      a frame that starves or overflows stops the run before it completes,
      and a completed frame after which the snake is dead or an obstacle is
      hit is the last one. */
  function Pass(w: World, frames: seq<Frame>, i: nat, screenWidth: real, screenHeight: real): (r: Run)
    requires Ready(w) && i < |frames| && 0.0 <= screenWidth && 0.0 <= screenHeight
    ensures |r.trace| <= |frames| - i
    decreases |frames| - i, 0
  {
    var o := NextFrame(w, frames[i], screenWidth, screenHeight);
    match o.status
    case Starved => Run([], NoFreeCell)
    case Overflowed => Run([], ScoreOverflow)
    case Played =>
      if SessionOver(o.world) then Run([o.world], GameOver)
      else
        var rest := Play(o.world, frames, i + 1, screenWidth, screenHeight);
        Run([o.world] + rest.trace, rest.ending)
  }

  /** A step of a chain from `next` is the following step of the chain
      from any state in front of `next`. */
  lemma ChainShift(w: World, frames: seq<Frame>, i: nat, next: World, rest: seq<World>,
                   screenWidth: real, screenHeight: real, k: int)
    requires Chain(next, frames, i + 1, rest, screenWidth, screenHeight) && 0 < k <= |rest|
    ensures Ready(Before(w, [next] + rest, k)) &&
            NextFrame(Before(w, [next] + rest, k), frames[i + k], screenWidth, screenHeight) ==
            Outcome(Played, ([next] + rest)[k])
  {
    var trace := [next] + rest;
    assert Before(w, trace, k) == Before(next, rest, k - 1) && trace[k] == rest[k - 1];
    assert frames[i + k] == frames[i + 1 + (k - 1)];
    assert Ready(Before(next, rest, k - 1)) &&
           NextFrame(Before(next, rest, k - 1), frames[i + 1 + (k - 1)], screenWidth, screenHeight) ==
           Outcome(Played, rest[k - 1]);
  }

  /** A completed frame from `w` in front of a chain from its state is a
      chain from `w`. */
  lemma ChainCons(w: World, frames: seq<Frame>, i: nat, next: World, rest: seq<World>,
                  screenWidth: real, screenHeight: real)
    requires Ready(w) && i < |frames|
    requires NextFrame(w, frames[i], screenWidth, screenHeight) == Outcome(Played, next)
    requires Chain(next, frames, i + 1, rest, screenWidth, screenHeight)
    ensures Chain(w, frames, i, [next] + rest, screenWidth, screenHeight)
  {
    var trace := [next] + rest;
    forall k | 0 <= k < |trace|
      ensures Ready(Before(w, trace, k)) &&
              NextFrame(Before(w, trace, k), frames[i + k], screenWidth, screenHeight) == Outcome(Played, trace[k])
    {
      if k == 0 {
        assert Before(w, trace, k) == w && frames[i + k] == frames[i] && trace[k] == next;
      } else {
        ChainShift(w, frames, i, next, rest, screenWidth, screenHeight, k);
      }
    }
  }

  /** The completed frames of a session form a chain of `NextFrame` steps. */
  lemma {:induction false} PlayChains(w: World, frames: seq<Frame>, i: nat, screenWidth: real, screenHeight: real)
    requires Ready(w) && i <= |frames| && 0.0 <= screenWidth && 0.0 <= screenHeight
    ensures Chain(w, frames, i, Play(w, frames, i, screenWidth, screenHeight).trace, screenWidth, screenHeight)
    decreases |frames| - i
  {
    if i < |frames| {
      var o := NextFrame(w, frames[i], screenWidth, screenHeight);
      if o.status == Played && !SessionOver(o.world) {
        PlayChains(o.world, frames, i + 1, screenWidth, screenHeight);
        var rest := Play(o.world, frames, i + 1, screenWidth, screenHeight).trace;
        assert Play(w, frames, i, screenWidth, screenHeight).trace == [o.world] + rest;
        ChainCons(w, frames, i, o.world, rest, screenWidth, screenHeight);
      }
    }
  }

  /** What the `k`-th completed frame of a session did. The food was
      updated on a copy of the snake as it stood before the frame; the snake
      then stepped with the food's new score and boost, dying exactly when
      its new head lay on its old trail; and the hit flag tells whether one
      of the 21 obstacles drawn at the start lies within the tolerance
      window of the first trail point. */
  lemma SessionFrame(obstacleSamples: seq<Point>, frames: seq<Frame>, screenWidth: real, screenHeight: real, k: int)
    requires ObstacleCount + 1 <= |obstacleSamples|
    requires 0.0 <= screenWidth && 0.0 <= screenHeight
    ensures var r := Play(Start(obstacleSamples), frames, 0, screenWidth, screenHeight);
            0 <= k < |r.trace| ==>
            var before := Before(Start(obstacleSamples), r.trace, k);
            var after := r.trace[k];
            k < |frames| && Ready(before) && Ready(after) &&
            after.obstacles == obstacleSamples[..ObstacleCount + 1] &&
            after.food.snake == before.snake &&
            (!before.food.isAlive ==> HasFreeSample(frames[k].foodSamples, before.snake.positions)) &&
            after.food == Feed(before.food.(snake := before.snake), frames[k].foodSamples).food &&
            after.snake == Stepped(before.snake, frames[k].keys, after.food.score, after.food.speedBoost,
                                   screenWidth, screenHeight) &&
            after.snake.isAlive == (before.snake.isAlive &&
                                    Point(after.snake.x, after.snake.y) !in before.snake.positions) &&
            |after.snake.positions| > 0 &&
            after.obstacleHit == AnyNear(obstacleSamples[..ObstacleCount + 1], after.snake.positions[0],
                                         Tolerance(DefaultSize, after.food.speedBoost))
  {
    var start := Start(obstacleSamples);
    var trace := Play(start, frames, 0, screenWidth, screenHeight).trace;
    if 0 <= k < |trace| {
      PlayChains(start, frames, 0, screenWidth, screenHeight);
      ChainObstacles(start, frames, 0, trace, screenWidth, screenHeight, k);
      FrameEffects(Before(start, trace, k), frames[k], screenWidth, screenHeight);
      assert Before(start, trace, k).obstacles == start.obstacles;
    }
  }

  /** A run ends with `GameOver` exactly when its last state has the snake
      dead or an obstacle hit, and no earlier state has. */
  predicate StopsAtOver(r: Run)
  {
    (r.ending == GameOver <==> r.trace != [] && SessionOver(r.trace[|r.trace| - 1])) &&
    forall k :: 0 <= k < |r.trace| - 1 ==> !SessionOver(r.trace[k])
  }

  /** Prefixing a run with a state that does not end the session keeps
      `StopsAtOver`. */
  lemma StopsShift(first: World, rest: Run)
    requires !SessionOver(first) && StopsAtOver(rest)
    ensures StopsAtOver(Run([first] + rest.trace, rest.ending))
  {
    var trace := [first] + rest.trace;
    forall k | 0 < k < |trace|
      ensures trace[k] == rest.trace[k - 1]
    {
    }
  }

  /** The session stops with `GameOver` exactly when its last completed
      frame left the snake dead or an obstacle hit, and no earlier frame did. */
  lemma {:induction false} PlayStops(w: World, frames: seq<Frame>, i: nat, screenWidth: real, screenHeight: real)
    requires Ready(w) && i <= |frames| && 0.0 <= screenWidth && 0.0 <= screenHeight
    ensures StopsAtOver(Play(w, frames, i, screenWidth, screenHeight))
    decreases |frames| - i
  {
    if i < |frames| {
      var r := Pass(w, frames, i, screenWidth, screenHeight);
      var o := NextFrame(w, frames[i], screenWidth, screenHeight);
      if o.status == Played && !SessionOver(o.world) {
        var rest := Play(o.world, frames, i + 1, screenWidth, screenHeight);
        assert r == Run([o.world] + rest.trace, rest.ending);
        PlayStops(o.world, frames, i + 1, screenWidth, screenHeight);
        StopsShift(o.world, rest);
      } else if o.status == Played {
        assert r == Run([o.world], GameOver);
      } else {
        assert r.trace == [] && r.ending != GameOver;
      }
    }
  }

  /** The state a run `r` from `w` stopped in: the state after its last
      completed frame, or `w` when there was none. */
  function Last(w: World, r: Run): World
  {
    if r.trace == [] then w else r.trace[|r.trace| - 1]
  }

  /** Every stop of the run `r` from `w` at frame `i` other than the game's
      own end is forced: `FramesExhausted` only when every frame was used;
      `NoFreeCell` and `ScoreOverflow` only at a frame not yet played, in a
      state whose eaten food has no free sample in that frame, or whose
      score is 255. */
  predicate ForcedEnd(w: World, r: Run, frames: seq<Frame>, i: int)
  {
    0 <= i && i + |r.trace| <= |frames| &&
    (r.ending == FramesExhausted ==> i + |r.trace| == |frames|) &&
    (r.ending == NoFreeCell ==> i + |r.trace| < |frames| && Starving(Last(w, r), frames[i + |r.trace|])) &&
    (r.ending == ScoreOverflow ==> i + |r.trace| < |frames| && Last(w, r).food.score == ScoreMax)
  }

  /** Prefixing a run with a state keeps its stop forced. */
  lemma ForcedShift(w: World, next: World, rest: Run, frames: seq<Frame>, i: nat)
    requires ForcedEnd(next, rest, frames, i + 1)
    ensures ForcedEnd(w, Run([next] + rest.trace, rest.ending), frames, i)
  {
    var r := Run([next] + rest.trace, rest.ending);
    assert Last(w, r) == Last(next, rest);
    assert i + |r.trace| == i + 1 + |rest.trace|;
  }

  /** The session stops for a reason other than the game's end only when it
      is forced to. */
  lemma {:induction false} PlayEnds(w: World, frames: seq<Frame>, i: nat, screenWidth: real, screenHeight: real)
    requires Ready(w) && i <= |frames| && 0.0 <= screenWidth && 0.0 <= screenHeight
    ensures ForcedEnd(w, Play(w, frames, i, screenWidth, screenHeight), frames, i)
    decreases |frames| - i
  {
    if i < |frames| {
      var o := NextFrame(w, frames[i], screenWidth, screenHeight);
      if o.status == Played && !SessionOver(o.world) {
        PlayEnds(o.world, frames, i + 1, screenWidth, screenHeight);
        var rest := Play(o.world, frames, i + 1, screenWidth, screenHeight);
        assert Play(w, frames, i, screenWidth, screenHeight) == Run([o.world] + rest.trace, rest.ending);
        ForcedShift(w, o.world, rest, frames, i);
      } else if o.status == Starved {
        assert Play(w, frames, i, screenWidth, screenHeight) == Run([], NoFreeCell);
        assert Starving(w, frames[i + 0]);
      } else if o.status == Overflowed {
        assert Play(w, frames, i, screenWidth, screenHeight) == Run([], ScoreOverflow);
      } else {
        assert Play(w, frames, i, screenWidth, screenHeight) == Run([o.world], GameOver);
      }
    }
  }

  /** The loop's bookkeeping: the whole run `goal` is the completed states
      `trace` followed by the run from `now` at frame `n`. */
  predicate Resumes(goal: Run, trace: seq<World>, now: World, frames: seq<Frame>, n: nat,
                    screenWidth: real, screenHeight: real)
  {
    Ready(now) && n <= |frames| && 0.0 <= screenWidth && 0.0 <= screenHeight &&
    goal == Run(trace + Play(now, frames, n, screenWidth, screenHeight).trace,
                Play(now, frames, n, screenWidth, screenHeight).ending)
  }

  /** A frame that stops the session settles the bookkeeping: `o` is what
      frame `n` does from `now`. */
  lemma PlayHalts(goal: Run, trace: seq<World>, now: World, frames: seq<Frame>, n: nat,
                  screenWidth: real, screenHeight: real, o: Outcome)
    requires Resumes(goal, trace, now, frames, n, screenWidth, screenHeight) && n < |frames|
    requires o == NextFrame(now, frames[n], screenWidth, screenHeight)
    ensures o.status == Starved ==> goal == Run(trace, NoFreeCell)
    ensures o.status == Overflowed ==> goal == Run(trace, ScoreOverflow)
    ensures o.status == Played && SessionOver(o.world) ==> goal == Run(trace + [o.world], GameOver)
  {
    assert Play(now, frames, n, screenWidth, screenHeight) == Pass(now, frames, n, screenWidth, screenHeight);
    match o.status
    case Starved =>
      assert trace + [] == trace;
    case Overflowed =>
      assert trace + [] == trace;
    case Played =>
  }

  /** A completed frame that does not end the session moves the bookkeeping
      on by one frame. */
  lemma PlayContinues(goal: Run, trace: seq<World>, now: World, frames: seq<Frame>, n: nat,
                      screenWidth: real, screenHeight: real, o: Outcome)
    requires Resumes(goal, trace, now, frames, n, screenWidth, screenHeight) && n < |frames|
    requires o == NextFrame(now, frames[n], screenWidth, screenHeight)
    requires o.status == Played && !SessionOver(o.world)
    ensures Resumes(goal, trace + [o.world], o.world, frames, n + 1, screenWidth, screenHeight)
  {
    var rest := Play(o.world, frames, n + 1, screenWidth, screenHeight);
    assert Play(now, frames, n, screenWidth, screenHeight) == Run([o.world] + rest.trace, rest.ending);
    assert trace + [o.world] + rest.trace == trace + ([o.world] + rest.trace);
  }

  /** The three entities' fields as one state. */
  function Current(snake: Snake, food: Food, obstacle: Obstacle): World
    reads snake, food, obstacle
  {
    World(snake.Snapshot(), food.State(), obstacle.posList, obstacle.isHit)
  }

  /** The body of the `game_main` loop, on the three entities. */
  method PlayFrame(snake: Snake, food: Food, obstacle: Obstacle, frame: Frame,
                   screenWidth: real, screenHeight: real)
    returns (status: FrameStatus)
    requires Ready(Current(snake, food, obstacle))
    modifies snake, food, obstacle
    ensures Outcome(status, Current(snake, food, obstacle)) ==
            NextFrame(old(Current(snake, food, obstacle)), frame, screenWidth, screenHeight)
  {
    food.snake := snake.Snapshot();
    if !food.isAlive && !HasFreeSample(frame.foodSamples, food.snake.positions) {
      return Starved;
    }
    var overflow := food.Update(frame.foodSamples);
    if overflow {
      return Overflowed;
    }
    snake.Step(frame.keys, food.score, food.speedBoost, screenWidth, screenHeight);
    obstacle.Exist(snake.Snapshot(), food.speedBoost);
    return Played;
  }

  /** The `loop` of `game_main` from the given entities: it does what
      `Play` from their state describes. */
  method PlayFrames(snake: Snake, food: Food, obstacle: Obstacle, frames: seq<Frame>,
                    screenWidth: real, screenHeight: real)
    returns (trace: seq<World>, ending: Ending)
    requires Ready(Current(snake, food, obstacle))
    requires 0.0 <= screenWidth && 0.0 <= screenHeight
    modifies snake, food, obstacle
    ensures Run(trace, ending) == Play(old(Current(snake, food, obstacle)), frames, 0, screenWidth, screenHeight)
  {
    ghost var goal := Play(Current(snake, food, obstacle), frames, 0, screenWidth, screenHeight);
    trace := [];
    ending := FramesExhausted;
    var n := 0;
    while n < |frames|
      invariant Resumes(goal, trace, Current(snake, food, obstacle), frames, n, screenWidth, screenHeight)
    {
      ghost var before := Current(snake, food, obstacle);
      var status := PlayFrame(snake, food, obstacle, frames[n], screenWidth, screenHeight);
      var after := Current(snake, food, obstacle);
      PlayHalts(goal, trace, before, frames, n, screenWidth, screenHeight, Outcome(status, after));
      if status == Starved {
        ending := NoFreeCell;
        return;
      }
      if status == Overflowed {
        ending := ScoreOverflow;
        return;
      }
      // `after` holds the fields `!snake.is_alive || obstacle.is_hit` reads
      if !after.snake.isAlive || after.obstacleHit {
        trace := trace + [after];
        ending := GameOver;
        return;
      }
      PlayContinues(goal, trace, before, frames, n, screenWidth, screenHeight, Outcome(status, after));
      trace := trace + [after];
      n := n + 1;
    }
    assert trace + [] == trace;
  }

  /** `game_main`: the obstacles are drawn, a snake and food are created,
      and the loop runs; the result is what `Play` from `Start` describes. */
  method GameMain(obstacleSamples: seq<Point>, frames: seq<Frame>, screenWidth: real, screenHeight: real)
    returns (trace: seq<World>, ending: Ending)
    requires ObstacleCount + 1 <= |obstacleSamples|
    requires 0.0 <= screenWidth && 0.0 <= screenHeight
    ensures Run(trace, ending) == Play(Start(obstacleSamples), frames, 0, screenWidth, screenHeight)
  {
    var obstacle := new Obstacle.Generate(ObstacleCount, obstacleSamples);
    var snake := new Snake();
    var food := new Food();
    assert Current(snake, food, obstacle) == Start(obstacleSamples);
    trace, ending := PlayFrames(snake, food, obstacle, frames, screenWidth, screenHeight);
  }
}
