# Snake: a verified model of the per-frame game update

This project models the game logic of a small snake game written in Rust
with macroquad. A session places a fixed set of obstacles. Then every frame
runs three updates in order:

1. The food takes a copy of the snake as it stands before it moves. It
   respawns by rejection sampling if it was eaten, refreshes its "special"
   flag and tests whether the snake's head eats it. Eating adds to the
   score and, for special food, to the speed boost.
2. The snake reads the arrow keys into a new heading, refusing reversals.
   It moves one axis by `xy_diff * speed_boost`, wraps at the screen edges,
   dies if the new head already lies on its trail, and appends the head to
   the trail. The trail is a bounded queue of at most `score * 100` points.
3. The obstacles test themselves against the first point of the snake's
   trail.

The session ends when the snake is dead or an obstacle is hit.

The five Dafny modules follow the program's entities:

- `Geometry` holds points, cell sizes, `f32::round` and the tolerance window.
- `SnakeEntity` holds the heading, the move, the wrap, the trail queue and `class Snake`.
- `FoodEntity` holds the rejection sampling, the eat rule and `class Food`.
- `Obstacles` holds the obstacle generation and `class Obstacle`.
- `Session` holds one frame and the session loop.

The Rust methods that update `&mut self` are methods on classes with
`modifies` clauses. Each entity method states its whole new state as a
function of its old state:

- `Snake.Step` ends in `Stepped` of the old snapshot.
- `Food.Update` ends in `Feed` of the old state.
- `Obstacle.Exist` sets the hit flag to `AnyNear`.
- `PlayFrame` leaves the three entities in the state `NextFrame` computes from their old state.
- `GameMain` returns the run that `Play` computes from `Start`.

The properties of these functions are proved as contracts and lemmas.
`FrameEffects` ties `NextFrame` back to `Feed`, `Stepped` and the obstacle
test. `SessionFrame` states, for every frame of a session, what the game's
three updates did.

Inputs from outside the program are parameters:

- The set of pressed keys for a frame is a `seq<Key>`.
- The random draws are a caller-supplied `seq<Point>`, one point per (x, y) pair of draws.
- The screen size is a pair of `real` parameters.

Coordinates are `real`. `f32::round` is modelled exactly: round to nearest, with halfway cases away from zero.

A session runs over a finite sequence of frames. `Play` stops at the
game's own end (`GameOver`), or when the input cannot go on:

- `FramesExhausted`: the frames ran out.
- `NoFreeCell`: the eaten food found no free cell among the frame's samples.
- `ScoreOverflow`: the `u8` score would pass 255.

## Model

| member | source | states |
|---|---|---|
| Geometry.Round | src/main.rs:126-127 | the result is an integer within 1/2 of the input; at an exact tie it lies away from zero |
| Geometry.Contains | src/main.rs:126-127 | `RangeInclusive::contains`: the difference lies between the window's two bounds, both included |
| Geometry.Tolerance | src/main.rs:125 | the window `-width*boost ..= height*boost` contains a difference of 0 whenever the sizes and the boost are non-negative |
| SnakeEntity.Admits | src/main.rs:181-212 | one arm of the key test: the key is pressed and the current heading is not its opposite |
| SnakeEntity.NextHeading | src/main.rs:181-213 | the new heading is never the opposite of the current one; with no admissible key it is the current heading; otherwise it is admissible and no heading earlier in the order Left, Right, Up, Down is admissible |
| SnakeEntity.Snake.Steer | src/main.rs:181-213 | the key test leaves `direction` equal to `NextHeading` of the old heading and the keys |
| SnakeEntity.Displace | src/main.rs:215-223 | exactly the heading's axis moves, by the step, decreasing for Left/Up and increasing for Right/Down; the other coordinate is unchanged |
| SnakeEntity.DisplaceInverse | src/main.rs:215-219 | a move followed by the same move on the opposite heading restores the point |
| SnakeEntity.Snake.Advance | src/main.rs:215-223 | the new position is `Displace` of the old one along `direction` by `xy_diff * speed_boost` |
| SnakeEntity.WrapAxis | src/main.rs:225-236 | past the far edge the coordinate becomes 0; more than one cell before the near edge it becomes the far edge; between those it is unchanged; afterwards it lies in `-cell ..= limit` |
| SnakeEntity.Snake.WrapAround | src/main.rs:225-236 | the four edge tests leave x and y equal to `WrapAxis` of their old values |
| SnakeEntity.PushBounded | src/main.rs:242-246 | below `score*100` the head is appended and the length grows by one; otherwise the oldest point is dropped and the head appended; the last point is the head; a trail below the bound stays below it |
| SnakeEntity.TrailBound | src/main.rs:244 | the trail length `score * 100` at which the oldest point is removed |
| SnakeEntity.PushAllWindow | src/main.rs:242-246 | after any run of pushes at one score the trail is exactly the newest visited points, as many as fit below `score*100` |
| SnakeEntity.Snake.Record | src/main.rs:238-246 | the snake dies iff the head is already on the trail, and never revives; the trail becomes `PushBounded` of the old trail and the head |
| SnakeEntity.Stepped | src/main.rs:181-246 | one snake update as a value: the heading is `NextHeading`; the head lies on screen up to one cell past the near edges; a coordinate that stays on screen moves by exactly the signed step on the heading's axis, and the other one is kept; the snake dies iff the new head was on the old trail; the trail is `PushBounded` with the head |
| SnakeEntity.Snake.Step | src/main.rs:179-247 | the snake's new state is `Stepped` of its old state, the keys, the score, the boost and the screen size |
| SnakeEntity.Snake.Snapshot | src/main.rs:372 | the `clone()` of the snake: every field of the value equals the object's field |
| SnakeEntity.Snake.constructor | src/main.rs:157-176 | a new snake is alive, at the origin, heading right, with an empty trail |
| FoodEntity.FirstFreeIndex | src/main.rs:74-89 | the accepted sample is off the trail and every earlier sample lies on the trail |
| FoodEntity.FirstFreeFrom | src/main.rs:75-88 | the rejection loop from sample `i` on: it stops at a sample off the trail, and every sample it skipped lies on the trail |
| FoodEntity.IsSpecialScore | src/main.rs:93 | the special test `score % 10 == 0` on the score before the eat |
| FoodEntity.Reward | src/main.rs:129-134 | the points an eat adds: 5 for special food, 1 otherwise |
| FoodEntity.Touches | src/main.rs:126-127 | the eat test: the rounded y and x differences between food and head both lie in the window |
| FoodEntity.TouchesAtHead | src/main.rs:125-127 | food rounding to the head's cell is eaten whenever the window holds 0, and spots that round alike are eaten alike |
| FoodEntity.SpecialRewardFits | src/main.rs:128-131 | adding 5 to a special `u8` score never exceeds 255 |
| FoodEntity.Feed | src/main.rs:73-137 | live food stays put; eaten food respawns at the first free sample, off the trail; the special flag is `score % 10 == 0` of the old score; an eat adds 5 and 0.3 (special) or 1 (normal) and kills the food, otherwise score, boost and liveness are kept; `overflow` holds exactly when 1 is added to 255; the score stays a `u8` and neither it nor the boost falls |
| FoodEntity.Food.State | src/main.rs:35-48 | the food's fields as a value: each component equals the object's field |
| FoodEntity.Food.constructor | src/main.rs:50-70 | new food is not placed yet, has score 1, boost 1 and is not special |
| FoodEntity.Food.Update | src/main.rs:73-137 | the food's new fields are `Feed` of its old state and the samples, `overflow` is `Feed`'s overflow flag, and the score stays a `u8` |
| Obstacles.Near | src/main.rs:319 | the closure of `any`: the x and the y difference to the reference both lie in the window |
| Obstacles.AnyNear | src/main.rs:316-319 | `any` over the list: some listed point is `Near` the reference |
| Obstacles.HitAtReference | src/main.rs:314-319 | an obstacle exactly on the reference point is hit whenever the window holds 0, and more obstacles never clear a hit |
| Obstacles.Obstacle.Generate | src/main.rs:285-300 | the loop over `0..=object_count` leaves `object_count + 1` positions for a non-negative count and none for a negative one, the positions are the samples in draw order, and nothing is hit |
| Obstacles.Obstacle.Exist | src/main.rs:302-327 | the hit flag is set iff some obstacle lies within the tolerance window of the first (oldest) trail point |
| Session.SessionOver | src/main.rs:383 | the loop's exit test: the snake is dead or an obstacle is hit |
| Session.Start | src/main.rs:363-367 | the state before the loop is ready for a frame and not over, and its 21 obstacles are the first samples in draw order |
| Session.NextFrame | src/main.rs:369-385 | a frame starves iff the food was eaten and no sample is off the trail; it overflows only at score 255; a completed frame leaves the score a positive `u8` and the trail below `score*100` |
| Session.FrameEffects | src/main.rs:372-381 | the food's copy of the snake is the snake before the move; the food is `Feed`'s; the frame overflows iff `Feed` does; a completed frame steps the snake as `Stepped` with the new score and boost, keeps the obstacles, sets the hit flag iff an obstacle is near the first trail point, leaves the trail ending at an on-screen head, and lowers neither score nor boost |
| Session.Play | src/main.rs:369-386 | the session over the remaining frames reports at most one state per frame |
| Session.Pass | src/main.rs:369-386 | one pass of the loop and the rest of the session reports at most one state per remaining frame |
| Session.PlayChains | src/main.rs:369-386 | every reported state is `NextFrame` of the one before it, each frame completed |
| Session.ChainSettles | src/main.rs:369-386 | every reported state has its trail ending at an on-screen head, and no frame lowers the score or the boost or shortens the trail |
| Session.ChainObstacles | src/main.rs:363-386 | no frame moves the obstacles |
| Session.SessionFrame | src/main.rs:361-386 | in frame k of a session: the food updated on the snake before the move, as `Feed`; the snake stepped as `Stepped`; the snake is alive afterwards iff it was alive before and its new head was not on its old trail; the hit flag is `AnyNear` over the first 21 obstacle samples |
| Session.PlayStops | src/main.rs:383-385 | the session ends with `GameOver` iff its last report has the snake dead or an obstacle hit, and no earlier report has |
| Session.PlayEnds | src/main.rs:369-386 | `FramesExhausted` only when every frame was played; `NoFreeCell` only at an unplayed frame whose samples all lie on the eaten food's trail; `ScoreOverflow` only at an unplayed frame with score 255 |
| Session.PlayFrame | src/main.rs:370-385 | the entities' new state, with the frame's status, is `NextFrame` of their old state |
| Session.PlayFrames | src/main.rs:369-386 | the loop over the entities returns the run `Play` computes from their state |
| Session.GameMain | src/main.rs:361-387 | the reports and the ending are the run `Play` computes from `Start` of the obstacle samples |

## Left out

- Drawing is not modelled: `draw_rectangle` (src/main.rs:101-121, 249-257, 304-312), `draw_ui`/`draw_text` (src/main.rs:334-342) and `redraw`/`next_frame` (src/main.rs:330-332) are calls into the graphics library.
- Keyboard polling through `device_query` is not modelled. The keys are one `seq<Key>` per frame. The game queries the keymap up to four times within one update; the model reads a single snapshot.
- Random number generation is not modelled. The samples are given, one point per pair of draws. In `generate_obstacles` the y value is drawn before x; the model receives each pair already formed.
- The samples are not constrained to the half-open ranges `0.0..screen_width()` by `0.0..screen_height()` that `gen_range` draws from (src/main.rs:76-81, 290-291). So the model does not state that respawned food or obstacles lie on screen.
- `screen_width()` and `screen_height()` are parameters, constant for the whole session and assumed non-negative.
- `f32` rounding error is not modelled. Coordinates are exact reals, so `speed_boost += 0.3` is exact. `.round()` is modelled exactly.
- Food.Update: the rejection loop of src/main.rs:74-89 never ends if no cell is free. The model requires the given samples to hold a free one when the food is eaten. A session frame whose samples have none stops the session with `NoFreeCell`.
- Food.Update: the `u8` overflow of `score += 1` at 255 is a panic in a debug build. The model reports it as the `overflow` result and the session ends with `ScoreOverflow`. The release-build wrap-around is not modelled. `score += 5` cannot overflow, as `SpecialRewardFits` shows.
- GameMain: the game loops forever while the snake lives. The model runs over a finite sequence of frames and stops with `FramesExhausted` when they run out.
- The outer `main` loop that restarts `game_main` for ever (src/main.rs:345-359) is not modelled, nor is the commented-out menu inside it.
- `draw_ui` displays `score - 1`. Since it only draws, it is left out; the score is always at least 1 there, so the subtraction never underflows.
- The serde derives and the unused `bsod`, `exit`, `vec2`, `RandomRange`, `Font`, `TextParams` and `root_ui` imports carry no game logic.
- The panic arm of the `direction` match (src/main.rs:220-222) cannot occur: the heading is a four-valued datatype.
- Obstacles.Obstacle.Exist requires a non-empty trail, while the game unwraps the trail's first point only once per obstacle, so an empty trail with no obstacles would not panic there. The only call comes after the head is pushed, so the trail is never empty at that point.
- Obstacles.Obstacle.Exist tests the obstacles against `positions[0]`, the oldest trail point, because that is what src/main.rs:319 does. Whether the head was meant instead is not decided here.
- The loop's exit test (src/main.rs:383) reads the snake's and the obstacle's fields through the state `PlayFrames` takes after the frame; it is the same test on the same fields.
