# Puzzle 1: timed circle activation

This project models the logic of the first puzzle of the game: "get out of bed"
(`puzzle_level_1.py`).

- A player point moves around the screen one axis at a time.
- `num_hitboxes` circular hitboxes are laid out by rejection sampling. The
  scene sets that count to the difficulty setting `puzzle_1_difficulty` (line 26).
- A hitbox turns active when the player's point enters its collision square.
- A hitbox drops back after its collision duration. The timeout is lazy: it runs
  only when the hitbox is drawn.
- The puzzle is solved when every hitbox is active at the same time.

The model has two layers.

- **Pure layer.** A value state machine (`Hitboxes.HitboxState`, `Sweep`,
  `AfterHit`), the first-hit scan and the frame (`HitboxSet.Scan`,
  `PuzzleScene.Frame`), and the placement recursion (`Placement.Place`). The
  lemmas about the puzzle are stated over these values.
- **Imperative layer.** Classes with the source's own fields:
  - `Movement.Player`
  - `Hitboxes.PuzzleHitbox`
  - `HitboxSet.HitboxGenerator`
  - `PuzzleScene.GameMap`

  Each method's postcondition ties the new state to the pure layer. The trackers
  are `View()` for one hitbox, `States()` and `Positions()` for the set, and
  `generator.States()` for the map.

Modules, one file each:

| file | module | source |
|---|---|---|
| options.dfy | `Options` | an `Option` type for `collision_time` |
| geometry.dfy | `Geometry` | points, squared distance, the closed collision square, the sampling range, the constants 40 / 100 / 140 |
| player.dfy | `Movement` | `PlayerPuzzle1` |
| hitbox.dfy | `Hitboxes` | `PuzzleHitbox1` |
| placement.dfy | `Placement` | the acceptance rule and results of `create_hitboxes` |
| generator.dfy | `HitboxSet` | `PuzzleHitboxGenerator1` |
| game_map.dfy | `PuzzleScene` | `GameMapPuzzle1` and multi-frame play |

Inputs from outside the puzzle are parameters:

- The tick `now` replaces `pygame.time.get_ticks()`.
- `speed`, the collision duration and `num_hitboxes` replace `SettingsConfig`.
- `fittsOk(previous, candidate)` stands for "the Fitts score does not exceed the
  configured threshold".
- A sequence `cands` of candidate centres stands for the stream of
  `random.randint` draws.

One tick per call: inside one `check_collision` the source reads the clock
several times, because `update_color` draws. The model gives the whole call the
single tick `now`.

Behaviour worth knowing:

- **Contact refreshes the timer.** Every hit overwrites the collision time
  (`puzzle_level_1.py:134`). Standing in a hitbox therefore keeps it active
  indefinitely (`PuzzleScene.HeldContactKeepsActive`).
- **The timeout is strict.** It is `>` (line 153). At exactly the duration the
  hitbox is still active (`Hitboxes.TimeoutIsStrict`,
  `PuzzleScene.ScenarioBoundaryStillSolved`).
- **Tick 0 never times out.** `collision_time` is tested for truthiness
  (line 152), so a hit recorded at tick 0 is never timed out. The model keeps the
  quirk as written, with `Expired` requiring a non-zero tick, and shows it
  (`Hitboxes.NeverExpires`, `PuzzleScene.ScenarioTickZeroQuirk`).
- **Spacing is radius plus padding.** The minimum distance between centres is
  `hitbox_radius + padding` = 40 + 100 = 140 (line 276). The comment on line 265
  calls `padding` the "minimum space between hitboxes and screen edge", but the
  code uses it only in this centre spacing; the sampling range keeps centres
  `hitbox_radius` from the edge (lines 268-269). `HitboxSet.BuiltLayoutSpaced`
  states that built layouts meet this spacing.
- **A miss runs no timeout.** When `check_collision` finds no hit, the hitbox
  changes nothing and no timeout check runs (lines 126-143). Only `draw` times
  hitboxes out.

## Model

| member | source | states |
|---|---|---|
| Movement.MoveIsOneAxisStep | puzzle_level_1.py:66-78 | "up"/"down" change only y, by -speed/+speed. "left"/"right" change only x. Any other string leaves the position unchanged. A known move covers exactly `speed`. |
| Movement.MoveUndone | puzzle_level_1.py:66-78 | A move followed by the opposite move returns to the start. |
| Movement.MovesCommute | puzzle_level_1.py:66-78 | A vertical and a horizontal move commute. |
| Movement.Player.Move | puzzle_level_1.py:66-78 | The new position is `Moved(old position, speed, direction)`. Visibility is unchanged. |
| Movement.Player.constructor | puzzle_level_1.py:57-64 | The player starts visible, at the given position, with the given speed. |
| Movement.Player.SetVisibility | puzzle_level_1.py:87-91 | Sets the visibility flag; the position is unchanged. |
| Hitboxes.PuzzleHitbox.constructor | puzzle_level_1.py:95-111 | A new hitbox is visible, not collidable, not collided, with no collision time. |
| Hitboxes.PuzzleHitbox.CheckCollision | puzzle_level_1.py:122-143 | Returns true exactly when the hitbox is visible, collidable and the player is in the closed ±40 square. A miss changes no field. A hit gives the state `AfterHit`: tick recorded, the draw inside the colour update, collided set. |
| Hitboxes.PuzzleHitbox.Draw | puzzle_level_1.py:145-161 | The new state is the timeout sweep of the old one. |
| Hitboxes.PuzzleHitbox.SetVisibility | puzzle_level_1.py:167-171 | Only the visibility flag changes. |
| Hitboxes.PuzzleHitbox.SetCollidability | puzzle_level_1.py:173-177 | Only the collidability flag changes. |
| Hitboxes.HitRecordsNow | puzzle_level_1.py:134-141 | With a non-negative duration, a hit leaves exactly `collision_time == now` and collided. This holds also when the hitbox was already collided. |
| Hitboxes.TimeoutIsStrict | puzzle_level_1.py:149-156 | Take a visible hitbox with a non-zero tick. Within the duration the sweep changes nothing. One tick past it, collision time and collided flag are both cleared. |
| Hitboxes.SweepOnlyClears | puzzle_level_1.py:149-156 | The sweep changes only the two timer fields and only clears them. It is idempotent. |
| Hitboxes.NeverExpires | puzzle_level_1.py:149-152 | Some hitboxes never change under any sequence of sweeps: a hidden one, one never hit, or one hit at tick 0 (the truthiness quirk). |
| Hitboxes.SweepsAfterHit | puzzle_level_1.py:149-156 | After a hit at a non-zero tick `t`, sweeps at any ticks leave the hitbox collided iff none of them is more than the duration after `t`. Otherwise it is back to the cleared state. |
| Hitboxes.ConsistencyKept | puzzle_level_1.py:109-111 | "collided iff a tick is recorded" holds for a new hitbox. Sweeps and flag changes preserve it. A hit preserves it when the duration is non-negative. |
| Hitboxes.NegativeDurationSticks | puzzle_level_1.py:134-141 | With a negative duration, a hit at a non-zero tick leaves collided with no tick. No later sweep clears that state. |
| HitboxSet.FirstHit | puzzle_level_1.py:204-207 | None iff no hitbox is touched. Otherwise the index of a touched hitbox with none touched before it. |
| HitboxSet.ScanEffect | puzzle_level_1.py:200-208 | After a scan, every hitbox other than the first hit is unchanged. A miss changes nothing. The hit one has the scan's tick and is collided (duration ≥ 0). |
| HitboxSet.SpacedHitIsUnique | puzzle_level_1.py:204-207 | When centres are at least 140 apart, a touched hitbox is the one the first-hit scan picks. The short-circuit never skips a second hit. |
| HitboxSet.BroadcastGates | puzzle_level_1.py:210-216 | After broadcasting false no scan, at any tick, hits or changes anything. After broadcasting, a hitbox is touchable iff the flag is true, it is visible and the point is in its square. |
| HitboxSet.FreshStatesIdle | puzzle_level_1.py:100-111 | Fresh hitboxes cannot be hit and are unchanged by sweeps. They make the puzzle solved only when there are none. |
| HitboxSet.BuiltLayoutSpaced | puzzle_level_1.py:264-279 | The hitbox states of a layout built from nothing (construction, reset) have centres pairwise at least 140 apart, as the spaced-hitbox results require. |
| HitboxSet.HitboxGenerator.constructor | puzzle_level_1.py:181-198 | The layout is `Place` from nothing over the candidates. All hitboxes are new and idle. The set is visible and not collidable. |
| HitboxSet.HitboxGenerator.CheckCollision | puzzle_level_1.py:200-208 | Returns true iff some hitbox is touched. The new states are `Scan` of the old ones: the first touched one hit and colour-updated again, the rest untouched. |
| HitboxSet.HitboxGenerator.SetCollidability | puzzle_level_1.py:210-216 | Sets the set's flag and every hitbox's flag to `b`. Nothing else changes. |
| HitboxSet.HitboxGenerator.SetVisibility | puzzle_level_1.py:232-236 | Sets the set's visibility flag; the collidability flag and the hitbox list are unchanged. |
| HitboxSet.HitboxGenerator.CheckAllCollided | puzzle_level_1.py:218-222 | True iff every hitbox in the list is collided (true on an empty list). |
| HitboxSet.HitboxGenerator.Draw | puzzle_level_1.py:224-230 | When visible, every hitbox is swept at `now`. Otherwise nothing changes. |
| HitboxSet.HitboxGenerator.HitboxOverlap | puzzle_level_1.py:289-300 | True iff every existing hitbox is at distance ≥ `minDistance` from the candidate. |
| HitboxSet.HitboxGenerator.TryCandidate | puzzle_level_1.py:268-279 | Accepts iff the Fitts test against the last hitbox (skipped for the first) and the spacing test pass. On acceptance one new hitbox at the candidate is appended. Otherwise the list is unchanged. |
| HitboxSet.HitboxGenerator.PlaceNext | puzzle_level_1.py:267-279 | Takes candidates until one is accepted. What remains to place agrees with `Place`. |
| HitboxSet.HitboxGenerator.CreateHitboxes | puzzle_level_1.py:258-279 | The new positions are `Place(old positions, num_hitboxes, candidates)`. The old hitboxes are kept as a prefix. The added ones are new and idle. |
| HitboxSet.HitboxGenerator.ResetHitboxes | puzzle_level_1.py:281-287 | The list is replaced by a fresh layout from nothing. All new hitboxes are non-collidable, whatever the set's flag says. |
| Placement.Place | puzzle_level_1.py:266-279 | Keeps the already placed centres as a prefix. Adds at most `remaining` more. |
| Placement.PlaceKeepsSpacing | puzzle_level_1.py:276-278 | Placement keeps every pair of centres at least `m` apart. |
| Placement.PlaceKeepsFitts | puzzle_level_1.py:272-277 | Every added centre passes the Fitts test against its predecessor. |
| Placement.PlaceDrawsFromCandidates | puzzle_level_1.py:268-270 | Every added centre is one of the candidates. |
| Placement.PlaceConcat | puzzle_level_1.py:266-279 | Placing from `a + b` is placing from `a`, then placing what is still missing from `b`. A longer candidate stream only extends the layout. |
| Placement.FreshLayout | puzzle_level_1.py:262-279 | A layout from nothing has at most `num_hitboxes` centres. Every pair is ≥ 140 apart. Every centre is inside `[40, width-40] × [40, height-40]`. Each passes the Fitts test against its predecessor. |
| Geometry.SharedPointMeansClose | puzzle_level_1.py:128-131 | Two collision squares that share a point have centres closer than 140. |
| PuzzleScene.FrameKeepsLayout | puzzle_level_1.py:42-47 | A frame changes no hitbox's visibility, collidability, position or duration. |
| PuzzleScene.FrameOnHit | puzzle_level_1.py:42-47 | The hitbox a frame hits ends collided. With duration ≥ 0 it also carries the frame's tick. |
| PuzzleScene.SolvedAfterFrame | puzzle_level_1.py:36-47 | After a frame the puzzle is solved iff every hitbox is either the one hit, or was collided and has not expired at this tick. |
| PuzzleScene.FramesSplit | puzzle_level_1.py:42-47 | Running frames `a + b` is running `a` and then `b`. |
| PuzzleScene.FramesMiss | puzzle_level_1.py:42-47 | A hitbox no frame touches only sees the timeout sweeps at the frames' ticks. |
| PuzzleScene.FramesKeepLayout | puzzle_level_1.py:42-47 | Any number of frames keeps the layout. |
| PuzzleScene.HeldContactKeepsActive | puzzle_level_1.py:134-153 | With spaced centres, a player who stays in hitbox `k` leaves it collided with the last frame's tick. The contact can last any number of frames. |
| PuzzleScene.TourSolves | puzzle_level_1.py:36-47 | A tour runs frame `i` in hitbox `i` at non-decreasing ticks. It solves the puzzle iff each hitbox was touched at tick 0, or at most its duration before the last frame. |
| PuzzleScene.TourTarget | puzzle_level_1.py:42-47 | On such a tour, hitbox `i` ends collided iff it was touched at tick 0, or within its duration of the last frame. |
| PuzzleScene.TourHit | puzzle_level_1.py:42-47 | On such a tour, hitbox `i` is hit at frame `i` and afterwards only swept. |
| PuzzleScene.ScenarioBoundaryStillSolved | puzzle_level_1.py:153 | Five targets 500 ms apart from tick 1000, duration 2000: still solved, because the timeout is strict. |
| PuzzleScene.ScenarioTimedOut | puzzle_level_1.py:153 | Same tour with duration 1999: not solved. |
| PuzzleScene.ScenarioTickZeroQuirk | puzzle_level_1.py:152 | Same tour from tick 0 with duration 1999: solved, because tick 0 never times out. |
| PuzzleScene.GameMap.constructor | puzzle_level_1.py:11-27 | Builds the hitbox set from the candidates, with the given count, duration and Fitts test, and runs one frame. The result is a fresh, visible, non-collidable layout whose hitbox objects are all newly allocated, so the map's own methods can update them. |
| PuzzleScene.GameMap.DrawHitboxes | puzzle_level_1.py:42-47 | The new hitbox states are one `Frame` of the old ones at the player's position and `now`. |
| PuzzleScene.GameMap.AllHitboxesCollided | puzzle_level_1.py:36-40 | True iff every hitbox state is collided. |
| PuzzleScene.GameMap.SetVisibility | puzzle_level_1.py:49-53 | Sets the map's visibility flag. |

## Left out

- Rendering is not modelled:
  - `pygame` drawing, `blit` and `display.flip`;
  - image loading and grayscale variants;
  - the colour fields and the colour argument of `update_color`.
  Only the state change they cause is modelled (`update_color` is its draw).
- `draw_map`, `PlayerPuzzle1.draw` and the drawing half of `PuzzleHitbox1.draw` only render, so they are not modelled.
- `GameLogger` (line 140) is a side channel with no effect on state, so it is not modelled.
- `SettingsConfig` is not part of this model. Its values (speed, duration, hitbox count, screen size, Fitts threshold) are parameters.
- `pygame.time.get_ticks` becomes the parameter `now`. Several reads within one call collapse to one tick.
- `calculate_hitbox_distance` and `calculate_fitts_law_score` use floating-point `sqrt` and `log2`, so they are not modelled.
  - The spacing test compares squared integer distances. For integer coordinates this gives the same answer as the source's floating-point test.
  - The Fitts threshold test is the parameter `fittsOk`.
- `random.randint` is replaced by the input sequence `cands`.
- HitboxSet.HitboxGenerator.CreateHitboxes: stops when the candidates run out, so a layout can have fewer than `num_hitboxes` hitboxes. The source keeps sampling and can loop forever on an infeasible configuration. `Placement.PlaceConcat` shows that more candidates only extend the layout.
- Placement.FreshLayout: states at most `num_hitboxes` centres, not exactly `num_hitboxes`, for the same reason.
- The source's position is a mutable two-element list, shared by reference with the caller of the constructor. The model uses a `Point` value, so aliasing of that list is not modelled.
- Speeds and positions are integers. A fractional speed multiplier from the settings is not modelled.
- `already_drawn` is set in the constructor (lines 186 and 195) and read once right after (line 196); it never changes anything, so it is not modelled.
- `lore_objects.py` is a constant content table plus calls into a save manager that is not part of this model, so it is not modelled.
- `text_screen.py` is font rendering and mouse-event wrappers, so it is not modelled.
