# Flappy teeth: a verified model of the game core

`sketch.js` is a p5.js Flappy-Bird variant. A bird falls under gravity and
flaps upward. Columns scroll in from the right, each with a gap at a random
height and of a random size, lined with triangular teeth. The score counts the
columns passed. The game ends when the bird leaves the playfield or touches a
tooth.

This project models the part of `sketch.js` that decides what happens, and
proves properties of it:

- `tuning.dfy` (module `Tuning`): the tuning constants, and the derived tooth
  cell width and inset.
- `geometry.dfy` (module `Geometry`): `pointInTri`, `distToSegment` and
  `circleTriangleHit`, over the reals. p5's `dist(...) <= r` is modelled as the
  exact comparison `Within(dsq, r)` of the squared distance with r.
  `WithinIsRootComparison` proves that the two comparisons agree.
- `obstacle.dfy` (module `Obstacle`): `Tri` and the column `TeethCol` as values.
  - The two `random` calls of the constructor become draws `u1`, `u2` in
    [0, 1), passed in by the caller.
  - `buildTeeth` is a loop method proved to produce the rows `TopRow` and
    `BotRow`.
  - Also modelled: `update`, `offscreen`, `overlapsX` and `collidesWithCircle`.
- `game.dfy` (module `Game`):
  - `World` is the value of the globals, and `Frame` is what one `draw` call
    does to them.
  - Class `Game` holds the globals as fields. Its `constructor` is the
    `resetGame(false)` of `setup`.
  - Its methods are `Flap`, `ResetGame`, `Tick` and `GuideRouteY`. `Tick` runs
    the reverse splice loop and the collision loop, and is proved to compute
    `Frame`.
  - The ghost field `passed` counts the columns spliced off, so that the class
    invariant says the score counts exactly the columns passed.

Names: the source's `bx` and `by` are `birdX` and `birdY`, because `by` is a
Dafny keyword. `br` is the constant `BR`. `groundH()` is the constant
`GROUND_H`.

Facts about `sketch.js` that the model follows:
- The gap height is `int(random(140, 210))` (sketch.js:189). In exact
  arithmetic it is an integer in [140, 209].
- The bird is out of bounds as soon as its circle crosses the ground line or
  the top edge (sketch.js:98). It does not have to be entirely past the line.
- Only the soundness of `circleTriangleHit` is proved: a hit means the centre
  is inside, or a boundary point is within r. See "## Left out".

## Model

| member | source | states |
|---|---|---|
| Geometry.SqDist | sketch.js:272 | the squared distance `dist` takes the root of is non-negative |
| Geometry.WithinIsRootComparison | sketch.js:246-251 | for a distance d >= 0, `d <= r` holds exactly when `Within(d*d, r)` does, in both directions |
| Geometry.WithinMonotone | sketch.js:246-251 | a distance comparison that holds for r holds for every larger radius |
| Geometry.WeightsOfAffinePoint | sketch.js:256-260 | for a point with barycentric coordinates (l1, l2), the source's s and t are l1*D and l2*D |
| Geometry.PointInTriOfConvexCombination | sketch.js:255-263 | every point of the closed triangle passes `pointInTri`, whatever the winding |
| Geometry.SignsToWeights | sketch.js:261-262 | the sign conditions of either branch mean s/D and t/D are non-negative with sum at most 1 |
| Geometry.PointInTriIsConvexCombination | sketch.js:255-263 | conversely, for D != 0 a point that passes is the convex combination with weights s/D, t/D, 1-s/D-t/D |
| Geometry.PointInTriWindingIndependent | sketch.js:261-262 | swapping the first two vertices (which flips D's sign) gives the same answer |
| Geometry.PointInTriVertices | sketch.js:255-263 | each vertex passes the test |
| Geometry.PointInTriCentroid | sketch.js:255-263 | the centroid passes the test |
| Geometry.Constrain | sketch.js:270 | `constrain` lands in [low, high] and is the identity inside it |
| Geometry.ProjParam | sketch.js:266-270 | the clamped projection parameter is in [0, 1], and 0 for a zero-length segment |
| Geometry.DistToSegmentSq | sketch.js:265-273 | the squared distance is non-negative; for a zero-length segment it is the squared distance to that point |
| Geometry.DistToSegmentWithinSound | sketch.js:265-273 | `distToSegment <= r` only when some point of the segment really is within r |
| Geometry.CircleTriangleHitSound | sketch.js:244-253 | a hit means the centre is inside the triangle, or some point of an edge is within r |
| Geometry.CircleTriangleHitMonotone | sketch.js:244-253 | a hit at radius r stays a hit at every larger radius |
| Geometry.CircleTriangleHitInsideOrNearVertex | sketch.js:244-253 | a centre inside the triangle, or within r of a vertex, is a hit |
| Geometry.CircleTriangleHitExample | sketch.js:244-253 | on a concrete triangle, a point inside is a hit and a point one unit below the base is not |
| Obstacle.Random | sketch.js:189-190 | `random(lo, hi)` lies in [lo, hi), and in [hi, lo) once the bounds are swapped |
| Obstacle.Scaled | sketch.js:189-190 | the scaled draw lies in [low, high), or is low when the interval is a point |
| Obstacle.Trunc | sketch.js:189 | `int` truncates toward zero: the result is the integer part, on either sign |
| Obstacle.GapHeight | sketch.js:189 | in exact arithmetic, the gap height is an integer in [MIN_GAP_H, MAX_GAP_H) |
| Obstacle.GapTop | sketch.js:188-190 | for every height the constructor can draw, the gap top is between margin+40 and the lowest top that keeps the gap and margin above the ground |
| Obstacle.BuildTeeth | sketch.js:218-232 | the loop produces exactly the rows `TopRow(gapY)` and `BotRow(gapY, gapHLocal)` |
| Obstacle.MakeColumn | sketch.js:186-195 | a new column is well formed, starts at x = W and is not scored |
| Obstacle.NewColumn | sketch.js:186-195 | the constructor, running `buildTeeth`, builds `MakeColumn(u1, u2)` |
| Obstacle.TeethGeometry | sketch.js:218-232 | each row has TEETH_COUNT teeth; top bases lie on gapY with tips TOOTH_LEN below, bottom bases on the gap bottom with tips TOOTH_LEN above; every local x lies in [0, COL_W] |
| Obstacle.ToothInColumn | sketch.js:220-224 | tooth i spans [30i+8, 30i+22], strictly inside the column |
| Obstacle.GapOpening | sketch.js:227-230 | the opening between the tips of the two rows is at least 100, wider than the bird |
| Obstacle.Update | sketch.js:196 | `update` moves the column left by exactly SCROLL, changes no other field, and keeps it well formed |
| Obstacle.AnyToothHit | sketch.js:235-238 | one row's loop returns true exactly when some tooth of the row is hit |
| Obstacle.CollidesWithCircle | sketch.js:234-240 | true exactly when some tooth of either row, placed at the column's x, is hit |
| Obstacle.OverlapsXIsSound | sketch.js:198 | for a well-formed column, a tooth hit implies `overlapsX`: the broad-phase filter never hides a collision |
| Obstacle.ToothHitNear | sketch.js:236-238 | a hit on a tooth puts the centre within r of the tooth's horizontal extent |
| Obstacle.ToothDet | sketch.js:258 | a tooth (flat base, tip off the base line) has D != 0 |
| Obstacle.InsideBetween | sketch.js:255-263 | a centre inside a tooth lies between the tooth's leftmost and rightmost x |
| Obstacle.EdgeBetween | sketch.js:265-273 | a centre within r of an edge lies within r of the edge's x-range |
| Game.StepColumn | sketch.js:91-93 | the loop body scrolls a column and sets `scored` exactly when it was scored or its right edge is now left of the bird; the gap and teeth are unchanged |
| Game.AnyColumnHit | sketch.js:100-104 | the collision loop reports a hit exactly when some column both overlaps and is hit |
| Game.SurvivorsAreKept | sketch.js:90-95 | the survivors are the columns not offscreen, listed by increasing positions; a position is kept exactly when its column is not offscreen |
| Game.KeptPositions | sketch.js:90-95 | each kept position is in range, and the survivor at that index is the column at that position |
| Game.KeptLength | sketch.js:90-95 | there are as many survivors as kept positions |
| Game.KeptAt | sketch.js:90-95 | the k-th survivor is the column at the k-th kept position |
| Game.KeptIncreasing | sketch.js:90-95 | kept positions are strictly increasing: the splice preserves order |
| Game.KeptIncreasingAt | sketch.js:90-95 | any two kept positions are in order |
| Game.KeptMember | sketch.js:94 | a position is kept exactly when its column is not offscreen |
| Game.KeptMemberAt | sketch.js:94 | the same, one position at a time |
| Game.SurvivorsMember | sketch.js:94 | a column survives exactly when it is in the input and not offscreen |
| Game.SurvivorsSorted | sketch.js:90-95 | removal keeps the columns in increasing x |
| Game.CountScoredAppend | sketch.js:84-86 | the scored count of a concatenation is the sum of the counts |
| Game.GainAppend | sketch.js:84-86 | the score gain over a concatenation is the sum of the gains |
| Game.GainIsNewlyScored | sketch.js:93 | the score gain is exactly the number of `scored` flags turned on |
| Game.SurvivorsAccounting | sketch.js:93-94 | when every offscreen column is scored, the scored count equals the survivors' count plus the number removed |
| Game.ReverseStep | sketch.js:90-95 | one pass at position i extends the finished suffix to start at i, by splice or write-back |
| Game.FramePhysics | sketch.js:68-80 | a frame that is not running changes nothing; a running one adds gravity to vy and then vy to the height |
| Game.FrameSpawn | sketch.js:82-87 | the counter stays in [0, SPAWN), and exactly one new column at x = W is appended on the frames where the counter reaches SPAWN |
| Game.FrameColumns | sketch.js:90-95 | every column is scrolled once; exactly those with x + COL_W < 0 afterwards are removed; the survivors keep their order |
| Game.FrameScore | sketch.js:93 | the score grows by the flags turned on, an already scored column never adds again, and the score never decreases |
| Game.FrameGameOver | sketch.js:98-105 | game over exactly when out of bounds or some surviving column overlaps and is hit; in a reachable state, exactly when some column is hit |
| Game.SurvivorsWellFormed | sketch.js:90-95 | the columns a frame keeps are well formed |
| Game.HitWithoutFilter | sketch.js:101 | over well-formed columns, the loop with the `overlapsX` filter finds a hit exactly when some column collides |
| Game.FrameScoreAccounting | sketch.js:90-95 | a frame raises the score exactly by the columns it removes plus the change in scored columns on screen |
| Game.FrameValid | sketch.js:76-105 | a running frame keeps the invariant and the score accounting |
| Game.FrameInv | sketch.js:68-109 | every frame keeps the invariant: counter range, bird x, spawn order, well-formed and correctly scored columns |
| Game.PreColumnsInv | sketch.js:82-87 | after the spawn step, the columns are well formed, ordered and correctly scored, with the same scored count |
| Game.SteppedInv | sketch.js:90-93 | after the scroll, the columns are well formed, ordered and correctly scored, and every offscreen one is scored |
| Game.ResetInv | sketch.js:139-147 | `resetGame` gives a state that satisfies the invariant and has no columns |
| Game.GapCentreInside | sketch.js:176-177 | a column's gap centre is strictly inside the playfield, so the sentinel -1 is never a real answer |
| Game.NearestIsFirstAhead | sketch.js:173-178 | with columns in spawn order, the nearest column ahead is the first one right of the bird |
| Game.Game.constructor | sketch.js:54 | `setup` leaves the reset state, not started, and the invariant holds |
| Game.Game.Flap | sketch.js:133-136 | while running, vy becomes LIFT; otherwise nothing changes; the invariant is kept |
| Game.Game.ResetGame | sketch.js:139-147 | the globals become `Reset(startFromR)` and the invariant holds |
| Game.Game.Tick | sketch.js:68-109 | one `draw` update computes `Frame` of the old state, keeps the invariant, and counts the removed columns as passed |
| Game.Game.Advance | sketch.js:76-87 | gravity, the bird's move, and the spawn of `MakeColumn(u1, u2)` when the counter reaches SPAWN |
| Game.Game.UpdateColumns | sketch.js:89-95 | the reverse loop leaves the survivors of the stepped columns, adds their gain to the score and counts the removed columns |
| Game.Game.DetectCollision | sketch.js:97-105 | game over exactly when out of bounds or some column overlaps and is hit |
| Game.Game.GuideRouteY | sketch.js:173-178 | -1 when no column is right of the bird; otherwise the gap centre of the nearest such column, the first on a tie |

Proof helpers that model no source line of their own have no row in this table: `Geometry.WeightsReconstruct`, `Geometry.ReconstructDivided`, `Geometry.LerpEnds`, `Obstacle.DrawScale`, `Obstacle.RowsGrow`, `Obstacle.AffineBetween`, `Obstacle.LerpBetween`, `Obstacle.CoordinateWithin` and `Game.FrameOfRunning`.

## Left out

- Rendering, text, the guide line's drawing, the bird sprite and its tilt, `preload`, canvas setup and `show`: they draw the state and do not change it.
- Audio (`userStartAudio`, starting and stopping the background loop): these are external side effects with no effect on the state.
- Input dispatch (`keyPressed`, `mousePressed`): it only chooses whether to call `flap` or `resetGame`. The promise in `keyPressed` is not modelled; the restart is taken as immediate.
- Floating point: all quantities are exact reals. IEEE rounding, infinities and NaN are not modelled. `guideRouteY`'s initial `minX = Infinity` becomes a "none yet" index.
- Obstacle.Random: p5's random generator is replaced by a draw in [0, 1) passed as a parameter.
- Obstacle.GapHeight: proved in exact arithmetic. In IEEE doubles the largest draw of `Math.random()` (just below 1) makes `random(140, 210)` round up to exactly 210.0. So the source can produce a gap height of 210, which the contract's `h < MAX_GAP_H` and `WellFormed` exclude.
- Obstacle.Trunc: `int` is `n|0` in p5 and wraps at 32 bits. In exact arithmetic every value it sees here lies in [140, 210), so the wrap is not modelled.
- Obstacle.Update: the source mutates the column object in place. The model replaces the record in the game's sequence. Columns are never shared, so there is no aliasing to capture.
- Geometry.DistToSegmentSq: only soundness is proved: the reported distance is the distance to a point of the segment. That it is the minimum over the segment is not proved.
- Geometry.CircleTriangleHitSound: the converse is not proved: that every circle that meets the triangle is reported.
- Game.Game.Tick: "nothing else changes" is stated through `State()` over the eight globals. Rendering state is not part of the model.
