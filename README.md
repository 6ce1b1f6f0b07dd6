# Pong: collision servicing and the computer paddle's forecast

This project models the core of a small MonoGame Pong game. It covers:

- how a sprite's collision with another sprite or with the walls of the room is detected and corrected;
- how the ball bounces off paddles and walls;
- how the computer-controlled paddle forecasts where the ball will cross the line it defends, and how it steps towards that point.

The model has five modules:

- `Xna` (`xna.dfy`) holds the two MonoGame value types the game relies on: the integer `Point` and the axis-aligned `Rectangle`. `Rectangle` has MonoGame's strict `Intersects`, and its `Intersect` returns the empty rectangle (0,0,0,0) for disjoint boxes.
- `GameMath` (`game_math.dfy`) models `Line` in standard form A·x + B·y = C with its three constructors, plus `Determinant`, `Intersects`, `Intersect` (Cramer's rule, rounded to the nearest integer with ties to even), `Lines` (the four edges of a rectangle), `Min`/`Max` in both overloads, `Shuffle`, `Cross` and `Dot`.
- `GameObject` (`game_object.dfy`) models `GameObject.ServiceCollision(current, other)`, the pixel-exact collision with its position correction, and `GameObject.ServiceCollision(current)`, the room-wall collision. A body is a class whose position the methods update in place. Each method is proved equal to a pure outcome function (`PairOutcome`, `WallOutcome`), and the properties are proved about those functions.
- `BallBody` (`ball.dfy`) models `Ball.ServiceCollisions`:
  - for each collidable body in turn, service the pair collision and, on a hit, take the negation of the bounce-table direction nearest to the line between the two centres;
  - then service the wall collision and flip X or Y depending on the nearest wall.
- `AIPaddleBody` (`ai_paddle.dfy`) models the `AIPaddle` constructor invariants, the `RoomBounds` and `Ball` setters, and `UpdatePosition`:
  - the forecast loop follows the ball's straight path from wall point to wall point, reflecting at each wall, until a point lies on the defended Y;
  - the control step then moves the paddle one rounded step towards that point along X, with a dead zone of 30.

The source's `IGameObject` interface becomes composition: `Ball` and `AIPaddle` each own a `Body` (position, velocity, room bounds, texture mask, solidity).

Each texture becomes a `Mask`, a grid of opaque pixels (`pixels[y][x]`). Elapsed game time is passed in ticks (10,000,000 per second). `(int)Math.Round` of an exact quotient is modelled as `RoundHalfEven`, which is .NET's default midpoint rule.

## Model

| member | source | states |
|---|---|---|
| GameMath.LineThrough | GameMath.cs:23-28 | The line built from two points holds both of them, and it is a proper line (A or B non-zero) when the points differ. |
| GameMath.LineFromCoords | GameMath.cs:51-56 | The coordinate constructor's line always holds the first point, and it holds the second point exactly when the two points share an X or a Y. |
| GameMath.LineFromCoordsMissesDiagonal | GameMath.cs:51-56 | For (x0, y0) and (x0+d, y0+d) with d ≠ 0, the coordinate constructor yields (−d, −d, −d·x0 − d·y0), which misses the second point; the two-point constructor's line holds it. |
| GameMath.LineFromCoordsOnAxes | GameMath.cs:51-56 | On points sharing a coordinate, the coordinate constructor gives the two-point line up to sign, hence the same point set. |
| GameMath.LineThroughSymmetric | GameMath.cs:17-28 | Swapping the two points negates all three coefficients and keeps the set of points, as the constructor's comment promises. |
| GameMath.LineThroughCollinear | GameMath.cs:23-28 | A point is on the line through p0 and p1 exactly when its offset from p0 has zero cross product with p1 − p0. |
| GameMath.Determinant | GameMath.cs:64-67 | No contract of its own: A·B′ − A′·B of the two lines. `DeterminantAntisymmetric`, `ParallelNeverIntersects` and `CramerSolvesBoth` state what it means. |
| GameMath.Intersects | GameMath.cs:75-78 | No contract of its own: two lines meet in a single point exactly when their determinant is non-zero. `DeterminantAntisymmetric` and `ParallelNeverIntersects` state its properties. |
| GameMath.DeterminantAntisymmetric | GameMath.cs:64-78 | The determinant changes sign when the lines are swapped, so `Intersects` is symmetric. |
| GameMath.ParallelNeverIntersects | GameMath.cs:75-78 | A line never intersects any multiple of itself: parallel lines are reported as not intersecting. |
| GameMath.CramerSolvesBoth | GameMath.cs:90-92 | Cramer's numerators, divided by the determinant, satisfy both line equations exactly. |
| GameMath.RoundHalfEven | GameMath.cs:91-92 | The rounded quotient is within half a step of n/d, and on an exact half it is even. |
| GameMath.RoundHalfEvenUnique | GameMath.cs:91-92 | Any integer with those two properties is the rounded quotient, so the rounding is fully determined. |
| GameMath.RoundHalfEvenExact | GameMath.cs:91-92 | An exact quotient is returned unchanged. |
| GameMath.RoundHalfEvenNegate | GameMath.cs:91-92 | Negating both numerator and denominator does not change the result. |
| GameMath.RoundHalfEvenOdd | GameMath.cs:91-92 | Negating the numerator negates the result (rounding is symmetric about zero). |
| GameMath.Intersect | GameMath.cs:86-94 | Each coordinate of the intersection is within half a unit of the exact Cramer solution. |
| GameMath.IntersectSymmetric | GameMath.cs:86-94 | The intersection does not depend on the order of the two lines. |
| GameMath.IntersectAtCommonPoint | GameMath.cs:86-94 | When two non-parallel lines share an integer point, `Intersect` returns exactly that point. |
| GameMath.IntersectOnHorizontal | GameMath.cs:86-94 | Meeting a horizontal line y = y0, the intersection's Y is exactly y0, in either argument order. |
| GameMath.IntersectOnVertical | GameMath.cs:86-94 | Meeting a vertical line x = x0, the intersection's X is exactly x0, in either argument order. |
| GameMath.Lines | GameMath.cs:101-127 | There are four lines, in the order top, right, bottom, left, and each holds every point of its edge's line. |
| GameMath.LinesAreEdges | GameMath.cs:101-127 | For a rectangle with area, each edge line holds exactly the points level with its edge, and top/bottom are horizontal and right/left vertical. |
| GameMath.LinesMeetAtCorners | GameMath.cs:101-127 | Consecutive edge lines intersect, and `Intersect` gives exactly the shared corner. |
| GameMath.ArgMin | GameMath.cs:143-158 | The index is the first index of a minimum. |
| GameMath.ArgMax | GameMath.cs:181-196 | The index is the first index of a maximum. |
| GameMath.FirstMinUnique | GameMath.cs:143-158 | There is only one first index of a minimum. |
| GameMath.FirstMaxUnique | GameMath.cs:181-196 | There is only one first index of a maximum. |
| GameMath.MinIndex | GameMath.cs:143-158 | The loop returns the first index of a minimum and the value at that index. |
| GameMath.Min | GameMath.cs:165-173 | The result is an element of the list and no element is smaller. |
| GameMath.MaxIndex | GameMath.cs:181-196 | The loop returns the first index of a maximum and the value at that index. |
| GameMath.Max | GameMath.cs:203-211 | The result is the value at the first maximum: an element of the list that no element exceeds. |
| GameMath.Shuffle | GameMath.cs:217-229 | Fisher–Yates with the random draws given keeps the list a permutation of itself. |
| GameMath.Cross | GameMath.cs:237-240 | No contract of its own: the 2-D cross product a.X·b.Y − b.X·a.Y. `CrossAntisymmetric` and `LineThroughCollinear` state its properties. |
| GameMath.Dot | GameMath.cs:248-251 | No contract of its own: the dot product a.X·b.X + a.Y·b.Y. `DotSymmetric` and `SelectedPointAhead` state its properties. |
| GameMath.CrossAntisymmetric | GameMath.cs:237-240 | cross(a, b) = −cross(b, a), and cross(a, a) = 0. |
| GameMath.DotSymmetric | GameMath.cs:248-251 | dot is symmetric, and dot(a, a) ≥ 0 with equality only for the zero vector. |
| Xna.Rect.Intersect | GameObject.cs:169 | MonoGame's `Rectangle.Intersect`: disjoint boxes give (0,0,0,0); otherwise the result lies within both boxes, with the inner edges. |
| GameObject.CollisionGrid | GameObject.cs:61-93 | The collision mask has one cell per pixel of the overlap, and a cell is set exactly when both sprites are opaque at that room pixel. |
| GameObject.CountOverlap | GameObject.cs:103-111 | The counting loops produce exactly the per-column and per-row counts of set cells. |
| GameObject.CountRow | GameObject.cs:105-111 | One row of the loop adds that row's cells to the column counts and sets the row's count, leaving the other rows alone. |
| GameObject.OverlapCountsBalance | GameObject.cs:103-111 | The column counts and the row counts add up to the same total; no column count exceeds the height and no row count exceeds the width. |
| GameObject.OverlapMaximaPositive | GameObject.cs:103-113 | When a collision occurred, both maxima are at least 1. |
| GameObject.PairOutcome | GameObject.cs:43-152 | No contract of its own: what the pair collision reports and where it leaves the body. It specifies `GameObject.ServiceCollision`, and the lemmas below state its properties. |
| GameObject.ServiceCollision | GameObject.cs:43-152 | The result and `current`'s new position are those of `PairOutcome` on the state before the call; only `current`'s position may change. |
| GameObject.Correct | GameObject.cs:116-143 | The position moves by the correction: along Y by colMax when colMax < rowMax, otherwise along X by rowMax, in the direction of each edge the overlap shares with `other`. |
| GameObject.PairCollidesIffSharedPixel | GameObject.cs:57-94 | A collision is reported exactly when some room pixel is opaque in both sprites, and never when the boxes do not strictly overlap. |
| GameObject.PairOutcomeMovesOneAxis | GameObject.cs:97-143 | The body moves only after a reported collision between two solid bodies, and then along one axis only. |
| GameObject.PairInsideObstacleStays | GameObject.cs:116-143 | A body whose box lies strictly inside a solid obstacle's box, sharing one opaque pixel with it, is reported as colliding and is not moved, so the boxes still overlap. The promise at GameObject.cs:35-36 that the body ends up no longer colliding therefore does not hold in general. |
| GameObject.PairSeparatesVertically | GameObject.cs:122-132 | Where the promise does hold along Y: both bodies are opaque over the whole overlap, the overlap is wider than tall, and exactly one of the obstacle's top and bottom edges is shared. Then the collision is reported and the moved box no longer overlaps the obstacle. |
| GameObject.PairSeparatesHorizontally | GameObject.cs:133-143 | The same along X: the overlap is at least as tall as wide, and exactly one of the obstacle's left and right edges is shared. |
| GameObject.WallOutcome | GameObject.cs:162-208 | No contract of its own: what the wall collision reports and where it leaves the body. It specifies `GameObject.ServiceWallCollision`, and the four wall lemmas below state its properties. |
| GameObject.ServiceWallCollision | GameObject.cs:162-208 | The result and the new position are those of `WallOutcome` on the position before the call. |
| GameObject.WallPushesNonNegative | GameObject.cs:179-180 | Both push distances are non-negative. |
| GameObject.WallReportsIffOutside | GameObject.cs:166-173 | For a non-empty texture, a wall collision is reported exactly when the box is not wholly inside the room; otherwise the position is unchanged. |
| GameObject.WallCorrectionContains | GameObject.cs:173-206 | A body that overlaps the room and fits in it ends wholly inside the room, so a second call reports nothing. |
| GameObject.WallOutsideRoomAtOrigin | GameObject.cs:169-204 | A box wholly outside a room at the origin is still reported, and it is pushed right by its width and down by its height, whatever side it is on. |
| BallBody.LengthSquared | Ball.cs:120-123 | The squared length is non-negative and is zero only for the zero vector. |
| BallBody.BounceFor | Ball.cs:116-129 | No contract of its own: the negation of the table entry nearest to the collision direction. `BounceIsNearest` states what it picks. |
| BallBody.BounceIsNearest | Ball.cs:116-129 | The new velocity is the negation of a table entry at minimal squared distance from the collision direction, the first such entry. |
| BallBody.PeerPassVelocity | Ball.cs:112-131 | After the loop over bodies, the velocity is the old one or the negation of some table entry. |
| BallBody.PeerPassQuiet | Ball.cs:112-131 | When no body is hit, the loop changes neither position nor velocity. |
| BallBody.LastCollisionWins | Ball.cs:112-131 | The last body hit decides the velocity: from the same position, a hit sets the same velocity whatever came before. |
| BallBody.WallFlip | Ball.cs:144-155 | No contract of its own: the first nearest of the four wall distances picks the flipped axis. `WallFlipAxis` states the choice and that the speed is kept. |
| BallBody.WallFlipAxis | Ball.cs:144-155 | X is reversed when the left or right wall is nearest (ties go to X), and Y otherwise; the squared speed is kept. |
| BallBody.WallStepKeepsSpeed | Ball.cs:132-156 | The wall step keeps the magnitude of each velocity component. |
| BallBody.BallKeepsVerticalMotion | Ball.cs:46-52 | Since every table entry has Y ≠ 0, a ball with vertical motion keeps vertical motion through every bounce. |
| BallBody.BallKeepsSpeed | Ball.cs:110-157 | After servicing, the squared speed is the old one or that of some table entry. |
| BallBody.WallStepQuiet | Ball.cs:132-133 | A ball wholly inside the room is left alone by the walls. |
| BallBody.WallDistancesNonNegative | Ball.cs:134-142 | The asserted wall distances are non-negative when the room is at the origin and the ball fits in it and overlaps it. |
| BallBody.Ball.constructor | Ball.cs:22-54 | The launch velocity must point down (Y > 0), as a launch angle strictly between 60° and 120° at a positive speed gives, and the texture's mask must match its size. The ball is solid, starts with the given position, velocity and room, has no collidable bodies, and its bounce table has no horizontal entry. |
| BallBody.Ball.ServiceCollisions | Ball.cs:110-157 | The ball stays valid, and the new position and velocity are `BallOutcome` of the old ones: the loop over the bodies, then the walls. |
| BallBody.Ball.ServicePeers | Ball.cs:112-131 | The ball stays valid, and the loop leaves position and velocity as `PeerPass` of the old ones, over the bodies in order. |
| BallBody.Ball.ServicePeer | Ball.cs:114-130 | The ball stays valid, and one turn gives `PeerStep`: the pair correction, then on a hit the bounce with the first nearest table entry. |
| BallBody.Ball.ServiceWalls | Ball.cs:132-156 | The ball stays valid, and the wall part gives `WallStep`: the wall correction, then on a hit the flip chosen by the nearest wall. |
| AIPaddleBody.SelectPoint | AIPaddle.cs:148-156 | A selected point is not the current point and lies in [0, Width] × [0, Height]. |
| AIPaddleBody.Qualifies | AIPaddle.cs:148-155 | No contract of its own: the filters of the selection. The path meets the room line; the meeting point is ahead along the velocity, is not the current point, and lies in [0, Width] × [0, Height]. `SelectPointIsFirstQualifying`, `MeetingBehind` and `MeetingAhead` use it. |
| AIPaddleBody.SelectPointIsFirstQualifying | AIPaddle.cs:148-156 | Nothing is selected exactly when no room line passes the filters; otherwise the selection is the intersection with the first line that does. |
| AIPaddleBody.SelectedPointAhead | AIPaddle.cs:151 | A selected point lies ahead along the velocity (positive dot product). |
| AIPaddleBody.SelectedPointOnBoundary | AIPaddle.cs:148-156 | In a room at the origin with area, a selected point lies exactly on one of the room's edges. |
| AIPaddleBody.Reflect | AIPaddle.cs:170-177 | The magnitudes are kept; X points inward off the left or right wall and Y off the top or bottom wall; away from the walls nothing changes. |
| AIPaddleBody.Forecast | AIPaddle.cs:145-182 | No contract of its own: select, stop on the defended Y, otherwise reflect and go on, within a budget of selections. `ForecastOnDefendedLine`, `ForecastFuelMonotone` and the shot lemmas state its properties. |
| AIPaddleBody.ForecastOnDefendedLine | AIPaddle.cs:145-182 | A forecast point lies on the defended Y and inside the room. |
| AIPaddleBody.ForecastFuelMonotone | AIPaddle.cs:162-164 | A larger selection budget never changes a forecast that was found. |
| AIPaddleBody.VerticalPathMeetsEdges | AIPaddle.cs:148-150 | A vertical path meets the top and bottom lines right at its X and is parallel to the side lines. |
| AIPaddleBody.VerticalSelect | AIPaddle.cs:148-156 | A ball moving straight up or down selects the top or bottom wall point directly above or below it. |
| AIPaddleBody.VerticalShotForecast | AIPaddle.cs:135-182 | A vertical shot from (x0, y0) inside the room is forecast to cross the defended line at x0, with at most one bounce. |
| AIPaddleBody.DiagonalFirstLeg | AIPaddle.cs:148-156 | In a square room of side s at the origin, a ball at (x0, y0) with 0 < y0 < x0 < s, moving by (v, v) with v > 0, skips the top line (behind it) and selects the right-wall point (s, s − x0 + y0). |
| AIPaddleBody.DiagonalSecondLeg | AIPaddle.cs:148-156 | Moving by (−v, v) from a right-wall point (s, y1) with 0 < y1 < s, the ball skips the top line (behind it) and the right line (where it stands) and selects (y1, s) on the bottom. |
| AIPaddleBody.DiagonalShotForecast | AIPaddle.cs:135-182 | For every start (x0, y0) nearer the right wall than the bottom one (0 < y0 < x0 < s) and every speed v > 0, a shot moving by (v, v) bounces once off the right wall at (s, s − x0 + y0) and is forecast to cross the bottom at (s − x0 + y0, s). With s = 100, (x0, y0) = (90, 10), v = 50 that is (20, 100) via (100, 20). |
| AIPaddleBody.Steer | AIPaddle.cs:186-193 | The direction is −1, 0 or 1; it is 0 exactly inside the dead zone (under 30); otherwise its sign is the sign of the difference. |
| AIPaddleBody.StepLength | AIPaddle.cs:194 | No contract of its own: direction · speed · elapsed seconds, rounded half to even, with the time given in ticks. `StepLengthSymmetric` and `PaddleApproaches` state its properties. |
| AIPaddleBody.StepLengthSymmetric | AIPaddle.cs:194 | A step to the left has the same length as a step to the right, and a full step is never negative. |
| AIPaddleBody.PaddleApproaches | AIPaddle.cs:186-197 | The paddle holds still inside the dead zone; otherwise it steps towards the forecast point, and never overshoots past the starting distance when the step is at most twice the distance. |
| AIPaddleBody.AIPaddle.constructor | AIPaddle.cs:24-36 | The constructor requires defendingY ∈ {0, room height}, speed ≥ 0 and a mask that matches its size. It yields room lines equal to `Lines(room)`, zero velocity and no ball. |
| AIPaddleBody.AIPaddle.SetRoomBounds | AIPaddle.cs:61-70 | Setting the room also resets the room lines to `Lines` of the new room, so the invariant is kept. |
| AIPaddleBody.AIPaddle.SetBall | AIPaddle.cs:84-93 | The ball may be set only when it shares the paddle's room; the paddle stays valid. |
| AIPaddleBody.AIPaddle.PredictCrossing | AIPaddle.cs:122-183 | The forecast loop returns `Forecast` from the ball's centre and velocity, with a budget of 1000 selections. |
| AIPaddleBody.AIPaddle.UpdatePosition | AIPaddle.cs:120-198 | The paddle stays valid. Without a forecast nothing changes. With one, the velocity becomes (rounded step towards the forecast X, 0) and the position moves by it. |

## Findings

| source | as written | input that shows it | evidently intended | confidence | as-written member | corrected member |
|---|---|---|---|---|---|---|
| GameMath.cs:51-56 | `A = y0 - y1; B = x0 - x1` | (x0, y0) = (0, 0), (x1, y1) = (1, 1): the line is −x − y = 0, which does not hold (1, 1) | a line through both points (A = y1 − y0, as the `Point` constructor at lines 23-28 does), as its comment says | high; not executed | GameMath.LineFromCoordsMissesDiagonal | GameMath.LineThrough |

The game calls the coordinate constructor only from `Lines`, on the edges of a rectangle, where the two points always share a coordinate. `GameMath.LineFromCoordsOnAxes` proves that there it builds the same line as the corrected `LineThrough`, up to sign. `Lines` therefore keeps the constructor as written, and every edge line and corner intersection proved about it holds.

## Left out

- `Game1.cs` and `HumanPaddle.cs` (the game loop, keyboard input and drawing) are not part of this model.
- `Draw`, texture loading and `Texture2D.GetData` are not modelled. Each texture is given as a `Mask` of opaque pixels: a pixel is opaque exactly when it is not `Color.Transparent`. Every body's mask matches its width and height (`Mask.Valid`, required by the constructors and kept in the ball's and the paddle's invariants), so no pixel read falls outside the grid, where `GetData`'s array would throw.
- The ball's random launch direction (`Random`, `Math.Cos`/`Math.Sin` in the constructor) and its trigonometric bounce table are inputs. The constructor takes the velocity and the table; the table must be non-empty with no entry whose Y is 0, which is what the constructor's filter ensures.
- `Shuffle`'s calls to `Random.Next` are passed in as a sequence of draws.
- Floating point is not modelled:
  - the `float` cast in `Line.Intersect` and the `double` elapsed seconds in `UpdatePosition` are replaced by exact rational quotients, rounded half to even;
  - `Vector2.LengthSquared` is computed on exact integers.
- GameMath.Intersect: the model rounds the exact quotient. The source first casts each Cramer numerator to a 32-bit `float`, which holds integers exactly only up to 2^24 (about 1.7·10^7). In the game's own 800×480 room, with the ball at speed 600, the numerators already reach about 2·10^8. So, at ordinary sizes, when the exact quotient lies at or near a half, the source can round to the other neighbour and differ from the model by one. A quotient that is an exact integer is not affected: the float error there stays far below one half.
- 32-bit integer overflow is not modelled; all arithmetic is on unbounded integers.
- Each `Debug.Assert` is handled as follows:
  - the null checks and `current != other` become preconditions;
  - the ball's non-negative-distance asserts are the lemma `BallBody.WallDistancesNonNegative` with the conditions under which they hold;
  - the forecast's 1000-iteration debug bound becomes the selection budget `MaxSelections`, which ends the forecast with no result (a release build would loop on).
- GameObject.ServiceCollision: does not promise what the comment at GameObject.cs:35-36 says, that a solid body ends up no longer colliding with the obstacle. The code at GameObject.cs:116-143 moves the body only across edges the overlap shares with the obstacle, so a body strictly inside the obstacle stays where it is (`GameObject.PairInsideObstacleStays`). The model follows the code. It proves separation only in the cases of `GameObject.PairSeparatesVertically` and `GameObject.PairSeparatesHorizontally`.
- A forecast step in which no wall point qualifies makes `First()` throw in the source. The model returns no forecast, and `UpdatePosition` then returns false and changes nothing.
- The local `velocityLine` is recomputed from the current point and velocity (`Trajectory`) instead of being kept as a separate variable.
- `Ball.UpdatePosition`, the ball's move along its velocity each frame, is not part of this model.
- `AIPaddle.ServiceCollisions` only calls the two `ServiceCollision` overloads and ignores their results, so it adds nothing beyond `GameObject.ServiceCollision` and `GameObject.ServiceWallCollision`.
- The `Position`, `Velocity` and `CollidableGameObjects` setters are plain field writes; the collidable bodies are a sequence field.
- Only the lemmas that need it assume the room sits at the origin (as the game builds it). The operations take any room, as the source does.
