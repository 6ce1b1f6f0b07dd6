/** The computer's paddle. Each frame it forecasts where the ball will cross
    the line it defends, by following the ball's straight path from wall to
    wall of the room, and then steps towards that point along X. */
module AIPaddleBody {
  import opened Xna
  import opened GameMath
  import opened GameObject

  datatype Option<T> = None | Some(value: T)

  /** How many selections the forecast may make: the debug build asserts that
      fewer than this many wall points were passed before the crossing. */
  const MaxSelections: nat := 1000

  /** `TimeSpan.TicksPerSecond`: elapsed game time is counted in ticks. */
  const TicksPerSecond: int := 10_000_000

  /** Half-width of the dead zone in which the paddle holds still. */
  const DeadZone: int := 30

  // ---------------------------------------------------------------------------
  // The forecast
  // ---------------------------------------------------------------------------

  /** The path from `current` in direction `velocity`, as `new Line(p0, p1)`
      builds it. */
  function Trajectory(current: Point, velocity: Point): Line {
    LineThrough(current, Add(current, velocity))
  }

  /** The filters a room line passes in the selection: the path is not
      parallel to it, their intersection lies ahead along the velocity, is
      not the current point and lies in the room measured from its origin. */
  predicate Qualifies(roomLine: Line, current: Point, velocity: Point, room: Rect) {
    var path := Trajectory(current, velocity);
    Intersects(path, roomLine) &&
    var p := Intersect(path, roomLine);
    Dot(velocity, Sub(p, current)) > 0 && p != current &&
    0 <= p.X <= room.Width && 0 <= p.Y <= room.Height
  }

  /** The selection of one step of the forecast: the intersection with the
      first room line that qualifies, or nothing when none does (where
      `First()` throws). A selected point is distinct from where the ball is
      and inside the room. */
  function SelectPoint(roomLines: seq<Line>, current: Point, velocity: Point, room: Rect): (sel: Option<Point>)
    ensures sel.Some? ==> sel.value != current && 0 <= sel.value.X <= room.Width && 0 <= sel.value.Y <= room.Height
  {
    if |roomLines| == 0 then None
    else if Qualifies(roomLines[0], current, velocity, room) then
      Some(Intersect(Trajectory(current, velocity), roomLines[0]))
    else
      SelectPoint(roomLines[1..], current, velocity, room)
  }

  /** The selection is exactly "the first qualifying line": nothing when no
      line qualifies, otherwise the intersection with a qualifying line that
      no earlier line precedes. */
  lemma SelectPointIsFirstQualifying(roomLines: seq<Line>, current: Point, velocity: Point, room: Rect)
    ensures var sel := SelectPoint(roomLines, current, velocity, room);
      sel.None? <==> forall i :: 0 <= i < |roomLines| ==> !Qualifies(roomLines[i], current, velocity, room)
    ensures var sel := SelectPoint(roomLines, current, velocity, room);
      sel.Some? ==> exists i :: (0 <= i < |roomLines| && Qualifies(roomLines[i], current, velocity, room) &&
        sel.value == Intersect(Trajectory(current, velocity), roomLines[i]) &&
        forall j :: 0 <= j < i ==> !Qualifies(roomLines[j], current, velocity, room))
  {
    SelectPointNone(roomLines, current, velocity, room);
    SelectPointSome(roomLines, current, velocity, room);
  }

  lemma {:induction false} SelectPointNone(roomLines: seq<Line>, current: Point, velocity: Point, room: Rect)
    ensures SelectPoint(roomLines, current, velocity, room).None? <==>
      forall i :: 0 <= i < |roomLines| ==> !Qualifies(roomLines[i], current, velocity, room)
  {
    if |roomLines| > 0 && !Qualifies(roomLines[0], current, velocity, room) {
      SelectPointNone(roomLines[1..], current, velocity, room);
      assert forall i :: 1 <= i < |roomLines| ==> roomLines[i] == roomLines[1..][i - 1];
    }
  }

  lemma {:induction false} SelectPointSome(roomLines: seq<Line>, current: Point, velocity: Point, room: Rect)
    ensures var sel := SelectPoint(roomLines, current, velocity, room);
      sel.Some? ==> exists i :: (0 <= i < |roomLines| && Qualifies(roomLines[i], current, velocity, room) &&
        sel.value == Intersect(Trajectory(current, velocity), roomLines[i]) &&
        forall j :: 0 <= j < i ==> !Qualifies(roomLines[j], current, velocity, room))
  {
    if |roomLines| > 0 && !Qualifies(roomLines[0], current, velocity, room) {
      var rest := roomLines[1..];
      SelectPointSome(rest, current, velocity, room);
      var sel := SelectPoint(rest, current, velocity, room);
      assert SelectPoint(roomLines, current, velocity, room) == sel;
      if sel.Some? {
        var i :| 0 <= i < |rest| && Qualifies(rest[i], current, velocity, room) &&
          sel.value == Intersect(Trajectory(current, velocity), rest[i]) &&
          forall j :: 0 <= j < i ==> !Qualifies(rest[j], current, velocity, room);
        assert rest[i] == roomLines[i + 1];
        assert forall j :: 1 <= j < i + 1 ==> roomLines[j] == rest[j - 1];
      }
    }
  }

  /** A selected point lies ahead of the ball along its velocity. */
  lemma {:induction false} SelectedPointAhead(roomLines: seq<Line>, current: Point, velocity: Point, room: Rect)
    ensures var sel := SelectPoint(roomLines, current, velocity, room);
      sel.Some? ==> Dot(velocity, Sub(sel.value, current)) > 0
  {
    if |roomLines| > 0 && !Qualifies(roomLines[0], current, velocity, room) {
      SelectedPointAhead(roomLines[1..], current, velocity, room);
    }
  }

  /** The velocity after reaching `p` on the room's boundary: pointing right
      off the left wall, left off the right wall, down off the top wall and up
      off the bottom wall, each rule applied in that order. */
  function Reflect(room: Rect, p: Point, velocity: Point): (r: Point)
    ensures Abs(r.X) == Abs(velocity.X) && Abs(r.Y) == Abs(velocity.Y)
    ensures p.X == room.Right() ==> r.X <= 0
    ensures p.X == room.Left() && p.X != room.Right() ==> r.X >= 0
    ensures p.X != room.Left() && p.X != room.Right() ==> r.X == velocity.X
    ensures p.Y == room.Bottom() ==> r.Y <= 0
    ensures p.Y == room.Top() && p.Y != room.Bottom() ==> r.Y >= 0
    ensures p.Y != room.Top() && p.Y != room.Bottom() ==> r.Y == velocity.Y
  {
    var x1 := if p.X == room.Left() then Abs(velocity.X) else velocity.X;
    var x2 := if p.X == room.Right() then -Abs(x1) else x1;
    var y1 := if p.Y == room.Top() then Abs(velocity.Y) else velocity.Y;
    var y2 := if p.Y == room.Bottom() then -Abs(y1) else y1;
    Point(x2, y2)
  }

  /** Where the ball, leaving `current` with `velocity`, crosses the line
      y == defendingY, following it from wall to wall; nothing when a step
      finds no point or the selections run out. */
  function Forecast(roomLines: seq<Line>, room: Rect, defendingY: int, current: Point, velocity: Point, fuel: nat): Option<Point>
    decreases fuel
  {
    if fuel == 0 then None
    else
      match SelectPoint(roomLines, current, velocity, room)
      case None => None
      case Some(p) =>
        if p.Y == defendingY then Some(p)
        else Forecast(roomLines, room, defendingY, p, Reflect(room, p, velocity), fuel - 1)
  }

  /** A forecast point lies on the defended line and inside the room. */
  lemma {:induction false} ForecastOnDefendedLine(roomLines: seq<Line>, room: Rect, defendingY: int,
                                                  current: Point, velocity: Point, fuel: nat)
    ensures var f := Forecast(roomLines, room, defendingY, current, velocity, fuel);
      f.Some? ==> f.value.Y == defendingY && 0 <= f.value.X <= room.Width && 0 <= f.value.Y <= room.Height
    decreases fuel
  {
    if fuel > 0 {
      var sel := SelectPoint(roomLines, current, velocity, room);
      if sel.Some? && sel.value.Y != defendingY {
        ForecastOnDefendedLine(roomLines, room, defendingY, sel.value, Reflect(room, sel.value, velocity), fuel - 1);
      }
    }
  }

  /** For a room at the origin with some area, every selected point lies
      exactly on one of the room's edges: the rounding in `Intersect` never
      moves a point off the wall it was found on. */
  lemma SelectedPointOnBoundary(room: Rect, current: Point, velocity: Point)
    requires room.X == 0 && room.Y == 0 && room.Width > 0 && room.Height > 0
    ensures var sel := SelectPoint(Lines(room), current, velocity, room);
      sel.Some? ==> sel.value.Y == 0 || sel.value.X == room.Width || sel.value.Y == room.Height || sel.value.X == 0
  {
    var ls := Lines(room);
    var path := Trajectory(current, velocity);
    SelectPointIsFirstQualifying(ls, current, velocity, room);
    LinesAreEdges(room, current);
    var sel := SelectPoint(ls, current, velocity, room);
    if sel.Some? {
      var i :| 0 <= i < 4 && Qualifies(ls[i], current, velocity, room) && sel.value == Intersect(path, ls[i]);
      if i == 0 {
        IntersectOnHorizontal(path, ls[0], 0);
      } else if i == 1 {
        IntersectOnVertical(path, ls[1], room.Width);
      } else if i == 2 {
        IntersectOnHorizontal(path, ls[2], room.Height);
      } else {
        IntersectOnVertical(path, ls[3], 0);
      }
    }
  }

  /** The vertical path through x0 crosses the top and bottom lines of a
      room at the origin right at x0 and is parallel to the side lines. */
  lemma VerticalPathMeetsEdges(room: Rect, current: Point, vy: int)
    requires room.X == 0 && room.Y == 0 && room.Width > 0 && room.Height > 0 && vy != 0
    ensures var ls, path := Lines(room), Trajectory(current, Point(0, vy));
      Intersects(path, ls[0]) && Intersect(path, ls[0]) == Point(current.X, 0) &&
      !Intersects(path, ls[1]) &&
      Intersects(path, ls[2]) && Intersect(path, ls[2]) == Point(current.X, room.Height) &&
      !Intersects(path, ls[3])
  {
    var ls := Lines(room);
    var path := Trajectory(current, Point(0, vy));
    assert path == Line(vy, 0, vy * current.X);
    LinesAreEdges(room, current);
    assert Intersects(path, ls[0]) && Intersects(path, ls[2]) by {
      ProductZero(vy, room.Width);
    }
    IntersectOnHorizontal(path, ls[0], 0);
    IntersectOnHorizontal(path, ls[2], room.Height);
    DeterminantAntisymmetric(path, ls[0]);
    DeterminantAntisymmetric(path, ls[2]);
    IntersectOnVertical(ls[0], path, current.X);
    IntersectOnVertical(ls[2], path, current.X);
  }

  lemma DotAlongY(vy: int, d: Point)
    requires d.X == 0
    ensures Dot(Point(0, vy), d) == vy * d.Y
  {
  }

  /** A ball moving straight up or down from x0 is met by the top or bottom
      wall right above or below it. */
  lemma VerticalSelect(room: Rect, x0: int, y0: int, vy: int)
    requires room.X == 0 && room.Y == 0 && room.Width > 0 && room.Height > 0
    requires 0 <= x0 <= room.Width && 0 <= y0 <= room.Height && vy != 0
    requires vy < 0 ==> y0 > 0
    requires vy > 0 ==> y0 < room.Height
    ensures SelectPoint(Lines(room), Point(x0, y0), Point(0, vy), room) ==
      Some(Point(x0, if vy < 0 then 0 else room.Height))
  {
    var ls := Lines(room);
    var current, velocity := Point(x0, y0), Point(0, vy);
    var top, bottom := Point(x0, 0), Point(x0, room.Height);
    VerticalPathMeetsEdges(room, current, vy);
    assert Dot(velocity, Sub(top, current)) == vy * (0 - y0) by {
      DotAlongY(vy, Sub(top, current));
    }
    assert Dot(velocity, Sub(bottom, current)) == vy * (room.Height - y0) by {
      DotAlongY(vy, Sub(bottom, current));
    }
    if vy < 0 {
      assert vy * (0 - y0) > 0 by { PositiveProduct(-vy, y0); }
      assert Qualifies(ls[0], current, velocity, room);
    } else {
      assert vy * (0 - y0) <= 0 by { if y0 > 0 { PositiveProduct(vy, y0); } }
      assert vy * (room.Height - y0) > 0 by { PositiveProduct(vy, room.Height - y0); }
      assert !Qualifies(ls[0], current, velocity, room);
      assert !Qualifies(ls[1], current, velocity, room);
      assert Qualifies(ls[2], current, velocity, room);
      assert ls[1..][0] == ls[1] && ls[1..][1..][0] == ls[2];
      assert SelectPoint(ls[1..][1..], current, velocity, room) == Some(bottom);
      assert SelectPoint(ls[1..], current, velocity, room) == Some(bottom);
    }
  }

  /** A ball moving straight up or down, inside a room at the origin, is
      forecast to cross the defended line right where it is along X, after
      at most one bounce off the opposite wall. */
  lemma VerticalShotForecast(room: Rect, defendingY: int, x0: int, y0: int, vy: int, fuel: nat)
    requires room.X == 0 && room.Y == 0 && room.Width > 0 && room.Height > 0
    requires defendingY == 0 || defendingY == room.Height
    requires 0 <= x0 <= room.Width && 0 < y0 < room.Height && vy != 0
    requires fuel >= 2
    ensures Forecast(Lines(room), room, defendingY, Point(x0, y0), Point(0, vy), fuel) == Some(Point(x0, defendingY))
  {
    VerticalSelect(room, x0, y0, vy);
    var first := Point(x0, if vy < 0 then 0 else room.Height);
    if first.Y != defendingY {
      var bounced := Reflect(room, first, Point(0, vy));
      assert bounced == Point(0, -vy);
      VerticalSelect(room, x0, first.Y, -vy);
    }
  }

  /** A room line whose meeting point with the path is `p` does not
      qualify when `p` lies behind the ball or is where the ball is. */
  lemma MeetingBehind(roomLine: Line, current: Point, velocity: Point, room: Rect, p: Point)
    requires Intersects(Trajectory(current, velocity), roomLine)
    requires OnLine(Trajectory(current, velocity), p) && OnLine(roomLine, p)
    requires Dot(velocity, Sub(p, current)) <= 0
    ensures !Qualifies(roomLine, current, velocity, room)
  {
    IntersectAtCommonPoint(Trajectory(current, velocity), roomLine, p);
  }

  /** A room line whose meeting point with the path is `p` qualifies when
      `p` lies ahead of the ball and in the room. */
  lemma MeetingAhead(roomLine: Line, current: Point, velocity: Point, room: Rect, p: Point)
    requires Intersects(Trajectory(current, velocity), roomLine)
    requires OnLine(Trajectory(current, velocity), p) && OnLine(roomLine, p)
    requires Dot(velocity, Sub(p, current)) > 0
    requires 0 <= p.X <= room.Width && 0 <= p.Y <= room.Height
    ensures Qualifies(roomLine, current, velocity, room)
    ensures Intersect(Trajectory(current, velocity), roomLine) == p
  {
    IntersectAtCommonPoint(Trajectory(current, velocity), roomLine, p);
  }

  /** The top, right and bottom lines of a square room at the origin. */
  lemma SquareRoomLines(room: Rect)
    requires room.X == 0 && room.Y == 0 && room.Width == room.Height
    ensures var s := room.Width;
      Lines(room)[0] == Line(0, -s, 0) && Lines(room)[1] == Line(-s, 0, -s * s) &&
      Lines(room)[2] == Line(0, s, s * s)
  {
  }

  /** The path of a diagonal shot from (x0, y0) moving by (v, v): it meets
      the top line at (x0 - y0, 0) and the right line at (s, s - x0 + y0). */
  lemma DiagonalFirstPath(room: Rect, x0: int, y0: int, v: int)
    requires room.X == 0 && room.Y == 0 && room.Width == room.Height
    requires 0 < y0 < x0 < room.Width && v > 0
    ensures var s := room.Width;
      var path := Trajectory(Point(x0, y0), Point(v, v));
      Intersects(path, Lines(room)[0]) && OnLine(path, Point(x0 - y0, 0)) &&
      Intersects(path, Lines(room)[1]) && OnLine(path, Point(s, s - x0 + y0))
  {
    var s := room.Width;
    var path := Trajectory(Point(x0, y0), Point(v, v));
    assert path == Line(v, -v, v * x0 - v * y0);
    SquareRoomLines(room);
    assert v * s > 0 by { PositiveProduct(v, s); }
    assert v * (x0 - y0) == v * x0 - v * y0;
    assert v * s - v * (s - x0 + y0) == v * x0 - v * y0;
  }

  /** The first leg of a diagonal shot in a square room at the origin with
      side s: from (x0, y0) with 0 < y0 < x0 < s, moving by (v, v), the path
      meets the top line behind the ball and the right wall at
      (s, s - x0 + y0). */
  lemma DiagonalFirstLeg(room: Rect, x0: int, y0: int, v: int)
    requires room.X == 0 && room.Y == 0 && room.Width == room.Height
    requires 0 < y0 < x0 < room.Width && v > 0
    ensures SelectPoint(Lines(room), Point(x0, y0), Point(v, v), room) ==
      Some(Point(room.Width, room.Width - x0 + y0))
  {
    var s := room.Width;
    var ls := Lines(room);
    var current, velocity := Point(x0, y0), Point(v, v);
    DiagonalFirstPath(room, x0, y0, v);
    assert v * y0 > 0 by { PositiveProduct(v, y0); }
    assert v * (s - x0) > 0 by { PositiveProduct(v, s - x0); }
    assert !Qualifies(ls[0], current, velocity, room) by {
      MeetingBehind(ls[0], current, velocity, room, Point(x0 - y0, 0));
    }
    assert Qualifies(ls[1], current, velocity, room) &&
           Intersect(Trajectory(current, velocity), ls[1]) == Point(s, s - x0 + y0) by {
      MeetingAhead(ls[1], current, velocity, room, Point(s, s - x0 + y0));
    }
    assert ls[1..][0] == ls[1];
  }

  /** The path of the second leg, from (s, y1) moving by (-v, v): it meets
      the top line at (s + y1, 0) and the bottom line at (y1, s). */
  lemma DiagonalSecondPath(room: Rect, y1: int, v: int)
    requires room.X == 0 && room.Y == 0 && room.Width == room.Height
    requires 0 < y1 < room.Width && v > 0
    ensures var s := room.Width;
      var path := Trajectory(Point(s, y1), Point(-v, v));
      Intersects(path, Lines(room)[0]) && OnLine(path, Point(s + y1, 0)) &&
      Intersects(path, Lines(room)[1]) &&
      Intersects(path, Lines(room)[2]) && OnLine(path, Point(y1, s)) &&
      Dot(Point(-v, v), Sub(Point(y1, s), Point(s, y1))) > 0
  {
    var s := room.Width;
    var path := Trajectory(Point(s, y1), Point(-v, v));
    assert path == Line(v, v, v * s + v * y1);
    SquareRoomLines(room);
    assert v * s > 0 by { PositiveProduct(v, s); }
    assert v * (s + y1) == v * s + v * y1;
    assert v * (s - y1) > 0 by { PositiveProduct(v, s - y1); }
    assert (-v) * (y1 - s) == v * (s - y1);
  }

  /** The second leg: bounced off the right wall at (s, y1), the ball moves
      by (-v, v); the top line is met behind it, the right line where it
      stands, and the bottom line at (y1, s). */
  lemma DiagonalSecondLeg(room: Rect, y1: int, v: int)
    requires room.X == 0 && room.Y == 0 && room.Width == room.Height
    requires 0 < y1 < room.Width && v > 0
    ensures SelectPoint(Lines(room), Point(room.Width, y1), Point(-v, v), room) ==
      Some(Point(y1, room.Height))
  {
    var s := room.Width;
    var ls := Lines(room);
    var current, velocity := Point(s, y1), Point(-v, v);
    DiagonalSecondPath(room, y1, v);
    assert v * y1 > 0 by { PositiveProduct(v, y1); }
    assert !Qualifies(ls[0], current, velocity, room) by {
      MeetingBehind(ls[0], current, velocity, room, Point(s + y1, 0));
    }
    assert !Qualifies(ls[1], current, velocity, room) by {
      MeetingBehind(ls[1], current, velocity, room, current);
    }
    assert Qualifies(ls[2], current, velocity, room) &&
           Intersect(Trajectory(current, velocity), ls[2]) == Point(y1, s) by {
      MeetingAhead(ls[2], current, velocity, room, Point(y1, s));
    }
    assert ls[1..][0] == ls[1] && ls[1..][1..][0] == ls[2];
    assert SelectPoint(ls[1..][1..], current, velocity, room) == Some(Point(y1, s));
  }

  /** A diagonal shot in a square room at the origin with side s, defended
      along its bottom edge: from (x0, y0) moving by (v, v), with the ball
      nearer the right wall than the bottom one (s - x0 < s - y0), the ball
      is forecast to bounce once off the right wall, at (s, s - x0 + y0), and
      to cross the bottom edge at (s - x0 + y0, s). With s = 100, (x0, y0) =
      (90, 10) and v = 50 the bounce is at (100, 20) and the crossing at
      (20, 100). */
  lemma DiagonalShotForecast(room: Rect, x0: int, y0: int, v: int, fuel: nat)
    requires room.X == 0 && room.Y == 0 && room.Width == room.Height
    requires 0 < y0 < x0 < room.Width && v > 0
    requires fuel >= 2
    ensures Forecast(Lines(room), room, room.Height, Point(x0, y0), Point(v, v), fuel) ==
      Some(Point(room.Width - x0 + y0, room.Height))
  {
    var y1 := room.Width - x0 + y0;
    DiagonalFirstLeg(room, x0, y0, v);
    var bounced := Reflect(room, Point(room.Width, y1), Point(v, v));
    assert bounced == Point(-v, v);
    DiagonalSecondLeg(room, y1, v);
  }

  /** More selections never change a forecast that was found. */
  lemma {:induction false} ForecastFuelMonotone(roomLines: seq<Line>, room: Rect, defendingY: int,
                                                current: Point, velocity: Point, fuel: nat, more: nat)
    requires fuel <= more
    decreases fuel
    requires Forecast(roomLines, room, defendingY, current, velocity, fuel).Some?
    ensures Forecast(roomLines, room, defendingY, current, velocity, more) ==
      Forecast(roomLines, room, defendingY, current, velocity, fuel)
  {
    var sel := SelectPoint(roomLines, current, velocity, room);
    if sel.value.Y != defendingY {
      ForecastFuelMonotone(roomLines, room, defendingY, sel.value, Reflect(room, sel.value, velocity), fuel - 1, more - 1);
    }
  }

  // ---------------------------------------------------------------------------
  // The control step
  // ---------------------------------------------------------------------------

  /** The direction the paddle steps in: none inside the dead zone, otherwise
      towards the forecast point. */
  function Steer(difference: int): (direction: int)
    ensures -1 <= direction <= 1
    ensures direction == 0 <==> Abs(difference) < DeadZone
    ensures direction * difference >= 0
  {
    if Abs(difference) < DeadZone then 0
    else if difference > 0 then 1
    else -1
  }

  /** `(int)Math.Round(direction * speed * elapsed seconds)`, the elapsed time
      given in ticks. */
  function StepLength(direction: int, speed: int, elapsedTicks: nat): int {
    RoundHalfEven(direction * speed * elapsedTicks, TicksPerSecond)
  }

  lemma RoundHalfEvenNonNegative(n: int, d: int)
    requires n >= 0 && d > 0
    ensures RoundHalfEven(n, d) >= 0
  {
    var q := RoundHalfEven(n, d);
    if q < 0 {
      TooFarBelow(q, n, d);
    }
  }

  /** A negative quotient is more than half a step from a non-negative
      numerator. */
  lemma TooFarBelow(q: int, n: int, d: int)
    requires q < 0 && n >= 0 && d > 0
    ensures 2 * Abs(q * d - n) > Abs(d)
  {
    var m := (-q) * d;
    assert m >= d by { PositiveProduct(-q, d); }
    assert q * d == -m;
  }

  /** A step in one direction has the length of a step in the other, and a
      full step is never negative. */
  lemma StepLengthSymmetric(direction: int, speed: int, elapsedTicks: nat)
    requires -1 <= direction <= 1 && speed >= 0
    ensures StepLength(1, speed, elapsedTicks) >= 0
    ensures StepLength(direction, speed, elapsedTicks) == direction * StepLength(1, speed, elapsedTicks)
  {
    FullStepNonNegative(speed, elapsedTicks);
    if direction == -1 {
      BackwardStep(speed, elapsedTicks);
    } else if direction == 0 {
      NoStep(speed, elapsedTicks);
    }
  }

  lemma FullStepNonNegative(speed: int, elapsedTicks: nat)
    requires speed >= 0
    ensures StepLength(1, speed, elapsedTicks) >= 0
  {
    var n := speed * elapsedTicks;
    assert n >= 0 by {
      if speed > 0 && elapsedTicks > 0 {
        PositiveProduct(speed, elapsedTicks);
      }
    }
    assert 1 * speed * elapsedTicks == n;
    RoundHalfEvenNonNegative(n, TicksPerSecond);
  }

  lemma BackwardStep(speed: int, elapsedTicks: nat)
    ensures StepLength(-1, speed, elapsedTicks) == -StepLength(1, speed, elapsedTicks)
  {
    var n := speed * elapsedTicks;
    assert StepLength(-1, speed, elapsedTicks) == RoundHalfEven(-n, TicksPerSecond) by {
      assert -1 * speed * elapsedTicks == -n;
    }
    assert StepLength(1, speed, elapsedTicks) == RoundHalfEven(n, TicksPerSecond) by {
      assert 1 * speed * elapsedTicks == n;
    }
    RoundHalfEvenOdd(n, TicksPerSecond);
  }

  lemma NoStep(speed: int, elapsedTicks: nat)
    ensures StepLength(0, speed, elapsedTicks) == 0
  {
    assert 0 * speed * elapsedTicks == 0 * TicksPerSecond;
    RoundHalfEvenExact(0, TicksPerSecond);
  }

  /** The paddle steps towards the forecast point by the same distance in
      either direction, holds still inside the dead zone, and, when a step is
      no more than twice the distance to the point, never ends further away
      from it than it started. */
  lemma PaddleApproaches(difference: int, speed: int, elapsedTicks: nat)
    requires speed >= 0
    ensures var s := StepLength(Steer(difference), speed, elapsedTicks);
      var full := StepLength(1, speed, elapsedTicks);
      full >= 0 && s == Steer(difference) * full &&
      (Abs(difference) < DeadZone ==> s == 0) &&
      (full <= 2 * Abs(difference) ==> Abs(difference - s) <= Abs(difference))
  {
    StepLengthSymmetric(Steer(difference), speed, elapsedTicks);
  }

  // ---------------------------------------------------------------------------
  // The paddle
  // ---------------------------------------------------------------------------

  class AIPaddle {
    const body: Body
    var roomLines: seq<Line>
    const defendingY: int
    const speed: int
    var ball: Body?

    /** The room lines are those of the current room; the paddle is solid,
        its mask matches its size and its speed is not negative. */
    ghost predicate Valid()
      reads this, body
    {
      roomLines == Lines(body.roomBounds) && speed >= 0 && body.solid && body.mask.Valid()
    }

    /** `AIPaddle(content, position, roomBounds, defendingY, speed)`, with the
        texture's mask given. */
    constructor (position: Point, roomBounds: Rect, mask: Mask, defendingY: int, speed: int)
      requires defendingY == 0 || defendingY == roomBounds.Height
      requires speed >= 0 && mask.Valid()
      ensures Valid() && fresh(body) && ball == null
      ensures body.position == position && body.velocity == Zero
      ensures body.roomBounds == roomBounds && body.mask == mask
      ensures this.defendingY == defendingY && this.speed == speed
    {
      body := new Body(position, Zero, roomBounds, mask, true);
      roomLines := Lines(roomBounds);
      this.defendingY := defendingY;
      this.speed := speed;
      ball := null;
    }

    /** The `RoomBounds` setter: the room lines follow the room. */
    method SetRoomBounds(value: Rect)
      requires Valid()
      modifies body`roomBounds, this`roomLines
      ensures Valid() && body.roomBounds == value
    {
      body.roomBounds := value;
      roomLines := Lines(value);
    }

    /** The `Ball` setter: the ball must share the paddle's room. */
    method SetBall(value: Body)
      requires Valid() && value.roomBounds == body.roomBounds
      modifies this`ball
      ensures Valid() && ball == value
    {
      ball := value;
    }

    /** The forecast loop of `UpdatePosition`: from the ball's centre, select
        the next wall point until one lies on the defended line. */
    method PredictCrossing() returns (selected: Option<Point>)
      requires Valid() && ball != null
      ensures selected == Forecast(roomLines, body.roomBounds, defendingY,
                                   Add(ball.position, ball.mask.Bounds().Center()), ball.velocity, MaxSelections)
    {
      var room := body.roomBounds;
      var currentPosition := Add(ball.position, ball.mask.Bounds().Center());
      var velocityPoint := ball.velocity;
      var count := 1;
      ghost var goal := Forecast(roomLines, room, defendingY, currentPosition, velocityPoint, MaxSelections);
      while true
        invariant 1 <= count <= MaxSelections
        invariant Forecast(roomLines, room, defendingY, currentPosition, velocityPoint, MaxSelections - count + 1) == goal
        decreases MaxSelections - count
      {
        selected := SelectPoint(roomLines, currentPosition, velocityPoint, room);
        if selected.None? || selected.value.Y == defendingY {
          return;
        }
        if count >= MaxSelections {
          return None;
        }
        currentPosition := selected.value;
        velocityPoint := Reflect(room, currentPosition, velocityPoint);
        count := count + 1;
      }
    }

    /** `AIPaddle.UpdatePosition`: step towards the forecast crossing. When no
        forecast is found (where the source throws) nothing changes and the
        result is false. */
    method UpdatePosition(elapsedTicks: nat) returns (ok: bool)
      requires Valid() && ball != null
      modifies body`position, body`velocity
      ensures Valid()
      ensures var f := old(Forecast(roomLines, body.roomBounds, defendingY,
                                    Add(ball.position, ball.mask.Bounds().Center()), ball.velocity, MaxSelections));
        ok == f.Some? &&
        (!ok ==> body.position == old(body.position) && body.velocity == old(body.velocity)) &&
        (ok ==> body.velocity ==
                  Point(StepLength(Steer(f.value.X - (old(body.position).X + body.mask.Bounds().Center().X)),
                                   speed, elapsedTicks), 0) &&
                body.position == Add(old(body.position), body.velocity))
    {
      var selectedPoint := PredictCrossing();
      if selectedPoint.None? {
        return false;
      }
      var positionDifference := selectedPoint.value.X - (body.position.X + body.mask.Bounds().Center().X);
      var direction;
      if Abs(positionDifference) < DeadZone {
        direction := 0;
      } else if positionDifference > 0 {
        direction := 1;
      } else {
        direction := -1;
      }
      body.velocity := Point(StepLength(direction, speed, elapsedTicks), 0);
      body.position := Add(body.position, body.velocity);
      return true;
    }
  }
}
