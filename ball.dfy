/** The ball: how it answers collisions with the paddles and with the walls
    of the room. Each paddle it hits sends it back along the negation of the
    table direction nearest to the line between the two centres; a wall it
    reaches flips the component of its velocity across the nearest wall. */
module BallBody {
  import opened Xna
  import opened GameMath
  import opened GameObject

  /** A bounce table as the ball builds it: not empty, and no direction is
      horizontal, so a bounce never leaves the ball moving sideways only. */
  predicate BounceTable(table: seq<Point>) {
    |table| > 0 && forall i :: 0 <= i < |table| ==> table[i].Y != 0
  }

  function Negate(p: Point): (r: Point)
    ensures r.X == -p.X && r.Y == -p.Y
  {
    Mul(p, Point(-1, -1))
  }

  /** `Vector2.LengthSquared`, exact on integers. */
  function LengthSquared(p: Point): (n: int)
    ensures n >= 0
    ensures n == 0 <==> p == Zero
  {
    ProductZero(p.X, p.X);
    ProductZero(p.Y, p.Y);
    p.X * p.X + p.Y * p.Y
  }

  /** The squared distance from `direction` to each entry of the table. */
  function Distances(table: seq<Point>, direction: Point): seq<int> {
    seq(|table|, i requires 0 <= i < |table| => LengthSquared(Sub(direction, table[i])))
  }

  /** The velocity the ball takes after hitting a body that lies in
      `direction` from it. */
  function BounceFor(table: seq<Point>, direction: Point): Point
    requires |table| > 0
  {
    Negate(table[ArgMin(Distances(table, direction))])
  }

  /** The bounce reverses the table entry nearest to the collision direction,
      the first of them on a tie. */
  lemma BounceIsNearest(table: seq<Point>, direction: Point)
    requires |table| > 0
    ensures exists k :: (0 <= k < |table| && Negate(BounceFor(table, direction)) == table[k] &&
      (forall j :: 0 <= j < |table| ==>
        LengthSquared(Sub(direction, table[k])) <= LengthSquared(Sub(direction, table[j]))) &&
      (forall j :: 0 <= j < k ==>
        LengthSquared(Sub(direction, table[k])) < LengthSquared(Sub(direction, table[j]))))
  {
    var d := Distances(table, direction);
    var k := ArgMin(d);
    assert forall j :: 0 <= j < |table| ==> d[j] == LengthSquared(Sub(direction, table[j]));
    assert Negate(BounceFor(table, direction)) == table[k];
  }

  /** Where the ball is and how it moves. */
  datatype Motion = Motion(position: Point, velocity: Point)

  /** The centre of a sprite: its position plus its texture's centre. */
  function CenterOf(position: Point, mask: Mask): Point {
    Add(position, mask.Bounds().Center())
  }

  /** One turn of the loop over the collidable bodies: service the pair
      collision and, when one is reported, bounce away from the other body. */
  function PeerStep(m: Motion, mask: Mask, table: seq<Point>, other: Sprite): Motion
    requires |table| > 0
  {
    var o := PairOutcome(Sprite(m.position, mask, true), other);
    if o.collided then
      var direction := Sub(CenterOf(other.position, other.mask), CenterOf(o.position, mask));
      Motion(o.position, BounceFor(table, direction))
    else
      Motion(o.position, m.velocity)
  }

  /** The whole loop over the collidable bodies, in order. */
  function PeerPass(m: Motion, mask: Mask, table: seq<Point>, others: seq<Sprite>): Motion
    requires |table| > 0
  {
    if |others| == 0 then m
    else PeerStep(PeerPass(m, mask, table, others[..|others| - 1]), mask, table, others[|others| - 1])
  }

  /** The distances from the ball's box to the left, right, top and bottom
      walls, measured from the room's origin. */
  function WallDistances(position: Point, mask: Mask, room: Rect): seq<int> {
    [position.X, room.Width - (position.X + mask.Bounds().Right()),
     position.Y, room.Height - (position.Y + mask.Bounds().Bottom())]
  }

  /** The velocity after a wall collision: the nearest wall (the first on a
      tie) decides whether X or Y is reversed. */
  function WallFlip(velocity: Point, distances: seq<int>): Point
    requires |distances| == 4
  {
    var index := ArgMin(distances);
    if index == 0 || index == 1 then Mul(velocity, Point(-1, 1))
    else Mul(velocity, Point(1, -1))
  }

  /** The wall part: service the wall collision and, when one is reported,
      flip the velocity across the nearest wall. */
  function WallStep(m: Motion, mask: Mask, room: Rect): Motion {
    var w := WallOutcome(m.position, mask, room);
    if w.collided then Motion(w.position, WallFlip(m.velocity, WallDistances(w.position, mask, room)))
    else Motion(w.position, m.velocity)
  }

  /** What `Ball.ServiceCollisions` does to the ball's position and velocity. */
  function BallOutcome(m: Motion, mask: Mask, table: seq<Point>, others: seq<Sprite>, room: Rect): Motion
    requires |table| > 0
  {
    WallStep(PeerPass(m, mask, table, others), mask, room)
  }

  /** The snapshots of a list of bodies, in order. */
  function Snapshots(bodies: seq<Body>): (ss: seq<Sprite>)
    reads bodies
    ensures |ss| == |bodies|
    ensures forall i :: 0 <= i < |bodies| ==> ss[i] == bodies[i].Snapshot()
  {
    if |bodies| == 0 then []
    else Snapshots(bodies[..|bodies| - 1]) + [bodies[|bodies| - 1].Snapshot()]
  }

  // ---------------------------------------------------------------------------
  // What the bounces keep
  // ---------------------------------------------------------------------------

  /** After the loop over the collidable bodies the velocity is the one the
      ball came in with, or the reverse of an entry of the bounce table. */
  lemma {:induction false} PeerPassVelocity(m: Motion, mask: Mask, table: seq<Point>, others: seq<Sprite>)
    requires |table| > 0
    ensures var v := PeerPass(m, mask, table, others).velocity;
      v == m.velocity || exists k :: 0 <= k < |table| && v == Negate(table[k])
  {
    if |others| > 0 {
      var before := PeerPass(m, mask, table, others[..|others| - 1]);
      PeerPassVelocity(m, mask, table, others[..|others| - 1]);
      var after := PeerStep(before, mask, table, others[|others| - 1]);
      if after.velocity != before.velocity {
        var o := PairOutcome(Sprite(before.position, mask, true), others[|others| - 1]);
        var direction := Sub(CenterOf(others[|others| - 1].position, others[|others| - 1].mask), CenterOf(o.position, mask));
        var k := ArgMin(Distances(table, direction));
        assert after.velocity == Negate(table[k]);
      }
    }
  }

  /** When no collidable body is hit, the loop changes nothing. */
  lemma {:induction false} PeerPassQuiet(m: Motion, mask: Mask, table: seq<Point>, others: seq<Sprite>)
    requires |table| > 0
    requires forall k :: 0 <= k < |others| ==> !PairOutcome(Sprite(m.position, mask, true), others[k]).collided
    ensures PeerPass(m, mask, table, others) == m
  {
    if |others| > 0 {
      PeerPassQuiet(m, mask, table, others[..|others| - 1]);
      PairOutcomeMovesOneAxis(Sprite(m.position, mask, true), others[|others| - 1]);
    }
  }

  /** The last colliding body decides the velocity: once the ball stands at
      the same place, a collision with the next body sets the same velocity
      whatever the earlier bodies did to it. */
  lemma {:induction false} LastCollisionWins(m1: Motion, m2: Motion, mask: Mask, table: seq<Point>,
                                             others: seq<Sprite>, other: Sprite)
    requires |table| > 0
    requires PeerPass(m1, mask, table, others).position == PeerPass(m2, mask, table, others).position
    requires PairOutcome(Sprite(PeerPass(m1, mask, table, others).position, mask, true), other).collided
    ensures PeerPass(m1, mask, table, others + [other]) == PeerPass(m2, mask, table, others + [other])
  {
    assert (others + [other])[..|others|] == others;
    assert (others + [other])[|others|] == other;
  }

  /** A wall collision reverses X when the left or right wall is nearest
      (ties going to X), and Y otherwise; either way the speed is kept. */
  lemma WallFlipAxis(velocity: Point, distances: seq<int>)
    requires |distances| == 4
    ensures var v := WallFlip(velocity, distances);
      (MinInt(distances[0], distances[1]) <= MinInt(distances[2], distances[3]) ==> v == Point(-velocity.X, velocity.Y)) &&
      (MinInt(distances[0], distances[1]) > MinInt(distances[2], distances[3]) ==> v == Point(velocity.X, -velocity.Y)) &&
      LengthSquared(v) == LengthSquared(velocity)
  {
    var index := ArgMin(distances);
    FlipKeepsLength(velocity);
    if MinInt(distances[0], distances[1]) <= MinInt(distances[2], distances[3]) {
      assert index == 0 || index == 1;
    } else {
      assert index == 2 || index == 3;
    }
  }

  lemma FlipKeepsLength(p: Point)
    ensures LengthSquared(Point(-p.X, p.Y)) == LengthSquared(p)
    ensures LengthSquared(Point(p.X, -p.Y)) == LengthSquared(p)
  {
    assert (-p.X) * (-p.X) == p.X * p.X;
    assert (-p.Y) * (-p.Y) == p.Y * p.Y;
  }

  /** The point of the bounce table's filter: a ball that moves vertically
      keeps moving vertically through every bounce, off bodies or walls. */
  lemma BallKeepsVerticalMotion(m: Motion, mask: Mask, table: seq<Point>, others: seq<Sprite>, room: Rect)
    requires BounceTable(table) && m.velocity.Y != 0
    ensures BallOutcome(m, mask, table, others, room).velocity.Y != 0
  {
    PeerPassVelocity(m, mask, table, others);
  }

  /** The walls only reverse a component of the velocity. */
  lemma WallStepKeepsSpeed(m: Motion, mask: Mask, room: Rect)
    ensures var v := WallStep(m, mask, room).velocity;
      LengthSquared(v) == LengthSquared(m.velocity) && Abs(v.X) == Abs(m.velocity.X) && Abs(v.Y) == Abs(m.velocity.Y)
  {
    var w := WallOutcome(m.position, mask, room);
    var v := WallStep(m, mask, room).velocity;
    if w.collided {
      var distances := WallDistances(w.position, mask, room);
      assert v == WallFlip(m.velocity, distances);
      WallFlipAxis(m.velocity, distances);
    } else {
      assert v == m.velocity;
    }
  }

  lemma NegateKeepsLength(p: Point)
    ensures LengthSquared(Negate(p)) == LengthSquared(p)
  {
    assert (-p.X) * (-p.X) == p.X * p.X;
    assert (-p.Y) * (-p.Y) == p.Y * p.Y;
  }

  /** After servicing, the ball moves at its old speed or at the speed of a
      table entry: bounces choose a direction, they never change the speed. */
  lemma BallKeepsSpeed(m: Motion, mask: Mask, table: seq<Point>, others: seq<Sprite>, room: Rect)
    requires |table| > 0
    ensures var n := LengthSquared(BallOutcome(m, mask, table, others, room).velocity);
      n == LengthSquared(m.velocity) || exists k :: 0 <= k < |table| && n == LengthSquared(table[k])
  {
    var afterPeers := PeerPass(m, mask, table, others);
    PeerPassVelocity(m, mask, table, others);
    WallStepKeepsSpeed(afterPeers, mask, room);
    if afterPeers.velocity != m.velocity {
      var k :| 0 <= k < |table| && afterPeers.velocity == Negate(table[k]);
      NegateKeepsLength(table[k]);
    }
  }

  /** A ball wholly inside the room is left alone by the walls. */
  lemma WallStepQuiet(m: Motion, mask: Mask, room: Rect)
    requires mask.width > 0 && mask.height > 0
    requires Rect(m.position.X, m.position.Y, mask.width, mask.height).Within(room)
    ensures WallStep(m, mask, room) == m
  {
    var box := Rect(m.position.X, m.position.Y, mask.width, mask.height);
    assert box.Intersects(room);
    assert Rect.Intersect(box, room) == box;
  }

  /** The distances the ball measures after a wall collision are never
      negative when the room sits at the origin, the ball fits in it and still
      overlaps it: the correction has put the ball back inside. Outside these
      conditions the distances can be negative. */
  lemma WallDistancesNonNegative(position: Point, mask: Mask, room: Rect)
    requires room.X == 0 && room.Y == 0 && room.Sized()
    requires mask.width <= room.Width && mask.height <= room.Height
    requires Rect(position.X, position.Y, mask.width, mask.height).Intersects(room)
    ensures var ds := WallDistances(WallOutcome(position, mask, room).position, mask, room);
      ds[0] >= 0 && ds[1] >= 0 && ds[2] >= 0 && ds[3] >= 0
  {
    WallCorrectionContains(position, mask, room);
  }

  class Ball {
    const body: Body
    const bounceDirections: seq<Point>
    var collidableGameObjects: seq<Body>

    /** The ball is solid, its mask matches its size and its bounce table has
        no horizontal entry. */
    ghost predicate Valid()
      reads this, body
    {
      body.solid && body.mask.Valid() && BounceTable(bounceDirections)
    }

    /** `Ball(content, position, roomBounds, speed)`, with the texture's mask,
        the random launch velocity and the bounce table given. The launch
        angle is drawn strictly between 60 and 120 degrees and the speed is
        positive, so the launch velocity points down (Y > 0); with
        `BallKeepsVerticalMotion` the ball then never moves horizontally only. */
    constructor (position: Point, roomBounds: Rect, mask: Mask, velocity: Point, bounceDirections: seq<Point>)
      requires BounceTable(bounceDirections) && velocity.Y > 0 && mask.Valid()
      ensures Valid() && fresh(body)
      ensures body.position == position && body.velocity == velocity
      ensures body.roomBounds == roomBounds && body.mask == mask
      ensures this.bounceDirections == bounceDirections && collidableGameObjects == []
    {
      body := new Body(position, velocity, roomBounds, mask, true);
      this.bounceDirections := bounceDirections;
      collidableGameObjects := [];
    }

    /** `Ball.ServiceCollisions`: bounce off every collidable body in turn,
        then off the walls. */
    method ServiceCollisions()
      requires Valid()
      requires body !in collidableGameObjects
      modifies body`position, body`velocity
      ensures Valid()
      ensures Motion(body.position, body.velocity) ==
        BallOutcome(old(Motion(body.position, body.velocity)), body.mask, bounceDirections,
                    old(Snapshots(collidableGameObjects)), body.roomBounds)
    {
      ghost var start := Motion(body.position, body.velocity);
      ghost var others := Snapshots(collidableGameObjects);
      ServicePeers();
      ghost var afterPeers := Motion(body.position, body.velocity);
      assert afterPeers == PeerPass(start, body.mask, bounceDirections, others);
      ServiceWalls();
    }

    /** The loop of `Ball.ServiceCollisions` over the collidable bodies. */
    method ServicePeers()
      requires Valid()
      requires body !in collidableGameObjects
      modifies body`position, body`velocity
      ensures Valid()
      ensures Snapshots(collidableGameObjects) == old(Snapshots(collidableGameObjects))
      ensures Motion(body.position, body.velocity) ==
        PeerPass(old(Motion(body.position, body.velocity)), body.mask, bounceDirections,
                 Snapshots(collidableGameObjects))
    {
      ghost var start := Motion(body.position, body.velocity);
      ghost var others := Snapshots(collidableGameObjects);
      for i := 0 to |collidableGameObjects|
        invariant Valid()
        invariant Snapshots(collidableGameObjects) == others
        invariant Motion(body.position, body.velocity) ==
          PeerPass(start, body.mask, bounceDirections, others[..i])
      {
        ServicePeer(collidableGameObjects[i]);
        assert others[..i + 1][..i] == others[..i];
      }
      assert others[..|collidableGameObjects|] == others;
    }

    /** One turn of the loop over the collidable bodies. */
    method ServicePeer(other: Body)
      requires Valid() && other != body
      modifies body`position, body`velocity
      ensures Valid()
      ensures Motion(body.position, body.velocity) ==
        PeerStep(old(Motion(body.position, body.velocity)), body.mask, bounceDirections, other.Snapshot())
    {
      var collided := ServiceCollision(body, other);
      if collided {
        var currentCenter := Add(body.position, body.mask.Bounds().Center());
        var otherCenter := Add(other.position, other.mask.Bounds().Center());
        var collisionDirection := Sub(otherCenter, currentCenter);
        var bounceDistances := Distances(bounceDirections, collisionDirection);
        var minimumDistance, minimumIndex := MinIndex(bounceDistances);
        FirstMinUnique(bounceDistances, minimumIndex, ArgMin(bounceDistances));
        body.velocity := Mul(bounceDirections[minimumIndex], Point(-1, -1));
      }
    }

    /** The wall part of `Ball.ServiceCollisions`. */
    method ServiceWalls()
      requires Valid()
      modifies body`position, body`velocity
      ensures Valid()
      ensures Motion(body.position, body.velocity) ==
        WallStep(old(Motion(body.position, body.velocity)), body.mask, body.roomBounds)
    {
      ghost var start := Motion(body.position, body.velocity);
      var wallCollided := ServiceWallCollision(body);
      if wallCollided {
        var leftDistance := body.position.X;
        var rightDistance := body.roomBounds.Width - (body.position.X + body.mask.Bounds().Right());
        var topDistance := body.position.Y;
        var bottomDistance := body.roomBounds.Height - (body.position.Y + body.mask.Bounds().Bottom());
        var distances := [leftDistance, rightDistance, topDistance, bottomDistance];
        assert distances == WallDistances(body.position, body.mask, body.roomBounds);
        var min, index := MinIndex(distances);
        FirstMinUnique(distances, index, ArgMin(distances));
        if index == 0 || index == 1 {
          body.velocity := Mul(body.velocity, Point(-1, 1));
        } else {
          body.velocity := Mul(body.velocity, Point(1, -1));
        }
      }
    }
  }
}
