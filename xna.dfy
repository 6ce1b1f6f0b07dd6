/** The two MonoGame value types the game works with: an integer point and an
    axis-aligned integer rectangle. Only the members the core uses are given,
    with MonoGame's semantics (a rectangle spans [X, X+Width) x [Y, Y+Height)). */
module Xna {

  /** An integer point, also used as a 2-D integer vector. */
  datatype Point = Point(X: int, Y: int)

  const Zero := Point(0, 0)

  function Add(a: Point, b: Point): Point { Point(a.X + b.X, a.Y + b.Y) }

  function Sub(a: Point, b: Point): Point { Point(a.X - b.X, a.Y - b.Y) }

  /** Component-wise product, MonoGame's `Point * Point`. */
  function Mul(a: Point, b: Point): Point { Point(a.X * b.X, a.Y * b.Y) }

  function Abs(x: int): (r: int)
    ensures r >= 0 && (r == x || r == -x)
  {
    if x < 0 then -x else x
  }

  /** An axis-aligned rectangle. */
  datatype Rect = Rect(X: int, Y: int, Width: int, Height: int) {
    /** Width and height are not negative, as for every rectangle built from a
        texture or a room. */
    predicate Sized() { Width >= 0 && Height >= 0 }

    function Left(): int { X }
    function Right(): int { X + Width }
    function Top(): int { Y }
    function Bottom(): int { Y + Height }

    /** MonoGame's `Rectangle.Center`; widths here are never negative, so
        C#'s truncating division agrees with Dafny's. */
    function Center(): Point
      requires Sized()
    {
      Point(X + Width / 2, Y + Height / 2)
    }

    /** MonoGame's `Rectangle.Intersects`: a strict overlap test, so rectangles
        that only touch along an edge do not intersect. */
    predicate Intersects(other: Rect) {
      other.Left() < Right() && Left() < other.Right() &&
      other.Top() < Bottom() && Top() < other.Bottom()
    }

    /** Every point of this rectangle lies in `outer`. */
    predicate Within(outer: Rect) {
      outer.Left() <= Left() && Right() <= outer.Right() &&
      outer.Top() <= Top() && Bottom() <= outer.Bottom()
    }

    /** MonoGame's `Rectangle.Intersect`: the overlap of two rectangles, or the
        empty rectangle (0,0,0,0) when they do not intersect. */
    static function Intersect(a: Rect, b: Rect): (r: Rect)
      ensures !a.Intersects(b) ==> r == Rect(0, 0, 0, 0)
      ensures a.Intersects(b) && a.Sized() && b.Sized() ==>
        r.Sized() && r.Within(a) && r.Within(b)
      ensures a.Intersects(b) ==>
        r.Left() == MaxInt(a.Left(), b.Left()) && r.Right() == MinInt(a.Right(), b.Right()) &&
        r.Top() == MaxInt(a.Top(), b.Top()) && r.Bottom() == MinInt(a.Bottom(), b.Bottom())
    {
      if a.Intersects(b) then
        var left := MaxInt(a.X, b.X);
        var top := MaxInt(a.Y, b.Y);
        Rect(left, top, MinInt(a.Right(), b.Right()) - left, MinInt(a.Bottom(), b.Bottom()) - top)
      else
        Rect(0, 0, 0, 0)
    }
  }

  function MinInt(a: int, b: int): int { if a <= b then a else b }
  function MaxInt(a: int, b: int): int { if a >= b then a else b }

}
