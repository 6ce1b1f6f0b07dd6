/** Integer geometry and extremum helpers of the game (GameMath.cs): the
    standard-form line Ax + By = C with Cramer's-rule intersection, the four
    edge lines of a rectangle, first-index minimum and maximum, and the 2-D
    cross and dot products. */
module GameMath {
  import opened Xna

  // ---------------------------------------------------------------------------
  // Standard-form lines
  // ---------------------------------------------------------------------------

  /** A line in standard form: the points (x, y) with A*x + B*y == C. */
  datatype Line = Line(A: int, B: int, C: int)

  predicate OnLine(l: Line, p: Point) {
    l.A * p.X + l.B * p.Y == l.C
  }

  /** The constructor `Line(Point p0, Point p1)`: the line through two points. */
  function LineThrough(p0: Point, p1: Point): (l: Line)
    ensures OnLine(l, p0) && OnLine(l, p1)
    ensures p0 != p1 ==> l.A != 0 || l.B != 0
  {
    var a := p1.Y - p0.Y;
    var b := p0.X - p1.X;
    Line(a, b, a * p0.X + b * p0.Y)
  }

  /** The constructor `Line(int x0, int y0, int x1, int y1)`. Its sign
      convention differs from `LineThrough`'s (A = y0 - y1, B = x0 - x1), and
      with it the line holds the second point only when the two points share
      a coordinate, which is how `Lines` uses it. */
  function LineFromCoords(x0: int, y0: int, x1: int, y1: int): (l: Line)
    ensures OnLine(l, Point(x0, y0))
    ensures OnLine(l, Point(x1, y1)) <==> x0 == x1 || y0 == y1
  {
    var a := y0 - y1;
    var b := x0 - x1;
    var l := Line(a, b, a * x0 + b * y0);
    assert l.C - (l.A * x1 + l.B * y1) == 2 * ((x0 - x1) * (y0 - y1));
    ProductZero(x0 - x1, y0 - y1);
    l
  }

  /** Off the axes the constructor misses its second point: for (x0, y0) and
      (x0 + d, y0 + d) with d != 0 it builds a line that does not hold the
      second point, while the line through both points does. With (0, 0)
      and (1, 1) it builds -x - y == 0 in place of x - y == 0. */
  lemma LineFromCoordsMissesDiagonal(x0: int, y0: int, d: int)
    requires d != 0
    ensures LineFromCoords(x0, y0, x0 + d, y0 + d) == Line(-d, -d, -d * x0 - d * y0)
    ensures !OnLine(LineFromCoords(x0, y0, x0 + d, y0 + d), Point(x0 + d, y0 + d))
    ensures OnLine(LineThrough(Point(x0, y0), Point(x0 + d, y0 + d)), Point(x0 + d, y0 + d))
  {
  }

  /** On two points that share a coordinate, the constructor builds the line
      through both points, up to the sign of its coefficients. */
  lemma LineFromCoordsOnAxes(x0: int, y0: int, x1: int, y1: int)
    requires x0 == x1 || y0 == y1
    ensures var l, m := LineFromCoords(x0, y0, x1, y1), LineThrough(Point(x0, y0), Point(x1, y1));
      (l == m || l == Line(-m.A, -m.B, -m.C)) && forall p :: OnLine(l, p) <==> OnLine(m, p)
  {
    var l, m := LineFromCoords(x0, y0, x1, y1), LineThrough(Point(x0, y0), Point(x1, y1));
    if y0 == y1 {
      assert l == m;
    } else {
      assert l == Line(-m.A, -m.B, -m.C);
      forall p ensures OnLine(l, p) <==> OnLine(m, p) {
        assert l.A * p.X + l.B * p.Y == -(m.A * p.X + m.B * p.Y);
      }
    }
  }

  lemma {:induction false} PositiveProduct(a: int, b: int)
    requires a > 0 && b > 0
    ensures a * b >= b
  {
    if a > 1 {
      PositiveProduct(a - 1, b);
      assert a * b == (a - 1) * b + b;
    }
  }

  lemma ProductZero(a: int, b: int)
    ensures a * b == 0 <==> a == 0 || b == 0
  {
    if a != 0 && b != 0 {
      PositiveProduct(Abs(a), Abs(b));
      AbsProduct(a, b);
    }
  }

  /** Swapping the two points negates every coefficient, so both orders give
      the same set of points. */
  lemma LineThroughSymmetric(p0: Point, p1: Point)
    ensures var l, m := LineThrough(p0, p1), LineThrough(p1, p0);
      m == Line(-l.A, -l.B, -l.C) && forall p :: OnLine(l, p) <==> OnLine(m, p)
  {
    var l, m := LineThrough(p0, p1), LineThrough(p1, p0);
    assert m.C == -l.C by {
      calc {
        m.C;
        (p0.Y - p1.Y) * p1.X + (p1.X - p0.X) * p1.Y;
        p0.Y * p1.X - p0.X * p1.Y;
        -((p1.Y - p0.Y) * p0.X + (p0.X - p1.X) * p0.Y);
      }
    }
    forall p ensures OnLine(l, p) <==> OnLine(m, p) {
      assert m.A * p.X + m.B * p.Y == -(l.A * p.X + l.B * p.Y);
    }
  }

  /** The line through two distinct points holds exactly the points collinear
      with them, those whose offset from p0 has zero cross product with p1 - p0. */
  lemma LineThroughCollinear(p0: Point, p1: Point, p: Point)
    ensures OnLine(LineThrough(p0, p1), p) <==> Cross(Sub(p1, p0), Sub(p, p0)) == 0
  {
    var l := LineThrough(p0, p1);
    var d, q := Sub(p1, p0), Sub(p, p0);
    calc {
      l.A * p.X + l.B * p.Y - l.C;
      d.Y * p.X - d.X * p.Y - (d.Y * p0.X - d.X * p0.Y);
      d.Y * q.X - d.X * q.Y;
      -Cross(d, q);
    }
  }

  function Determinant(current: Line, other: Line): int {
    current.A * other.B - other.A * current.B
  }

  /** The lines meet in exactly one point: they are not parallel. */
  predicate Intersects(current: Line, other: Line) {
    Determinant(current, other) != 0
  }

  lemma DeterminantAntisymmetric(a: Line, b: Line)
    ensures Determinant(a, b) == -Determinant(b, a)
    ensures Intersects(a, b) <==> Intersects(b, a)
  {
  }

  /** A line is never `Intersects` with itself or with any multiple of itself. */
  lemma ParallelNeverIntersects(l: Line, k: int)
    ensures !Intersects(l, Line(k * l.A, k * l.B, k * l.C))
  {
    assert l.A * (k * l.B) == (k * l.A) * l.B;
  }

  /** The numerators of Cramer's rule: the exact intersection of two
      non-parallel lines is (CramerX / det, CramerY / det). */
  function CramerX(current: Line, other: Line): int {
    other.B * current.C - current.B * other.C
  }

  function CramerY(current: Line, other: Line): int {
    current.A * other.C - other.A * current.C
  }

  /** Cramer's rule solves both equations: scaled by the determinant, the
      exact point satisfies both lines. */
  lemma CramerSolvesBoth(a: Line, b: Line)
    ensures a.A * CramerX(a, b) + a.B * CramerY(a, b) == a.C * Determinant(a, b)
    ensures b.A * CramerX(a, b) + b.B * CramerY(a, b) == b.C * Determinant(a, b)
  {
    calc {
      a.A * CramerX(a, b) + a.B * CramerY(a, b);
      a.A * (b.B * a.C - a.B * b.C) + a.B * (a.A * b.C - b.A * a.C);
      a.A * b.B * a.C - a.A * a.B * b.C + a.B * a.A * b.C - a.B * b.A * a.C;
      a.C * (a.A * b.B - b.A * a.B);
    }
    calc {
      b.A * CramerX(a, b) + b.B * CramerY(a, b);
      b.A * (b.B * a.C - a.B * b.C) + b.B * (a.A * b.C - b.A * a.C);
      b.A * b.B * a.C - b.A * a.B * b.C + b.B * a.A * b.C - b.B * b.A * a.C;
      b.C * (a.A * b.B - b.A * a.B);
    }
  }

  /** `(int)Math.Round(n / d)` on exact rationals: the nearest integer to
      n / d, ties going to the even neighbour (.NET's default rounding). */
  function RoundHalfEven(n: int, d: int): (q: int)
    requires d != 0
    ensures 2 * Abs(q * d - n) <= Abs(d)
    ensures 2 * Abs(q * d - n) == Abs(d) ==> q % 2 == 0
  {
    var m, e := if d < 0 then -n else n, Abs(d);
    var f, r := m / e, m % e;
    var q := if 2 * r < e || (2 * r == e && f % 2 == 0) then f else f + 1;
    NearestQuotient(n, d, f, r, q);
    q
  }

  /** The rounding step of `RoundHalfEven`: from the Euclidean quotient f and
      remainder r of n / d (signs moved onto n), rounding up past the half
      and to the even neighbour on the half gives the nearest integer. */
  lemma NearestQuotient(n: int, d: int, f: int, r: int, q: int)
    requires d != 0
    requires (if d < 0 then -n else n) == f * Abs(d) + r && 0 <= r < Abs(d)
    requires q == if 2 * r < Abs(d) || (2 * r == Abs(d) && f % 2 == 0) then f else f + 1
    ensures 2 * Abs(q * d - n) <= Abs(d)
    ensures 2 * Abs(q * d - n) == Abs(d) ==> q % 2 == 0
  {
    var m, e := if d < 0 then -n else n, Abs(d);
    assert q * d - n == (if d < 0 then -(q * e - m) else q * e - m);
    if q == f {
      assert q * e - m == -r;
    } else {
      assert q * e - m == e - r;
    }
  }

  lemma AbsProduct(a: int, b: int)
    ensures Abs(a * b) == Abs(a) * Abs(b)
  {
    if a < 0 && b < 0 { assert a * b == (-a) * (-b); }
    else if a < 0 { assert a * b == -((-a) * b); }
    else if b < 0 { assert a * b == -(a * (-b)); }
  }

  /** The two properties in RoundHalfEven's contract pin its result down:
      no other integer has them. */
  lemma RoundHalfEvenUnique(n: int, d: int, q: int)
    requires d != 0
    requires 2 * Abs(q * d - n) <= Abs(d)
    requires 2 * Abs(q * d - n) == Abs(d) ==> q % 2 == 0
    ensures q == RoundHalfEven(n, d)
  {
    NearestEvenAgree(n, d, q, RoundHalfEven(n, d));
  }

  /** Two integers that are both a nearest, tie-to-even rounding of n / d
      are equal. */
  lemma NearestEvenAgree(n: int, d: int, q: int, p: int)
    requires d != 0
    requires 2 * Abs(q * d - n) <= Abs(d) && (2 * Abs(q * d - n) == Abs(d) ==> q % 2 == 0)
    requires 2 * Abs(p * d - n) <= Abs(d) && (2 * Abs(p * d - n) == Abs(d) ==> p % 2 == 0)
    ensures q == p
  {
    var u, w, k, e := q * d - n, p * d - n, q - p, Abs(d);
    assert k * d == u - w by {
      assert (q - p) * d == q * d - p * d;
    }
    AbsProduct(k, d);
    assert Abs(k * d) <= e;
    // |k| * |d| = |u - w| <= |u| + |w| <= |d|, so |k| <= 1
    AtMostOneApart(k, e);
    // and |k| == 1 would make both errors half of |d|, so q and p both even
  }

  lemma AtMostOneApart(k: int, e: int)
    requires e > 0 && Abs(k) * e <= e
    ensures Abs(k) <= 1
  {
    if Abs(k) >= 2 {
      PositiveProduct(Abs(k) - 1, e);
    }
  }

  /** An exact quotient is returned unrounded. */
  lemma RoundHalfEvenExact(q: int, d: int)
    requires d != 0
    ensures RoundHalfEven(q * d, d) == q
  {
    RoundHalfEvenUnique(q * d, d, q);
  }

  /** Negating numerator and denominator together does not change the result. */
  lemma RoundHalfEvenNegate(n: int, d: int)
    requires d != 0
    ensures RoundHalfEven(-n, -d) == RoundHalfEven(n, d)
  {
    var q := RoundHalfEven(n, d);
    assert q * (-d) - (-n) == -(q * d - n);
    RoundHalfEvenUnique(-n, -d, q);
  }

  /** Rounding is symmetric about zero: negating the numerator negates the
      result. */
  lemma RoundHalfEvenOdd(n: int, d: int)
    requires d != 0
    ensures RoundHalfEven(-n, d) == -RoundHalfEven(n, d)
  {
    var q := RoundHalfEven(n, d);
    assert (-q) * d - (-n) == -(q * d - n);
    if q % 2 == 0 {
      assert -q == 2 * (-(q / 2));
    }
    RoundHalfEvenUnique(-n, d, -q);
  }

  /** `Line.Intersect`: Cramer's rule with each coordinate rounded to the
      nearest integer. The caller must rule out parallel lines. */
  function Intersect(current: Line, other: Line): (p: Point)
    requires Intersects(current, other)
    ensures var det := Determinant(current, other);
      2 * Abs(p.X * det - CramerX(current, other)) <= Abs(det) &&
      2 * Abs(p.Y * det - CramerY(current, other)) <= Abs(det)
  {
    var det := Determinant(current, other);
    Point(RoundHalfEven(CramerX(current, other), det),
          RoundHalfEven(CramerY(current, other), det))
  }

  lemma IntersectSymmetric(a: Line, b: Line)
    requires Intersects(a, b)
    ensures Intersects(b, a) && Intersect(a, b) == Intersect(b, a)
  {
    assert Determinant(b, a) == -Determinant(a, b);
    assert CramerX(b, a) == -CramerX(a, b);
    assert CramerY(b, a) == -CramerY(a, b);
    RoundHalfEvenNegate(CramerX(a, b), Determinant(a, b));
    RoundHalfEvenNegate(CramerY(a, b), Determinant(a, b));
  }

  /** When an integer point lies on two non-parallel lines, `Intersect` finds
      it exactly, with no rounding error. */
  lemma IntersectAtCommonPoint(a: Line, b: Line, p: Point)
    requires Intersects(a, b) && OnLine(a, p) && OnLine(b, p)
    ensures Intersect(a, b) == p
  {
    var det := Determinant(a, b);
    calc {
      CramerX(a, b);
      b.B * (a.A * p.X + a.B * p.Y) - a.B * (b.A * p.X + b.B * p.Y);
      p.X * (a.A * b.B - b.A * a.B);
      p.X * det;
    }
    calc {
      CramerY(a, b);
      a.A * (b.A * p.X + b.B * p.Y) - b.A * (a.A * p.X + a.B * p.Y);
      p.Y * (a.A * b.B - b.A * a.B);
      p.Y * det;
    }
    RoundHalfEvenExact(p.X, det);
    RoundHalfEvenExact(p.Y, det);
  }

  /** Meeting a horizontal line y == y0 (A == 0), the intersection's Y is
      exactly y0, in either argument order. */
  lemma IntersectOnHorizontal(v: Line, h: Line, y0: int)
    requires Intersects(v, h) && h.A == 0 && h.C == h.B * y0
    ensures Intersect(v, h).Y == y0 && Intersect(h, v).Y == y0
  {
    var det := Determinant(v, h);
    assert det == v.A * h.B;
    assert CramerY(v, h) == y0 * det by {
      assert CramerY(v, h) == v.A * (h.B * y0);
    }
    RoundHalfEvenExact(y0, det);
    IntersectSymmetric(v, h);
  }

  /** Meeting a vertical line x == x0 (B == 0), the intersection's X is
      exactly x0, in either argument order. */
  lemma IntersectOnVertical(v: Line, h: Line, x0: int)
    requires Intersects(v, h) && h.B == 0 && h.C == h.A * x0
    ensures Intersect(v, h).X == x0 && Intersect(h, v).X == x0
  {
    var det := Determinant(v, h);
    assert det == -(h.A * v.B);
    assert CramerX(v, h) == x0 * det by {
      assert CramerX(v, h) == -(v.B * (h.A * x0));
    }
    RoundHalfEvenExact(x0, det);
    IntersectSymmetric(v, h);
  }

  /** `Line.Lines`: the four edge lines of a rectangle, in the order top,
      right, bottom, left. Each line holds the whole of its edge. */
  function Lines(r: Rect): (ls: seq<Line>)
    ensures |ls| == 4
    ensures forall x :: OnLine(ls[0], Point(x, r.Top())) && OnLine(ls[2], Point(x, r.Bottom()))
    ensures forall y :: OnLine(ls[1], Point(r.Right(), y)) && OnLine(ls[3], Point(r.Left(), y))
  {
    [ LineFromCoords(r.Left(), r.Top(), r.Right(), r.Top()),
      LineFromCoords(r.Right(), r.Top(), r.Right(), r.Bottom()),
      LineFromCoords(r.Right(), r.Bottom(), r.Left(), r.Bottom()),
      LineFromCoords(r.Left(), r.Bottom(), r.Left(), r.Top()) ]
  }

  /** For a rectangle with some area, each edge line holds nothing but the
      points level with its edge; the top and bottom lines are horizontal and
      the right and left lines vertical. */
  lemma LinesAreEdges(r: Rect, p: Point)
    requires r.Width > 0 && r.Height > 0
    ensures var ls := Lines(r);
      (OnLine(ls[0], p) <==> p.Y == r.Top()) && (OnLine(ls[1], p) <==> p.X == r.Right()) &&
      (OnLine(ls[2], p) <==> p.Y == r.Bottom()) && (OnLine(ls[3], p) <==> p.X == r.Left())
    ensures var ls := Lines(r);
      ls[0].A == 0 && ls[0].C == ls[0].B * r.Top() && ls[2].A == 0 && ls[2].C == ls[2].B * r.Bottom() &&
      ls[1].B == 0 && ls[1].C == ls[1].A * r.Right() && ls[3].B == 0 && ls[3].C == ls[3].A * r.Left()
  {
    var ls := Lines(r);
    CancelFactor(-r.Width, p.Y, r.Top());
    CancelFactor(r.Width, p.Y, r.Bottom());
    CancelFactor(-r.Height, p.X, r.Right());
    CancelFactor(r.Height, p.X, r.Left());
  }

  lemma CancelFactor(k: int, a: int, b: int)
    requires k != 0
    ensures k * a == k * b <==> a == b
  {
    ProductZero(k, a - b);
    assert k * a - k * b == k * (a - b);
  }

  /** Adjacent edge lines of a rectangle with some area meet exactly at its
      corners. */
  lemma LinesMeetAtCorners(r: Rect)
    requires r.Width > 0 && r.Height > 0
    ensures var ls := Lines(r);
      Intersects(ls[0], ls[1]) && Intersect(ls[0], ls[1]) == Point(r.Right(), r.Top()) &&
      Intersects(ls[1], ls[2]) && Intersect(ls[1], ls[2]) == Point(r.Right(), r.Bottom()) &&
      Intersects(ls[2], ls[3]) && Intersect(ls[2], ls[3]) == Point(r.Left(), r.Bottom()) &&
      Intersects(ls[3], ls[0]) && Intersect(ls[3], ls[0]) == Point(r.Left(), r.Top())
  {
    var ls := Lines(r);
    var w, h := r.Width, r.Height;
    assert w * h != 0 by { ProductZero(w, h); }
    assert Determinant(ls[0], ls[1]) == -(w * h);
    assert Determinant(ls[1], ls[2]) == -(h * w);
    assert Determinant(ls[2], ls[3]) == -(w * h);
    assert Determinant(ls[3], ls[0]) == -(h * w);
    IntersectAtCommonPoint(ls[0], ls[1], Point(r.Right(), r.Top()));
    IntersectAtCommonPoint(ls[1], ls[2], Point(r.Right(), r.Bottom()));
    IntersectAtCommonPoint(ls[2], ls[3], Point(r.Left(), r.Bottom()));
    IntersectAtCommonPoint(ls[3], ls[0], Point(r.Left(), r.Top()));
  }

  // ---------------------------------------------------------------------------
  // First-index minimum and maximum
  // ---------------------------------------------------------------------------

  /** Index i holds a least element of s and no earlier index does. */
  predicate IsFirstMin(s: seq<int>, i: int) {
    0 <= i < |s| &&
    (forall j :: 0 <= j < |s| ==> s[i] <= s[j]) &&
    (forall j :: 0 <= j < i ==> s[j] > s[i])
  }

  /** Index i holds a greatest element of s and no earlier index does. */
  predicate IsFirstMax(s: seq<int>, i: int) {
    0 <= i < |s| &&
    (forall j :: 0 <= j < |s| ==> s[j] <= s[i]) &&
    (forall j :: 0 <= j < i ==> s[j] < s[i])
  }

  /** The first index of a minimum, as a function for use in specifications. */
  function ArgMin(s: seq<int>): (i: int)
    requires |s| > 0
    ensures IsFirstMin(s, i)
  {
    if |s| == 1 then 0
    else
      var j := ArgMin(s[..|s| - 1]);
      if s[|s| - 1] < s[j] then |s| - 1 else j
  }

  /** The first index of a maximum, as a function for use in specifications. */
  function ArgMax(s: seq<int>): (i: int)
    requires |s| > 0
    ensures IsFirstMax(s, i)
  {
    if |s| == 1 then 0
    else
      var j := ArgMax(s[..|s| - 1]);
      if s[|s| - 1] > s[j] then |s| - 1 else j
  }

  lemma FirstMinUnique(s: seq<int>, i: int, j: int)
    requires IsFirstMin(s, i) && IsFirstMin(s, j)
    ensures i == j
  {
    assert s[i] <= s[j] && s[j] <= s[i];
  }

  lemma FirstMaxUnique(s: seq<int>, i: int, j: int)
    requires IsFirstMax(s, i) && IsFirstMax(s, j)
    ensures i == j
  {
    assert s[i] <= s[j] && s[j] <= s[i];
  }

  /** `GameMath.Min(values, out min, out index)`. */
  method MinIndex(values: seq<int>) returns (min: int, index: int)
    requires |values| > 0
    ensures IsFirstMin(values, index) && min == values[index]
  {
    min, index := values[0], 0;
    for i := 1 to |values|
      invariant 0 <= index < i && min == values[index]
      invariant forall j :: 0 <= j < i ==> min <= values[j]
      invariant forall j :: 0 <= j < index ==> values[j] > min
    {
      if min > values[i] {
        index, min := i, values[i];
      }
    }
  }

  /** `GameMath.Min(values)`. */
  method Min(values: seq<int>) returns (min: int)
    requires |values| > 0
    ensures min in values && forall v :: v in values ==> min <= v
  {
    var index;
    min, index := MinIndex(values);
  }

  /** `GameMath.Max(values, out max, out index)`. */
  method MaxIndex(values: seq<int>) returns (max: int, index: int)
    requires |values| > 0
    ensures IsFirstMax(values, index) && max == values[index]
  {
    max, index := values[0], 0;
    for i := 1 to |values|
      invariant 0 <= index < i && max == values[index]
      invariant forall j :: 0 <= j < i ==> values[j] <= max
      invariant forall j :: 0 <= j < index ==> values[j] < max
    {
      if max < values[i] {
        index, max := i, values[i];
      }
    }
  }

  /** `GameMath.Max(values)`. */
  method Max(values: seq<int>) returns (max: int)
    requires |values| > 0
    ensures max == values[ArgMax(values)]
    ensures max in values && forall v :: v in values ==> v <= max
  {
    var index;
    max, index := MaxIndex(values);
    FirstMaxUnique(values, index, ArgMax(values));
  }

  // ---------------------------------------------------------------------------
  // Vector products and shuffling
  // ---------------------------------------------------------------------------

  function Cross(a: Point, b: Point): int {
    a.X * b.Y - b.X * a.Y
  }

  function Dot(a: Point, b: Point): int {
    a.X * b.X + a.Y * b.Y
  }

  lemma CrossAntisymmetric(a: Point, b: Point)
    ensures Cross(a, b) == -Cross(b, a) && Cross(a, a) == 0
  {
  }

  lemma DotSymmetric(a: Point, b: Point)
    ensures Dot(a, b) == Dot(b, a)
    ensures Dot(a, a) >= 0 && (Dot(a, a) == 0 <==> a == Zero)
  {
    if a != Zero {
      if a.X != 0 { assert a.X * a.X > 0; }
      if a.Y != 0 { assert a.Y * a.Y > 0; }
    }
  }

  /** `GameMath.Shuffle` (Fisher-Yates). The random draws are passed in:
      picks[i] is the index drawn in the i-th round, when n counts down from
      a.Length - 1 and the draw lies in [0, n]. */
  method Shuffle<T>(a: array<T>, picks: seq<int>)
    requires |picks| == if a.Length > 1 then a.Length - 1 else 0
    requires forall i :: 0 <= i < |picks| ==> 0 <= picks[i] <= a.Length - 1 - i
    modifies a
    ensures multiset(a[..]) == old(multiset(a[..]))
  {
    var n := a.Length;
    while n > 1
      invariant 0 <= n <= a.Length
      invariant n > 1 ==> a.Length - n < |picks|
      invariant n <= 1 ==> a.Length <= 1 || n == 1
      invariant multiset(a[..]) == old(multiset(a[..]))
    {
      n := n - 1;
      var k := picks[a.Length - 1 - n];
      a[k], a[n] := a[n], a[k];
    }
  }
}
