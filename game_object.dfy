/** Collision servicing shared by every body of the game (GameObject.cs):
    pixel-mask overlap between two bodies with a one-axis position correction,
    and containment of a body inside the walls of its room. */
module GameObject {
  import opened Xna
  import opened GameMath

  // ---------------------------------------------------------------------------
  // Masks, sprites and bodies
  // ---------------------------------------------------------------------------

  /** A sprite's opacity mask: pixels[y][x] says whether pixel (x, y) of the
      texture is not transparent. The mask is read from the texture by the
      content pipeline and is only read here. */
  datatype Mask = Mask(width: nat, height: nat, pixels: seq<seq<bool>>) {
    ghost predicate Valid() {
      |pixels| == height && forall y :: 0 <= y < height ==> |pixels[y]| == width
    }

    /** `Mask.Bounds`: the texture's rectangle, at the origin. */
    function Bounds(): Rect { Rect(0, 0, width, height) }

    /** Pixel (x, y) exists and is opaque. */
    predicate Opaque(x: int, y: int) {
      0 <= y < |pixels| && 0 <= x < |pixels[y]| && pixels[y][x]
    }
  }

  /** What collision servicing reads of a body. */
  datatype Sprite = Sprite(position: Point, mask: Mask, solid: bool) {
    /** The bounding box: the mask's size placed at the body's position. */
    function Box(): Rect {
      Rect(position.X, position.Y, mask.width, mask.height)
    }

    /** The body covers room pixel (x, y) with an opaque pixel of its mask. */
    predicate OpaqueAt(x: int, y: int) {
      mask.Opaque(x - position.X, y - position.Y)
    }
  }

  /** A body of the game (the source's IGameObject): where it is, how it
      moves, the room it lives in, its mask and whether it is solid. The mask
      is read from a texture, so it always matches its own size. */
  class Body {
    var position: Point
    var velocity: Point
    var roomBounds: Rect
    const mask: Mask
    const solid: bool

    constructor (position: Point, velocity: Point, roomBounds: Rect, mask: Mask, solid: bool)
      requires mask.Valid()
      ensures this.position == position && this.velocity == velocity
      ensures this.roomBounds == roomBounds && this.mask == mask && this.solid == solid
    {
      this.position := position;
      this.velocity := velocity;
      this.roomBounds := roomBounds;
      this.mask := mask;
      this.solid := solid;
    }

    function Snapshot(): Sprite
      reads this
    {
      Sprite(position, mask, solid)
    }
  }

  datatype Outcome = Outcome(collided: bool, position: Point)

  // ---------------------------------------------------------------------------
  // Collision grids and their counts
  // ---------------------------------------------------------------------------

  ghost predicate IsGrid(g: seq<seq<bool>>, w: int, h: int) {
    |g| == h && forall r :: 0 <= r < h ==> |g[r]| == w
  }

  /** The collision mask: for each pixel of the intersection `inter` (column
      col, row row), whether both bodies are opaque there. Each mask is read in
      its own coordinates, the intersection less the body's position. */
  function CollisionGrid(cur: Sprite, oth: Sprite, inter: Rect): (g: seq<seq<bool>>)
    requires inter.Sized()
    ensures IsGrid(g, inter.Width, inter.Height)
    ensures forall row, col :: 0 <= row < inter.Height && 0 <= col < inter.Width ==>
      (g[row][col] <==> cur.OpaqueAt(inter.X + col, inter.Y + row) && oth.OpaqueAt(inter.X + col, inter.Y + row))
  {
    seq(inter.Height, row =>
      seq(inter.Width, col =>
        cur.mask.Opaque(inter.X - cur.position.X + col, inter.Y - cur.position.Y + row) &&
        oth.mask.Opaque(inter.X - oth.position.X + col, inter.Y - oth.position.Y + row)))
  }

  /** `collisionMask.Contains(true)`. */
  predicate AnyCell(g: seq<seq<bool>>) {
    exists r, c :: 0 <= r < |g| && 0 <= c < |g[r]| && g[r][c]
  }

  /** The number of true cells of a row. */
  function CountTrue(s: seq<bool>): (n: nat)
    ensures n <= |s|
    ensures n == 0 <==> forall i :: 0 <= i < |s| ==> !s[i]
  {
    if |s| == 0 then 0
    else CountTrue(s[..|s| - 1]) + (if s[|s| - 1] then 1 else 0)
  }

  /** The number of true cells of column col among the first `rows` rows. */
  function ColumnCount(g: seq<seq<bool>>, col: nat, rows: nat): (n: nat)
    requires rows <= |g| && forall r :: 0 <= r < rows ==> col < |g[r]|
    ensures n <= rows
    ensures n == 0 <==> forall r :: 0 <= r < rows ==> !g[r][col]
  {
    if rows == 0 then 0
    else ColumnCount(g, col, rows - 1) + (if g[rows - 1][col] then 1 else 0)
  }

  /** `colCounts`: the count of every column of a w-wide grid. */
  function ColumnCounts(g: seq<seq<bool>>, w: nat): seq<int>
    requires forall r :: 0 <= r < |g| ==> |g[r]| == w
  {
    seq(w, col requires 0 <= col < w => ColumnCount(g, col, |g|))
  }

  /** `rowCounts`: the count of every row of a grid. */
  function RowCounts(g: seq<seq<bool>>): seq<int> {
    seq(|g|, row requires 0 <= row < |g| => CountTrue(g[row]))
  }

  /** The nested counting loops: one pass over the grid, row by row, adding
      each true cell to its column's and its row's count. */
  method CountOverlap(g: seq<seq<bool>>, w: nat, h: nat) returns (colCounts: seq<int>, rowCounts: seq<int>)
    requires IsGrid(g, w, h)
    ensures colCounts == ColumnCounts(g, w) && rowCounts == RowCounts(g)
  {
    var cols := new int[w](_ => 0);
    var rows := new int[h](_ => 0);
    for row := 0 to h
      invariant forall c :: 0 <= c < w ==> cols[c] == ColumnCount(g, c, row)
      invariant forall r :: 0 <= r < row ==> rows[r] == CountTrue(g[r])
      invariant forall r :: row <= r < h ==> rows[r] == 0
    {
      CountRow(g, w, row, cols, rows);
    }
    colCounts, rowCounts := cols[..], rows[..];
  }

  /** The inner loop of the count, over the columns of one row. */
  method CountRow(g: seq<seq<bool>>, w: nat, row: nat, cols: array<int>, rows: array<int>)
    requires IsGrid(g, w, rows.Length) && row < rows.Length && cols.Length == w && cols != rows
    requires forall c :: 0 <= c < w ==> cols[c] == ColumnCount(g, c, row)
    requires rows[row] == 0
    modifies cols, rows
    ensures forall c :: 0 <= c < w ==> cols[c] == ColumnCount(g, c, row + 1)
    ensures rows[row] == CountTrue(g[row])
    ensures forall r :: 0 <= r < rows.Length && r != row ==> rows[r] == old(rows[r])
  {
    for col := 0 to w
      invariant forall c :: 0 <= c < col ==> cols[c] == ColumnCount(g, c, row + 1)
      invariant forall c :: col <= c < w ==> cols[c] == ColumnCount(g, c, row)
      invariant rows[row] == CountTrue(g[row][..col])
      invariant forall r :: 0 <= r < rows.Length && r != row ==> rows[r] == old(rows[r])
    {
      assert g[row][..col + 1][..col] == g[row][..col];
      if g[row][col] {
        cols[col] := cols[col] + 1;
        rows[row] := rows[row] + 1;
      }
    }
    assert g[row][..w] == g[row];
  }

  // ---------------------------------------------------------------------------
  // Servicing a collision between two bodies
  // ---------------------------------------------------------------------------

  /** The shift applied to a solid body: along Y by colMax when colMax <
      rowMax (up when the overlap's top is the obstacle's top, down when its
      bottom is the obstacle's bottom), otherwise along X by rowMax (left for
      the obstacle's left edge, right for its right edge). */
  function PairCorrection(colMax: int, rowMax: int, inter: Rect, obstacle: Rect): Point {
    var top := obstacle.Top() == inter.Top();
    var bottom := obstacle.Bottom() == inter.Bottom();
    var left := obstacle.Left() == inter.Left();
    var right := obstacle.Right() == inter.Right();
    if colMax < rowMax then
      Point(0, (if bottom then colMax else 0) - (if top then colMax else 0))
    else
      Point((if right then rowMax else 0) - (if left then rowMax else 0), 0)
  }

  /** What `GameObject.ServiceCollision(current, other)` reports and where it
      leaves `current`. */
  function PairOutcome(cur: Sprite, oth: Sprite): Outcome {
    var cb, ob := cur.Box(), oth.Box();
    if !cb.Intersects(ob) then Outcome(false, cur.position)
    else
      var inter := Rect.Intersect(cb, ob);
      var g := CollisionGrid(cur, oth, inter);
      var occurred := AnyCell(g);
      if occurred && cur.solid && oth.solid then
        var colCounts, rowCounts := ColumnCounts(g, inter.Width), RowCounts(g);
        var colMax := colCounts[ArgMax(colCounts)];
        var rowMax := rowCounts[ArgMax(rowCounts)];
        Outcome(true, Add(cur.position, PairCorrection(colMax, rowMax, inter, ob)))
      else
        Outcome(occurred, cur.position)
  }

  /** `GameObject.ServiceCollision(current, other)`. Only `current`'s position
      may change; `other` and every velocity are left alone. */
  method ServiceCollision(current: Body, other: Body) returns (collided: bool)
    requires current != other
    modifies current`position
    ensures Outcome(collided, current.position) == PairOutcome(old(current.Snapshot()), other.Snapshot())
  {
    var currentBounds := current.Snapshot().Box();
    var otherBounds := other.Snapshot().Box();
    if !currentBounds.Intersects(otherBounds) {
      return false;
    }
    var intersection := Rect.Intersect(currentBounds, otherBounds);
    var collisionMask := CollisionGrid(current.Snapshot(), other.Snapshot(), intersection);
    collided := AnyCell(collisionMask);
    if collided && current.solid && other.solid {
      var colCounts, rowCounts := CountOverlap(collisionMask, intersection.Width, intersection.Height);
      var colMax := GameMath.Max(colCounts);
      var rowMax := GameMath.Max(rowCounts);
      Correct(current, colMax, rowMax, intersection, otherBounds);
    }
  }

  /** The shift of `ServiceCollision(current, other)` once both maxima are
      known. */
  method Correct(current: Body, colMax: int, rowMax: int, intersection: Rect, otherBounds: Rect)
    modifies current`position
    ensures current.position == Add(old(current.position), PairCorrection(colMax, rowMax, intersection, otherBounds))
  {
    var topCollision := otherBounds.Top() == intersection.Top();
    var bottomCollision := otherBounds.Bottom() == intersection.Bottom();
    var leftCollision := otherBounds.Left() == intersection.Left();
    var rightCollision := otherBounds.Right() == intersection.Right();
    if colMax < rowMax {
      if topCollision {
        current.position := Sub(current.position, Point(0, colMax));
      }
      if bottomCollision {
        current.position := Add(current.position, Point(0, colMax));
      }
    } else {
      if leftCollision {
        current.position := Sub(current.position, Point(rowMax, 0));
      }
      if rightCollision {
        current.position := Add(current.position, Point(rowMax, 0));
      }
    }
  }

  /** The collision is reported exactly when some room pixel is opaque in both
      masks, and it is never reported for boxes that do not strictly overlap. */
  lemma PairCollidesIffSharedPixel(cur: Sprite, oth: Sprite)
    requires cur.mask.Valid() && oth.mask.Valid()
    ensures PairOutcome(cur, oth).collided <==>
      exists x, y :: cur.OpaqueAt(x, y) && oth.OpaqueAt(x, y)
    ensures !cur.Box().Intersects(oth.Box()) ==> PairOutcome(cur, oth) == Outcome(false, cur.position)
  {
    PairCollidedIsAnyCell(cur, oth);
    if exists x, y :: cur.OpaqueAt(x, y) && oth.OpaqueAt(x, y) {
      var x, y :| cur.OpaqueAt(x, y) && oth.OpaqueAt(x, y);
      SharedPixelIsCell(cur, oth, x, y);
    }
    if PairOutcome(cur, oth).collided {
      CellIsSharedPixel(cur, oth);
    }
  }

  lemma PairCollidedIsAnyCell(cur: Sprite, oth: Sprite)
    ensures var cb, ob := cur.Box(), oth.Box();
      PairOutcome(cur, oth).collided <==>
        cb.Intersects(ob) && AnyCell(CollisionGrid(cur, oth, Rect.Intersect(cb, ob)))
  {
  }

  lemma SharedPixelIsCell(cur: Sprite, oth: Sprite, x: int, y: int)
    requires cur.mask.Valid() && oth.mask.Valid()
    requires cur.OpaqueAt(x, y) && oth.OpaqueAt(x, y)
    ensures var cb, ob := cur.Box(), oth.Box();
      cb.Intersects(ob) && AnyCell(CollisionGrid(cur, oth, Rect.Intersect(cb, ob)))
  {
    var cb, ob := cur.Box(), oth.Box();
    assert cb.Left() <= x < cb.Right() && cb.Top() <= y < cb.Bottom();
    assert ob.Left() <= x < ob.Right() && ob.Top() <= y < ob.Bottom();
    var inter := Rect.Intersect(cb, ob);
    var g := CollisionGrid(cur, oth, inter);
    var col, row := x - inter.X, y - inter.Y;
    assert 0 <= row < |g| && 0 <= col < |g[row]| && g[row][col];
  }

  lemma CellIsSharedPixel(cur: Sprite, oth: Sprite)
    requires var cb, ob := cur.Box(), oth.Box();
      cb.Intersects(ob) && AnyCell(CollisionGrid(cur, oth, Rect.Intersect(cb, ob)))
    ensures exists x, y :: cur.OpaqueAt(x, y) && oth.OpaqueAt(x, y)
  {
    var inter := Rect.Intersect(cur.Box(), oth.Box());
    var g := CollisionGrid(cur, oth, inter);
    var row, col :| 0 <= row < |g| && 0 <= col < |g[row]| && g[row][col];
    assert cur.OpaqueAt(inter.X + col, inter.Y + row) && oth.OpaqueAt(inter.X + col, inter.Y + row);
  }

  /** The body moves only when a collision was reported between two solid
      bodies, and then along one axis only. */
  lemma PairOutcomeMovesOneAxis(cur: Sprite, oth: Sprite)
    ensures var o := PairOutcome(cur, oth);
      (o.position != cur.position ==> o.collided && cur.solid && oth.solid) &&
      (o.position.X == cur.position.X || o.position.Y == cur.position.Y)
  {
  }

  /** The correction does not always separate the bodies: a body whose box
      lies strictly inside a solid obstacle's box shares none of its edges,
      so a reported collision leaves it where it is, still overlapping. */
  lemma PairInsideObstacleStays(cur: Sprite, oth: Sprite, x: int, y: int)
    requires cur.mask.Valid() && oth.mask.Valid() && cur.solid && oth.solid
    requires var cb, ob := cur.Box(), oth.Box();
      ob.Left() < cb.Left() && cb.Right() < ob.Right() && ob.Top() < cb.Top() && cb.Bottom() < ob.Bottom()
    requires cur.OpaqueAt(x, y) && oth.OpaqueAt(x, y)
    ensures PairOutcome(cur, oth) == Outcome(true, cur.position)
    ensures cur.Box().Intersects(oth.Box())
  {
    PairCollidesIffSharedPixel(cur, oth);
  }

  /** Every cell of the grid is set. */
  ghost predicate FullGrid(g: seq<seq<bool>>, w: int, h: int) {
    IsGrid(g, w, h) && forall r, c :: 0 <= r < h && 0 <= c < w ==> g[r][c]
  }

  lemma {:induction false} CountTrueFull(s: seq<bool>)
    requires forall i :: 0 <= i < |s| ==> s[i]
    ensures CountTrue(s) == |s|
  {
    if |s| > 0 {
      CountTrueFull(s[..|s| - 1]);
    }
  }

  lemma {:induction false} ColumnCountFull(g: seq<seq<bool>>, col: nat, rows: nat)
    requires rows <= |g| && forall r :: 0 <= r < rows ==> col < |g[r]| && g[r][col]
    ensures ColumnCount(g, col, rows) == rows
  {
    if rows > 0 {
      ColumnCountFull(g, col, rows - 1);
    }
  }

  /** Over a full w-by-h grid every column counts h and every row counts w,
      so those are the two maxima. */
  lemma FullGridMaxima(g: seq<seq<bool>>, w: nat, h: nat)
    requires FullGrid(g, w, h) && w > 0 && h > 0
    ensures AnyCell(g)
    ensures ColumnCounts(g, w)[ArgMax(ColumnCounts(g, w))] == h
    ensures RowCounts(g)[ArgMax(RowCounts(g))] == w
  {
    assert g[0][0];
    var cs, rs := ColumnCounts(g, w), RowCounts(g);
    ColumnCountFull(g, ArgMax(cs), h);
    CountTrueFull(g[ArgMax(rs)]);
  }

  /** The grid of two bodies both opaque over the whole overlap is full. */
  lemma OpaqueOverlapFullGrid(cur: Sprite, oth: Sprite)
    requires cur.mask.width > 0 && cur.mask.height > 0 && oth.mask.width > 0 && oth.mask.height > 0
    requires var cb, ob := cur.Box(), oth.Box();
      cb.Intersects(ob) &&
      var inter := Rect.Intersect(cb, ob);
      forall x, y :: inter.Left() <= x < inter.Right() && inter.Top() <= y < inter.Bottom() ==>
        cur.OpaqueAt(x, y) && oth.OpaqueAt(x, y)
    ensures var inter := Rect.Intersect(cur.Box(), oth.Box());
      inter.Width > 0 && inter.Height > 0 && FullGrid(CollisionGrid(cur, oth, inter), inter.Width, inter.Height)
  {
    var cb, ob := cur.Box(), oth.Box();
    var inter := Rect.Intersect(cb, ob);
    assert inter.Right() == MinInt(cb.Right(), ob.Right()) && inter.Left() == MaxInt(cb.Left(), ob.Left());
    assert inter.Bottom() == MinInt(cb.Bottom(), ob.Bottom()) && inter.Top() == MaxInt(cb.Top(), ob.Top());
    var g := CollisionGrid(cur, oth, inter);
    forall r, c | 0 <= r < inter.Height && 0 <= c < inter.Width
      ensures g[r][c]
    {
      assert cur.OpaqueAt(inter.X + c, inter.Y + r) && oth.OpaqueAt(inter.X + c, inter.Y + r);
    }
  }

  /** Where the correction does separate: both bodies opaque over the whole
      overlap, the overlap wider than tall, and exactly one of the obstacle's
      top and bottom edges shared. The body is pushed out by the overlap's
      height and ends level with that edge, no longer overlapping. */
  lemma PairSeparatesVertically(cur: Sprite, oth: Sprite)
    requires cur.solid && oth.solid
    requires cur.mask.width > 0 && cur.mask.height > 0 && oth.mask.width > 0 && oth.mask.height > 0
    requires var cb, ob := cur.Box(), oth.Box();
      cb.Intersects(ob) &&
      var inter := Rect.Intersect(cb, ob);
      inter.Height < inter.Width && (ob.Top() == inter.Top()) != (ob.Bottom() == inter.Bottom()) &&
      forall x, y :: inter.Left() <= x < inter.Right() && inter.Top() <= y < inter.Bottom() ==>
        cur.OpaqueAt(x, y) && oth.OpaqueAt(x, y)
    ensures var o := PairOutcome(cur, oth);
      o.collided && !Sprite(o.position, cur.mask, cur.solid).Box().Intersects(oth.Box())
  {
    var inter := Rect.Intersect(cur.Box(), oth.Box());
    OpaqueOverlapFullGrid(cur, oth);
    FullGridMaxima(CollisionGrid(cur, oth, inter), inter.Width, inter.Height);
  }

  /** The same along X: the overlap at least as tall as wide, and exactly one
      of the obstacle's left and right edges shared. */
  lemma PairSeparatesHorizontally(cur: Sprite, oth: Sprite)
    requires cur.solid && oth.solid
    requires cur.mask.width > 0 && cur.mask.height > 0 && oth.mask.width > 0 && oth.mask.height > 0
    requires var cb, ob := cur.Box(), oth.Box();
      cb.Intersects(ob) &&
      var inter := Rect.Intersect(cb, ob);
      inter.Width <= inter.Height && (ob.Left() == inter.Left()) != (ob.Right() == inter.Right()) &&
      forall x, y :: inter.Left() <= x < inter.Right() && inter.Top() <= y < inter.Bottom() ==>
        cur.OpaqueAt(x, y) && oth.OpaqueAt(x, y)
    ensures var o := PairOutcome(cur, oth);
      o.collided && !Sprite(o.position, cur.mask, cur.solid).Box().Intersects(oth.Box())
  {
    var inter := Rect.Intersect(cur.Box(), oth.Box());
    OpaqueOverlapFullGrid(cur, oth);
    FullGridMaxima(CollisionGrid(cur, oth, inter), inter.Width, inter.Height);
  }

  // ---------------------------------------------------------------------------
  // Counting facts
  // ---------------------------------------------------------------------------

  function Sum(s: seq<int>): int {
    if |s| == 0 then 0 else Sum(s[..|s| - 1]) + s[|s| - 1]
  }

  /** Column counts of the first `cols` columns over the first `rows` rows. */
  function ColumnsTotal(g: seq<seq<bool>>, w: nat, cols: nat, rows: nat): nat
    requires IsGrid(g, w, |g|) && cols <= w && rows <= |g|
  {
    if cols == 0 then 0 else ColumnsTotal(g, w, cols - 1, rows) + ColumnCount(g, cols - 1, rows)
  }

  /** Row counts of the first `rows` rows. */
  function RowsTotal(g: seq<seq<bool>>, rows: nat): nat
    requires rows <= |g|
  {
    if rows == 0 then 0 else RowsTotal(g, rows - 1) + CountTrue(g[rows - 1])
  }

  lemma {:induction false} ColumnsTotalAddRow(g: seq<seq<bool>>, w: nat, cols: nat, rows: nat)
    requires IsGrid(g, w, |g|) && cols <= w && rows < |g|
    ensures ColumnsTotal(g, w, cols, rows + 1) == ColumnsTotal(g, w, cols, rows) + CountTrue(g[rows][..cols])
  {
    if cols > 0 {
      ColumnsTotalAddRow(g, w, cols - 1, rows);
      assert g[rows][..cols][..cols - 1] == g[rows][..cols - 1];
    }
  }

  lemma {:induction false} ColumnsTotalIsRowsTotal(g: seq<seq<bool>>, w: nat, rows: nat)
    requires IsGrid(g, w, |g|) && rows <= |g|
    ensures ColumnsTotal(g, w, w, rows) == RowsTotal(g, rows)
  {
    if rows == 0 {
      ColumnsTotalNoRows(g, w, w);
    } else {
      ColumnsTotalIsRowsTotal(g, w, rows - 1);
      ColumnsTotalAddRow(g, w, w, rows - 1);
      assert g[rows - 1][..w] == g[rows - 1];
    }
  }

  lemma {:induction false} ColumnsTotalNoRows(g: seq<seq<bool>>, w: nat, cols: nat)
    requires IsGrid(g, w, |g|) && cols <= w
    ensures ColumnsTotal(g, w, cols, 0) == 0
  {
    if cols > 0 { ColumnsTotalNoRows(g, w, cols - 1); }
  }

  lemma {:induction false} SumColumnCounts(g: seq<seq<bool>>, w: nat, cols: nat)
    requires IsGrid(g, w, |g|) && cols <= w
    ensures Sum(ColumnCounts(g, w)[..cols]) == ColumnsTotal(g, w, cols, |g|)
  {
    if cols > 0 {
      SumColumnCounts(g, w, cols - 1);
      assert ColumnCounts(g, w)[..cols][..cols - 1] == ColumnCounts(g, w)[..cols - 1];
    }
  }

  lemma {:induction false} SumRowCounts(g: seq<seq<bool>>, rows: nat)
    requires rows <= |g|
    ensures Sum(RowCounts(g)[..rows]) == RowsTotal(g, rows)
  {
    if rows > 0 {
      SumRowCounts(g, rows - 1);
      assert RowCounts(g)[..rows][..rows - 1] == RowCounts(g)[..rows - 1];
    }
  }

  /** Every colliding cell is counted once by its column and once by its row,
      so both count arrays add up to the same number of colliding cells; no
      column count exceeds the height and no row count the width. */
  lemma OverlapCountsBalance(g: seq<seq<bool>>, w: nat, h: nat)
    requires IsGrid(g, w, h)
    ensures Sum(ColumnCounts(g, w)) == Sum(RowCounts(g))
    ensures forall c :: 0 <= c < w ==> 0 <= ColumnCounts(g, w)[c] <= h
    ensures forall r :: 0 <= r < h ==> 0 <= RowCounts(g)[r] <= w
  {
    SumColumnCounts(g, w, w);
    SumRowCounts(g, h);
    ColumnsTotalIsRowsTotal(g, w, h);
    assert ColumnCounts(g, w)[..w] == ColumnCounts(g, w);
    assert RowCounts(g)[..h] == RowCounts(g);
  }

  /** When the collision mask holds a colliding cell, both maxima are at
      least 1, so a correction always moves a body that collided. */
  lemma OverlapMaximaPositive(g: seq<seq<bool>>, w: nat, h: nat)
    requires IsGrid(g, w, h) && AnyCell(g)
    ensures |ColumnCounts(g, w)| > 0 && ColumnCounts(g, w)[ArgMax(ColumnCounts(g, w))] >= 1
    ensures |RowCounts(g)| > 0 && RowCounts(g)[ArgMax(RowCounts(g))] >= 1
  {
    var r, c :| 0 <= r < |g| && 0 <= c < |g[r]| && g[r][c];
    assert ColumnCounts(g, w)[c] != 0;
    assert RowCounts(g)[r] != 0;
  }

  // ---------------------------------------------------------------------------
  // Servicing a collision with the walls of the room
  // ---------------------------------------------------------------------------

  /** What `GameObject.ServiceCollision(current)` reports and where it leaves
      the body: when the box is not wholly inside the room, it is pushed back
      across each wall its overlap with the room touches, by how much of the
      box is outside along that axis. */
  function WallOutcome(position: Point, mask: Mask, room: Rect): Outcome {
    var box := Rect(position.X, position.Y, mask.width, mask.height);
    var inter := Rect.Intersect(box, room);
    if inter == box then Outcome(false, position)
    else
      var colMax := box.Width - inter.Width;
      var rowMax := box.Height - inter.Height;
      var dy := (if room.Top() == inter.Top() then rowMax else 0) -
                (if room.Bottom() == inter.Bottom() then rowMax else 0);
      var dx := (if room.Left() == inter.Left() then colMax else 0) -
                (if room.Right() == inter.Right() then colMax else 0);
      Outcome(true, Add(position, Point(dx, dy)))
  }

  /** `GameObject.ServiceCollision(current)`. */
  method ServiceWallCollision(current: Body) returns (collided: bool)
    modifies current`position
    ensures Outcome(collided, current.position) == WallOutcome(old(current.position), current.mask, current.roomBounds)
  {
    var currentBounds := current.Snapshot().Box();
    var intersection := Rect.Intersect(currentBounds, current.roomBounds);
    if intersection != currentBounds {
      var colMax := currentBounds.Width - intersection.Width;
      var rowMax := currentBounds.Height - intersection.Height;
      var topCollision := current.roomBounds.Top() == intersection.Top();
      var bottomCollision := current.roomBounds.Bottom() == intersection.Bottom();
      var leftCollision := current.roomBounds.Left() == intersection.Left();
      var rightCollision := current.roomBounds.Right() == intersection.Right();
      if topCollision {
        current.position := Add(current.position, Point(0, rowMax));
      }
      if bottomCollision {
        current.position := Sub(current.position, Point(0, rowMax));
      }
      if leftCollision {
        current.position := Add(current.position, Point(colMax, 0));
      }
      if rightCollision {
        current.position := Sub(current.position, Point(colMax, 0));
      }
      return true;
    }
    return false;
  }

  /** The pushes are never negative: the overlap with the room is never larger
      than the box. */
  lemma WallPushesNonNegative(position: Point, mask: Mask, room: Rect)
    requires room.Sized()
    ensures var box := Rect(position.X, position.Y, mask.width, mask.height);
      var inter := Rect.Intersect(box, room);
      box.Width - inter.Width >= 0 && box.Height - inter.Height >= 0
  {
  }

  /** A body that overlaps the room and is no larger than it ends one call
      wholly inside the room, so that a second call reports nothing. */
  lemma WallCorrectionContains(position: Point, mask: Mask, room: Rect)
    requires room.Sized() && mask.width <= room.Width && mask.height <= room.Height
    requires Rect(position.X, position.Y, mask.width, mask.height).Intersects(room)
    ensures var p := WallOutcome(position, mask, room).position;
      var box := Rect(p.X, p.Y, mask.width, mask.height);
      box.Within(room) && Rect.Intersect(box, room) == box && !WallOutcome(p, mask, room).collided
  {
  }

  /** For a body with a non-empty texture, the wall check reports a collision
      exactly when the body's box is not wholly inside the room, and leaves
      the body where it is otherwise. */
  lemma WallReportsIffOutside(position: Point, mask: Mask, room: Rect)
    requires room.Sized() && mask.width > 0 && mask.height > 0
    ensures var box := Rect(position.X, position.Y, mask.width, mask.height);
      WallOutcome(position, mask, room).collided <==> !box.Within(room)
    ensures !WallOutcome(position, mask, room).collided ==>
      WallOutcome(position, mask, room).position == position
  {
    var box := Rect(position.X, position.Y, mask.width, mask.height);
    var inter := Rect.Intersect(box, room);
    if box.Within(room) {
      assert box.Intersects(room);
      assert inter == box;
    } else if box.Intersects(room) {
      assert inter != box by {
        assert inter.Within(room);
      }
    } else {
      assert inter != box;
    }
  }

  /** The check is on the exact box: a box wholly outside the room is still
      reported, with its pushes computed against the empty intersection
      (0,0,0,0). For a room at the origin that pushes it right by its width
      and down by its height, whatever side of the room it is on. */
  lemma WallOutsideRoomAtOrigin(position: Point, mask: Mask, room: Rect)
    requires room.X == 0 && room.Y == 0 && room.Width > 0 && room.Height > 0
    requires mask.width > 0 || mask.height > 0 || position != Zero
    requires !Rect(position.X, position.Y, mask.width, mask.height).Intersects(room)
    ensures WallOutcome(position, mask, room) ==
      Outcome(true, Add(position, Point(mask.width, mask.height)))
  {
    var box := Rect(position.X, position.Y, mask.width, mask.height);
    var inter := Rect.Intersect(box, room);
    assert inter == Rect(0, 0, 0, 0);
    assert inter != box;
    assert room.Top() == inter.Top() && room.Bottom() != inter.Bottom();
    assert room.Left() == inter.Left() && room.Right() != inter.Right();
  }
}
