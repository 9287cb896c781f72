/** Cells, tile tokens, point-top hexagon geometry and the rectangular sea fill
    shared by both versions of the hex map editor. */
module HexGrid {

  datatype Option<+T> = None | Some(value: T)

  /** An integer cell coordinate of the hex tilemap (the z component is taken to be 0). */
  datatype Cell = Cell(x: int, y: int)

  /** The "no cell hovered" marker: (int.MinValue, int.MinValue). */
  const NoCell := Cell(-0x8000_0000, -0x8000_0000)

  /** A tile asset, compared by identity. */
  datatype Tile = Tile(id: nat)

  /** The tilemap's contents: a cell absent from the map holds no tile. */
  type Tiles = map<Cell, Tile>

  /** What `GetTile` returns: the tile at `c`, or None (null) on an empty cell. */
  function Lookup(tiles: Tiles, c: Cell): (t: Option<Tile>)
    ensures t.Some? <==> c in tiles
    ensures t.Some? ==> t.value == tiles[c]
  {
    if c in tiles then Some(tiles[c]) else None
  }

  /** The sea and base tile assets a component is configured with; either may be unassigned. */
  datatype Palette = Palette(seaTile: Option<Tile>, baseTile: Option<Tile>)

  // ---------------------------------------------------------------------------
  // World-space geometry (z dropped; float arithmetic modelled on reals)

  datatype Point = Point(x: real, y: real)

  /** The grid's cell size: `w` across, `h` from point to point. */
  datatype Size = Size(w: real, h: real)

  function Plus(a: Point, b: Point): Point { Point(a.x + b.x, a.y + b.y) }
  function Minus(a: Point, b: Point): Point { Point(a.x - b.x, a.y - b.y) }
  function Times(a: Point, k: real): Point { Point(a.x * k, a.y * k) }
  function Neg(a: Point): Point { Point(-a.x, -a.y) }
  function SqDist(a: Point, b: Point): real { (a.x - b.x) * (a.x - b.x) + (a.y - b.y) * (a.y - b.y) }

  /** The tilemap's engine queries, taken as given:
      `center` is GetCellCenterWorld, `worldToCell` is WorldToCell,
      `bounds` is cellBounds after CompressBounds, as a function of the tilemap's contents. */
  datatype Layout = Layout(
    cellSize: Size,
    center: Cell -> Point,
    worldToCell: Point -> Cell,
    bounds: Tiles -> Rect)

  /** Unity's BoundsInt restricted to x and y: cells with xMin <= x < xMax and yMin <= y < yMax. */
  datatype Rect = Rect(xMin: int, yMin: int, xMax: int, yMax: int)

  predicate InBounds(c: Cell, b: Rect) { InRect(c, b.xMin, b.yMin, b.xMax - b.xMin, b.yMax - b.yMin) }

  /** The six vertices of the point-top hexagon around `c`, clockwise from the top:
      top, upper right, lower right, bottom, lower left, upper left. */
  function HexVertices(c: Point, size: Size): (p: seq<Point>)
    ensures |p| == 6
    ensures p[0] == Point(c.x, c.y + size.h / 2.0) && p[3] == Point(c.x, c.y - size.h / 2.0)
    ensures forall i :: 0 <= i < 6 && i != 0 && i != 3 ==> (p[i].x - c.x) * (p[i].x - c.x) == size.w * size.w / 4.0
  {
    var s := size.h * 0.5;
    var hx := size.w * 0.5;
    var hy := s * 0.5;
    [ Plus(c, Point(0.0, s)),
      Plus(c, Point(hx, hy)),
      Plus(c, Point(hx, -hy)),
      Plus(c, Point(0.0, -s)),
      Plus(c, Point(-hx, -hy)),
      Plus(c, Point(-hx, hy)) ]
  }

  /** The 7 positions of a hover outline: the six vertices, then the first again to close the loop. */
  function ClosedOutline(c: Point, size: Size): (o: seq<Point>)
    ensures |o| == 7 && o[6] == o[0]
    ensures o[..6] == HexVertices(c, size)
  {
    var p := HexVertices(c, size);
    p + [p[0]]
  }

  /** Opposite vertices are point-symmetric about the centre. */
  lemma HexPointSymmetric(c: Point, size: Size)
    ensures forall i :: 0 <= i < 6 ==>
      Minus(HexVertices(c, size)[(i + 3) % 6], c) == Neg(Minus(HexVertices(c, size)[i], c))
  {
  }

  /** The hexagon is mirror-symmetric about the vertical line through its centre:
      top and bottom lie on it, and upper right/upper left, lower right/lower left
      have the same height and opposite horizontal offsets. */
  lemma HexMirrorSymmetric(c: Point, size: Size)
    ensures var p := HexVertices(c, size);
      && p[0].x == c.x && p[3].x == c.x
      && p[1].y == p[5].y && p[1].x - c.x == c.x - p[5].x
      && p[2].y == p[4].y && p[2].x - c.x == c.x - p[4].x
  {
  }

  /** Top and bottom vertices lie h/2 from the centre; the four others lie
      sqrt((w/2)^2 + (h/4)^2) from it. */
  lemma HexRadii(c: Point, size: Size)
    ensures forall i :: 0 <= i < 6 ==>
      SqDist(HexVertices(c, size)[i], c) ==
        if i == 0 || i == 3 then size.h * size.h / 4.0
        else size.w * size.w / 4.0 + size.h * size.h / 16.0
  {
  }

  /** Twice the signed area of a closed polygon given by the offsets of its vertices
      (the shoelace sum over the edges (q[k], q[(k + 1) % |q|]) for k < n). */
  function ShoelaceSum(q: seq<Point>, n: nat): real
    requires n <= |q|
  {
    if n == 0 then 0.0
    else ShoelaceSum(q, n - 1) + Cross(q[n - 1], q[n % |q|])
  }

  function Cross(a: Point, b: Point): real { a.x * b.y - b.x * a.y }

  function Offsets(p: seq<Point>, c: Point): (q: seq<Point>)
    ensures |q| == |p| && forall i :: 0 <= i < |p| ==> q[i] == Minus(p[i], c)
  {
    seq(|p|, i requires 0 <= i < |p| => Minus(p[i], c))
  }

  /** The vertices run clockwise: the hexagon's signed area is -(3/4) * w * h,
      negative for a positive cell size. */
  lemma HexClockwise(c: Point, size: Size)
    ensures ShoelaceSum(Offsets(HexVertices(c, size), c), 6) == -1.5 * size.w * size.h
  {
    var q := Offsets(HexVertices(c, size), c);
    var s := size.h * 0.5;
    var hx := size.w * 0.5;
    var hy := s * 0.5;
    assert q == [Point(0.0, s), Point(hx, hy), Point(hx, -hy), Point(0.0, -s), Point(-hx, -hy), Point(-hx, hy)];
    assert Cross(q[0], q[1]) == -hx * s;
    assert Cross(q[1], q[2]) == -2.0 * hx * hy;
    assert Cross(q[2], q[3]) == -hx * s;
    assert Cross(q[3], q[4]) == -hx * s;
    assert Cross(q[4], q[5]) == -2.0 * hx * hy;
    assert Cross(q[5], q[0]) == -hx * s;
    assert ShoelaceSum(q, 1) == -hx * s;
    assert ShoelaceSum(q, 2) == -hx * s - 2.0 * hx * hy;
    assert ShoelaceSum(q, 3) == -2.0 * hx * s - 2.0 * hx * hy;
    assert ShoelaceSum(q, 4) == -3.0 * hx * s - 2.0 * hx * hy;
    assert ShoelaceSum(q, 5) == -3.0 * hx * s - 4.0 * hx * hy;
    assert ShoelaceSum(q, 6) == -4.0 * hx * s - 4.0 * hx * hy;
  }

  /** The point just outside side i of the hexagon around `c`: the side's midpoint pushed
      out from the centre by a factor of 1.2. Side i runs from vertex i to vertex (i + 1) % 6. */
  function SidePoint(c: Point, size: Size, i: int): (r: Point)
    requires 0 <= i < 6
    ensures var p := HexVertices(c, size);
      Minus(r, c) == Times(Plus(Minus(p[i], c), Minus(p[(i + 1) % 6], c)), 0.6)
  {
    var p := HexVertices(c, size);
    var mid := Times(Plus(p[i], p[(i + 1) % 6]), 0.5);
    Plus(c, Times(Minus(mid, c), 1.2))
  }

  /** Opposite sides are probed in opposite directions from the centre. */
  lemma {:induction false} SidePointOpposite(c: Point, size: Size, i: int)
    requires 0 <= i < 6
    ensures Minus(SidePoint(c, size, (i + 3) % 6), c) == Neg(Minus(SidePoint(c, size, i), c))
  {
    var p := HexVertices(c, size);
    HexPointSymmetric(c, size);
    var j := (i + 3) % 6;
    assert (j + 1) % 6 == ((i + 1) % 6 + 3) % 6;
    assert Minus(p[j], c) == Neg(Minus(p[i], c));
    assert Minus(p[(j + 1) % 6], c) == Neg(Minus(p[(i + 1) % 6], c));
  }

  // ---------------------------------------------------------------------------
  // The startup fill

  /** C#'s `n / 2` on int, which truncates toward zero. */
  function HalfTowardZero(n: int): (r: int)
    ensures n >= 0 ==> 0 <= r && 2 * r <= n < 2 * r + 2
    ensures n < 0 ==> r <= 0 && 2 * r - 2 < n <= 2 * r
  {
    if n >= 0 then n / 2 else -((-n) / 2)
  }

  /** How many times `for (int k = 0; k < n; k++)` runs. */
  function Count(n: int): nat { if n > 0 then n else 0 }

  /** The first `n` cells of row `y` from column `x0`, set to `t`, in loop order. */
  function PaintRow(m: Tiles, x0: int, y: int, n: nat, t: Tile): Tiles
  {
    if n == 0 then m else PaintRow(m, x0, y, n - 1, t)[Cell(x0 + n - 1, y) := t]
  }

  /** The first `rows` rows of the rectangle at (x0, y0), `w` cells wide, set to `t`, row by row. */
  function PaintRect(m: Tiles, x0: int, y0: int, w: nat, rows: nat, t: Tile): Tiles
  {
    if rows == 0 then m else PaintRow(PaintRect(m, x0, y0, w, rows - 1, t), x0, y0 + rows - 1, w, t)
  }

  predicate InRect(c: Cell, x0: int, y0: int, w: int, h: int)
  {
    x0 <= c.x < x0 + w && y0 <= c.y < y0 + h
  }

  lemma {:induction false} PaintRowAt(m: Tiles, x0: int, y: int, n: nat, t: Tile)
    ensures forall c :: c in PaintRow(m, x0, y, n, t) <==> c in m || InRect(c, x0, y, n, 1)
    ensures forall c :: c in PaintRow(m, x0, y, n, t) ==>
      PaintRow(m, x0, y, n, t)[c] == if InRect(c, x0, y, n, 1) then t else m[c]
  {
    if n > 0 {
      PaintRowAt(m, x0, y, n - 1, t);
    }
  }

  lemma {:induction false} PaintRectAt(m: Tiles, x0: int, y0: int, w: nat, rows: nat, t: Tile)
    ensures forall c :: c in PaintRect(m, x0, y0, w, rows, t) <==> c in m || InRect(c, x0, y0, w, rows)
    ensures forall c :: c in PaintRect(m, x0, y0, w, rows, t) ==>
      PaintRect(m, x0, y0, w, rows, t)[c] == if InRect(c, x0, y0, w, rows) then t else m[c]
  {
    if rows > 0 {
      PaintRectAt(m, x0, y0, w, rows - 1, t);
      PaintRowAt(PaintRect(m, x0, y0, w, rows - 1, t), x0, y0 + rows - 1, w, t);
    }
  }

  /** Painting cells the map does not hold yet adds exactly w * rows of them. */
  lemma {:induction false} PaintRectSize(m: Tiles, x0: int, y0: int, w: nat, rows: nat, t: Tile)
    requires forall c :: c in m ==> !InRect(c, x0, y0, w, rows)
    ensures |PaintRect(m, x0, y0, w, rows, t)| == |m| + w * rows
  {
    if rows > 0 {
      var prev := PaintRect(m, x0, y0, w, rows - 1, t);
      PaintRectSize(m, x0, y0, w, rows - 1, t);
      PaintRectAt(m, x0, y0, w, rows - 1, t);
      PaintRowSize(prev, x0, y0 + rows - 1, w, t);
      assert |prev| + w == |m| + w * (rows - 1) + w;
    }
  }

  lemma {:induction false} PaintRowSize(m: Tiles, x0: int, y: int, n: nat, t: Tile)
    requires forall c :: c in m ==> !InRect(c, x0, y, n, 1)
    ensures |PaintRow(m, x0, y, n, t)| == |m| + n
  {
    if n > 0 {
      PaintRowSize(m, x0, y, n - 1, t);
      PaintRowAt(m, x0, y, n - 1, t);
      assert Cell(x0 + n - 1, y) !in PaintRow(m, x0, y, n - 1, t);
    }
  }

  /** The first cell of the fill: the origin moved back by half the width and half the height. */
  function FillStart(origin: Cell, width: int, height: int): Cell
  {
    Cell(origin.x - HalfTowardZero(width), origin.y - HalfTowardZero(height))
  }

  predicate InFill(c: Cell, origin: Cell, width: int, height: int)
  {
    var s := FillStart(origin, width, height);
    InRect(c, s.x, s.y, width, height)
  }

  /** The tilemap after the startup fill: the width x height rectangle painted with
      `sea`, then the origin cell overwritten with `base` when a base tile is assigned. */
  function Filled(m: Tiles, origin: Cell, width: int, height: int, sea: Tile, base: Option<Tile>): Tiles
  {
    var s := FillStart(origin, width, height);
    var r := PaintRect(m, s.x, s.y, Count(width), Count(height), sea);
    if base.Some? then r[origin := base.value] else r
  }

  /** Start's fill of the tilemap m: every cell of the width x height rectangle centred
      (by truncating division) on origin is set to `sea`, row by row from the bottom, and
      then the origin cell is set to `base` when one is assigned. */
  method FillBuildArea(m: Tiles, origin: Cell, width: int, height: int, sea: Tile, base: Option<Tile>)
    returns (r: Tiles)
    ensures r == Filled(m, origin, width, height, sea, base)
  {
    var startX := origin.x - HalfTowardZero(width);
    var startY := origin.y - HalfTowardZero(height);
    var w := Count(width);
    r := m;
    var y := 0;
    while y < height
      invariant 0 <= y <= Count(height)
      invariant r == PaintRect(m, startX, startY, w, y, sea)
    {
      var x := 0;
      while x < width
        invariant 0 <= x <= w
        invariant r == PaintRow(PaintRect(m, startX, startY, w, y, sea), startX, startY + y, x, sea)
      {
        r := r[Cell(startX + x, startY + y) := sea];
        x := x + 1;
      }
      y := y + 1;
    }
    if base.Some? {
      r := r[origin := base.value];
    }
  }

  /** The fill's effect cell by cell: the origin holds base (when assigned), every other
      cell of the rectangle holds sea, every cell outside is as before; for a rectangle of
      at least one cell the origin lies inside it. */
  lemma FilledAt(m: Tiles, origin: Cell, width: int, height: int, sea: Tile, base: Option<Tile>)
    ensures var r := Filled(m, origin, width, height, sea, base);
      && (base.Some? ==> origin in r && r[origin] == base.value)
      && (forall c :: c != origin && InFill(c, origin, width, height) ==> c in r && r[c] == sea)
      && (forall c :: c != origin && !InFill(c, origin, width, height) ==> Lookup(r, c) == Lookup(m, c))
      && (base.None? ==> Lookup(r, origin) == if InFill(origin, origin, width, height) then Some(sea) else Lookup(m, origin))
      && m.Keys <= r.Keys
    ensures width >= 1 && height >= 1 ==> InFill(origin, origin, width, height)
  {
    var s := FillStart(origin, width, height);
    PaintRectAt(m, s.x, s.y, Count(width), Count(height), sea);
    forall c ensures InRect(c, s.x, s.y, Count(width), Count(height)) == InFill(c, origin, width, height) {
    }
  }

  /** Filling an empty tilemap with a distinct base tile gives exactly width * height
      tiles, of which the origin is the only base tile. */
  lemma FilledFromEmpty(origin: Cell, width: int, height: int, sea: Tile, base: Tile)
    requires width >= 1 && height >= 1 && base != sea
    ensures var r := Filled(map[], origin, width, height, sea, Some(base));
      |r| == width * height && forall c :: c in r ==> (r[c] == base <==> c == origin)
  {
    var s := FillStart(origin, width, height);
    var painted := PaintRect(map[], s.x, s.y, width, height, sea);
    PaintRectSize(map[], s.x, s.y, width, height, sea);
    PaintRectAt(map[], s.x, s.y, width, height, sea);
    FilledAt(map[], origin, width, height, sea, Some(base));
    assert origin in painted;
    assert |painted[origin := base]| == |painted|;
  }
}
