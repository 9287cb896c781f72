/** What a full rebuild of the base/sea border lines produces, as a function of the
    tilemap's contents: the scan order of the rebuild (rows of the bounds bottom to top,
    cells left to right, sides 0 to 5) and which sides it draws. */
module Borders {
  import opened HexGrid

  /** A border line, kept as its two endpoints. */
  datatype Segment = Segment(a: Point, b: Point)

  /** The cell the rebuild finds beyond side i of cell c: the cell holding the point just
      outside that side's midpoint. */
  function Neighbour(L: Layout, c: Cell, i: int): Cell
    requires 0 <= i < 6
  {
    L.worldToCell(SidePoint(L.center(c), L.cellSize, i))
  }

  /** Side i of cell c: the segment from vertex i to vertex (i + 1) % 6. The border lines
      and the hover outline are drawn from the same vertices, so side i is the i-th
      stretch of the cell's closed outline. */
  function Edge(L: Layout, c: Cell, i: int): (s: Segment)
    requires 0 <= i < 6
    ensures var o := ClosedOutline(L.center(c), L.cellSize); s == Segment(o[i], o[i + 1])
  {
    var p := HexVertices(L.center(c), L.cellSize);
    Segment(p[i], p[(i + 1) % 6])
  }

  /** Consecutive sides chain: each side ends where the next one begins, and side 5 ends
      where side 0 begins. */
  lemma EdgesChain(L: Layout, c: Cell, i: int)
    requires 0 <= i < 6
    ensures Edge(L, c, i).b == Edge(L, c, (i + 1) % 6).a
  {
  }

  /** Side i of c faces sea: the tile found beyond it is the configured sea tile. */
  predicate SeaSide(L: Layout, pal: Palette, tiles: Tiles, c: Cell, i: int)
  {
    0 <= i < 6 && Lookup(tiles, Neighbour(L, c, i)) == pal.seaTile
  }

  /** The segments drawn for sides 0 .. n-1 of cell c, in order. */
  function SideSegments(L: Layout, pal: Palette, tiles: Tiles, c: Cell, n: nat): seq<Segment>
    requires n <= 6
  {
    if n == 0 then [] else
      var drawn := if SeaSide(L, pal, tiles, c, n - 1) then [Edge(L, c, n - 1)] else [];
      SideSegments(L, pal, tiles, c, n - 1) + drawn
  }

  /** The segments drawn for cell c: its sea-facing sides when it holds the base tile, else none. */
  function CellSegments(L: Layout, pal: Palette, tiles: Tiles, c: Cell): seq<Segment>
  {
    if Lookup(tiles, c) == pal.baseTile then SideSegments(L, pal, tiles, c, 6) else []
  }

  /** The segments drawn for the cells of row y of bounds b left of column x, in order. */
  function RowSegments(L: Layout, pal: Palette, tiles: Tiles, b: Rect, y: int, x: int): seq<Segment>
    decreases x - b.xMin
  {
    if x <= b.xMin then []
    else RowSegments(L, pal, tiles, b, y, x - 1) + CellSegments(L, pal, tiles, Cell(x - 1, y))
  }

  /** The segments drawn for the whole of row y of bounds b. */
  function RowOf(L: Layout, pal: Palette, tiles: Tiles, b: Rect, y: int): seq<Segment>
  {
    RowSegments(L, pal, tiles, b, y, b.xMax)
  }

  /** The segments drawn for the rows of bounds b below row y, in order. */
  function RectSegments(L: Layout, pal: Palette, tiles: Tiles, b: Rect, y: int): seq<Segment>
    decreases y - b.yMin
  {
    if y <= b.yMin then []
    else RectSegments(L, pal, tiles, b, y - 1) + RowOf(L, pal, tiles, b, y - 1)
  }

  /** The border lines a full rebuild leaves behind for the tilemap `tiles`. */
  function BordersOf(L: Layout, pal: Palette, tiles: Tiles): seq<Segment>
  {
    var b := L.bounds(tiles);
    RectSegments(L, pal, tiles, b, b.yMax)
  }

  /** Side i of cell c, inside bounds b, separates a base cell from a sea cell. */
  ghost predicate IsBorderEdge(L: Layout, pal: Palette, tiles: Tiles, b: Rect, c: Cell, i: int)
  {
    InBounds(c, b) && Lookup(tiles, c) == pal.baseTile && SeaSide(L, pal, tiles, c, i)
  }

  // ---------------------------------------------------------------------------
  // One cell

  lemma {:induction false} SideSegmentsMembers(L: Layout, pal: Palette, tiles: Tiles, c: Cell, n: nat)
    requires n <= 6
    ensures |SideSegments(L, pal, tiles, c, n)| <= n
    ensures forall s :: s in SideSegments(L, pal, tiles, c, n) <==>
      exists i :: 0 <= i < n && SeaSide(L, pal, tiles, c, i) && s == Edge(L, c, i)
  {
    if n > 0 {
      SideSegmentsMembers(L, pal, tiles, c, n - 1);
    }
  }

  /** A cell contributes at most six segments. */
  lemma CellSegmentsAtMostSix(L: Layout, pal: Palette, tiles: Tiles, c: Cell)
    ensures |CellSegments(L, pal, tiles, c)| <= 6
  {
    SideSegmentsMembers(L, pal, tiles, c, 6);
  }

  /** A base cell whose six sides all face sea contributes all six sides, in order. */
  lemma CellSegmentsAllSea(L: Layout, pal: Palette, tiles: Tiles, c: Cell)
    requires Lookup(tiles, c) == pal.baseTile
    requires forall i :: 0 <= i < 6 ==> SeaSide(L, pal, tiles, c, i)
    ensures CellSegments(L, pal, tiles, c) ==
      [Edge(L, c, 0), Edge(L, c, 1), Edge(L, c, 2), Edge(L, c, 3), Edge(L, c, 4), Edge(L, c, 5)]
  {
    assert SideSegments(L, pal, tiles, c, 1) == [Edge(L, c, 0)] by {
      assert SeaSide(L, pal, tiles, c, 0);
    }
    assert SideSegments(L, pal, tiles, c, 2) == SideSegments(L, pal, tiles, c, 1) + [Edge(L, c, 1)] by {
      assert SeaSide(L, pal, tiles, c, 1);
    }
    assert SideSegments(L, pal, tiles, c, 3) == SideSegments(L, pal, tiles, c, 2) + [Edge(L, c, 2)] by {
      assert SeaSide(L, pal, tiles, c, 2);
    }
    assert SideSegments(L, pal, tiles, c, 4) == SideSegments(L, pal, tiles, c, 3) + [Edge(L, c, 3)] by {
      assert SeaSide(L, pal, tiles, c, 3);
    }
    assert SideSegments(L, pal, tiles, c, 5) == SideSegments(L, pal, tiles, c, 4) + [Edge(L, c, 4)] by {
      assert SeaSide(L, pal, tiles, c, 4);
    }
    assert SideSegments(L, pal, tiles, c, 6) == SideSegments(L, pal, tiles, c, 5) + [Edge(L, c, 5)] by {
      assert SeaSide(L, pal, tiles, c, 5);
    }
  }

  /** A cell none of whose sides faces sea contributes nothing. */
  lemma {:induction false} CellSegmentsNoSea(L: Layout, pal: Palette, tiles: Tiles, c: Cell)
    requires forall i :: 0 <= i < 6 ==> !SeaSide(L, pal, tiles, c, i)
    ensures CellSegments(L, pal, tiles, c) == []
  {
    SideSegmentsNoSea(L, pal, tiles, c, 6);
  }

  lemma {:induction false} SideSegmentsNoSea(L: Layout, pal: Palette, tiles: Tiles, c: Cell, n: nat)
    requires n <= 6
    requires forall i :: 0 <= i < n ==> !SeaSide(L, pal, tiles, c, i)
    ensures SideSegments(L, pal, tiles, c, n) == []
  {
    if n > 0 {
      SideSegmentsNoSea(L, pal, tiles, c, n - 1);
    }
  }

  /** A cell's segments depend only on its own tile and the tiles beyond its six sides. */
  lemma {:induction false} CellSegmentsLocal(L: Layout, pal: Palette, t1: Tiles, t2: Tiles, c: Cell)
    requires Lookup(t1, c) == Lookup(t2, c)
    requires forall i :: 0 <= i < 6 ==> Lookup(t1, Neighbour(L, c, i)) == Lookup(t2, Neighbour(L, c, i))
    ensures CellSegments(L, pal, t1, c) == CellSegments(L, pal, t2, c)
  {
    SideSegmentsLocal(L, pal, t1, t2, c, 6);
  }

  lemma {:induction false} SideSegmentsLocal(L: Layout, pal: Palette, t1: Tiles, t2: Tiles, c: Cell, n: nat)
    requires n <= 6
    requires forall i :: 0 <= i < 6 ==> Lookup(t1, Neighbour(L, c, i)) == Lookup(t2, Neighbour(L, c, i))
    ensures SideSegments(L, pal, t1, c, n) == SideSegments(L, pal, t2, c, n)
  {
    if n > 0 {
      SideSegmentsLocal(L, pal, t1, t2, c, n - 1);
    }
  }

  // ---------------------------------------------------------------------------
  // The whole bounds

  lemma {:induction false} RowSegmentsMembers(L: Layout, pal: Palette, tiles: Tiles, b: Rect, y: int, x: int)
    decreases x - b.xMin
    ensures forall s :: s in RowSegments(L, pal, tiles, b, y, x) <==>
      exists x' :: b.xMin <= x' < x && s in CellSegments(L, pal, tiles, Cell(x', y))
  {
    if x > b.xMin {
      RowSegmentsMembers(L, pal, tiles, b, y, x - 1);
    }
  }

  lemma {:induction false} RectSegmentsMembers(L: Layout, pal: Palette, tiles: Tiles, b: Rect, y: int)
    decreases y - b.yMin
    ensures forall s :: s in RectSegments(L, pal, tiles, b, y) <==>
      exists y' :: b.yMin <= y' < y && s in RowOf(L, pal, tiles, b, y')
  {
    if y > b.yMin {
      RectSegmentsMembers(L, pal, tiles, b, y - 1);
    }
  }

  /** Every line a rebuild draws is side i of a base cell inside the bounds whose side-i
      neighbour holds the sea tile. */
  lemma BordersSound(L: Layout, pal: Palette, tiles: Tiles, s: Segment)
    requires s in BordersOf(L, pal, tiles)
    ensures exists c, i :: IsBorderEdge(L, pal, tiles, L.bounds(tiles), c, i) && s == Edge(L, c, i)
  {
    var b := L.bounds(tiles);
    RectSegmentsMembers(L, pal, tiles, b, b.yMax);
    var y :| b.yMin <= y < b.yMax && s in RowOf(L, pal, tiles, b, y);
    RowSegmentsMembers(L, pal, tiles, b, y, b.xMax);
    var x :| b.xMin <= x < b.xMax && s in CellSegments(L, pal, tiles, Cell(x, y));
    var c := Cell(x, y);
    assert Lookup(tiles, c) == pal.baseTile;
    SideSegmentsMembers(L, pal, tiles, c, 6);
    var i :| 0 <= i < 6 && SeaSide(L, pal, tiles, c, i) && s == Edge(L, c, i);
    assert IsBorderEdge(L, pal, tiles, b, c, i);
  }

  /** Conversely, every base/sea side of a base cell inside the bounds is drawn. */
  lemma BordersComplete(L: Layout, pal: Palette, tiles: Tiles, c: Cell, i: int)
    requires IsBorderEdge(L, pal, tiles, L.bounds(tiles), c, i)
    ensures Edge(L, c, i) in BordersOf(L, pal, tiles)
  {
    var b := L.bounds(tiles);
    var s := Edge(L, c, i);
    assert s in CellSegments(L, pal, tiles, c) by {
      SideSegmentsMembers(L, pal, tiles, c, 6);
    }
    assert s in RowOf(L, pal, tiles, b, c.y) by {
      RowSegmentsMembers(L, pal, tiles, b, c.y, b.xMax);
      assert c == Cell(c.x, c.y);
    }
    RectSegmentsMembers(L, pal, tiles, b, b.yMax);
  }

  /** When the bounds cover every occupied cell (as CompressBounds makes them), a base cell
      surrounded by sea on all six sides gets all six of its sides drawn. */
  lemma IsolatedBaseFullyBordered(L: Layout, pal: Palette, tiles: Tiles, c: Cell)
    requires c in tiles && Some(tiles[c]) == pal.baseTile
    requires forall d :: d in tiles ==> InBounds(d, L.bounds(tiles))
    requires forall i :: 0 <= i < 6 ==> SeaSide(L, pal, tiles, c, i)
    ensures forall i :: 0 <= i < 6 ==> Edge(L, c, i) in BordersOf(L, pal, tiles)
  {
    forall i | 0 <= i < 6 ensures Edge(L, c, i) in BordersOf(L, pal, tiles) {
      BordersComplete(L, pal, tiles, c, i);
    }
  }
}
