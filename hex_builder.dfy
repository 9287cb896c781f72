/** The hex map editor component of HexSeaBuilderAndHighlighter.cs: startup sea fill,
    edit mode with observers, hover outline and translucent base preview, brush
    placement on click and the base/sea border lines rebuilt after every change. */
module HexBuilder {
  import opened HexGrid
  import opened Borders

  /** The references and build-area size assigned in the inspector.
      A `has…` flag is false when that reference was left unassigned (null). */
  datatype Config = Config(
    palette: Palette,
    width: int,
    height: int,
    hasTilemap: bool,
    hasPreviewTilemap: bool,
    hasCamera: bool)

  class HexSeaBuilderAndHighlighter {
    const cfg: Config
    /** The tilemap's engine queries (cell centres, WorldToCell, compressed bounds, cell size). */
    const layout: Layout
    /** The hover outline's seven positions. */
    const hoverLine: array<Point>

    /** The main tilemap's contents. */
    var tiles: Tiles
    /** The translucent preview tilemap's contents. */
    var preview: Tiles
    var editMode: bool
    var selectedBrush: Option<Tile>
    /** The last hovered cell, or NoCell. */
    var lastCell: Cell
    /** Whether the hover outline is shown. */
    var hoverEnabled: bool
    /** The border lines currently drawn, in creation order. */
    var borders: seq<Segment>
    /** The values passed to OnEditModeChanged, oldest first. */
    var notifications: seq<bool>

    /** The object invariant: the outline has seven positions; the preview holds at most one
        tile, always the base tile; the outline and the preview are shown only in edit mode
        over an occupied cell, and whenever the outline is shown or a cell is remembered it
        traces that cell. */
    ghost predicate Valid()
      reads this, hoverLine
    {
      && hoverLine.Length == 7
      && (!cfg.hasPreviewTilemap ==> preview == map[])
      && |preview| <= 1
      && (forall c :: c in preview ==> Some(preview[c]) == cfg.palette.baseTile && c in tiles)
      && (!editMode ==> preview == map[])
      && (hoverEnabled ==> editMode && lastCell in tiles)
      && (hoverEnabled || lastCell != NoCell ==>
            hoverLine[..] == ClosedOutline(layout.center(lastCell), layout.cellSize))
    }

    /** The per-frame and click handlers run only in edit mode with a tilemap and a camera. */
    predicate Active()
      reads this
    {
      editMode && cfg.hasTilemap && cfg.hasCamera
    }

    /** The preview overlay showing the base tile at c (empty without an overlay or a base tile). */
    function PreviewAt(c: Cell): (m: Tiles)
      ensures m.Keys <= {c} && (c in m <==> cfg.hasPreviewTilemap && cfg.palette.baseTile.Some?)
      ensures c in m ==> Some(m[c]) == cfg.palette.baseTile
    {
      if cfg.hasPreviewTilemap && cfg.palette.baseTile.Some? then map[c := cfg.palette.baseTile.value] else map[]
    }

    /** The preview a hover over a new cell c leaves: the base tile at c while the base brush
        is selected, else nothing. */
    function HoverPreview(c: Cell): (m: Tiles)
      reads this
      ensures m.Keys <= {c} && (c in m <==> selectedBrush == cfg.palette.baseTile && selectedBrush.Some? && cfg.hasPreviewTilemap)
      ensures c in m ==> Some(m[c]) == selectedBrush
    {
      if selectedBrush == cfg.palette.baseTile && cfg.hasPreviewTilemap && cfg.palette.baseTile.Some?
      then PreviewAt(c) else map[]
    }

    /** A click on cell c places the brush. */
    predicate CanPlace(c: Cell)
      reads this
    {
      Active() && selectedBrush.Some? && c in tiles
    }

    /** The state after Awake: edit mode off, no brush, nothing hovered, no border lines. */
    constructor (cfg: Config, layout: Layout, scene: Tiles)
      ensures Valid() && fresh(hoverLine)
      ensures this.cfg == cfg && this.layout == layout
      ensures tiles == scene && preview == map[] && borders == [] && notifications == []
      ensures !editMode && selectedBrush == None && lastCell == NoCell && !hoverEnabled
    {
      this.cfg := cfg;
      this.layout := layout;
      hoverLine := new Point[7](_ => Point(0.0, 0.0));
      tiles := scene;
      preview := map[];
      editMode := false;
      selectedBrush := None;
      lastCell := NoCell;
      hoverEnabled := false;
      borders := [];
      notifications := [];
    }

    /** Startup: without a tilemap or a sea tile nothing happens; otherwise the build area
        around `origin` (the cell under the player, or under the world origin) is filled with
        sea, the origin becomes base, the brush is cleared and the borders are built. */
    method Start(origin: Cell)
      requires Valid()
      modifies this
      ensures Valid()
      ensures if !cfg.hasTilemap || cfg.palette.seaTile.None? then
          tiles == old(tiles) && selectedBrush == old(selectedBrush) && borders == old(borders)
        else
          && tiles == Filled(old(tiles), origin, cfg.width, cfg.height, cfg.palette.seaTile.value, cfg.palette.baseTile)
          && selectedBrush == None
          && borders == BordersOf(layout, cfg.palette, tiles)
      ensures preview == old(preview) && editMode == old(editMode) && lastCell == old(lastCell)
      ensures hoverEnabled == old(hoverEnabled) && notifications == old(notifications)
    {
      if !cfg.hasTilemap || cfg.palette.seaTile.None? {
        return;
      }
      var filled := FillBuildArea(tiles, origin, cfg.width, cfg.height, cfg.palette.seaTile.value, cfg.palette.baseTile);
      FilledAt(tiles, origin, cfg.width, cfg.height, cfg.palette.seaTile.value, cfg.palette.baseTile);
      tiles := filled;
      selectedBrush := None;
      RebuildBaseBorders();
    }

    /** The toggle key: flips edit mode, hides the outline and clears the preview when
        leaving edit mode, and notifies observers once with the new value. */
    method ToggleEditMode()
      requires Valid()
      modifies this
      ensures Valid()
      ensures editMode == !old(editMode)
      ensures notifications == old(notifications) + [editMode]
      ensures !editMode ==> !hoverEnabled && preview == map[]
      ensures editMode ==> hoverEnabled == old(hoverEnabled) && preview == old(preview)
      ensures tiles == old(tiles) && selectedBrush == old(selectedBrush) && lastCell == old(lastCell)
      ensures borders == old(borders)
    {
      editMode := !editMode;
      if !editMode {
        hoverEnabled := false;
        ClearPreview();
      }
      notifications := notifications + [editMode];
    }

    /** ToggleEditMode that also forgets the hovered cell when leaving edit mode, so that
        the next frame in edit mode redraws the outline even over the same cell. */
    method ToggleEditModeCorrected()
      requires Valid()
      modifies this
      ensures Valid()
      ensures editMode == !old(editMode)
      ensures notifications == old(notifications) + [editMode]
      ensures !editMode ==> !hoverEnabled && preview == map[] && lastCell == NoCell
      ensures editMode ==> hoverEnabled == old(hoverEnabled) && preview == old(preview) && lastCell == old(lastCell)
      ensures tiles == old(tiles) && selectedBrush == old(selectedBrush) && borders == old(borders)
    {
      editMode := !editMode;
      if !editMode {
        hoverEnabled := false;
        lastCell := NoCell;
        ClearPreview();
      }
      notifications := notifications + [editMode];
    }

    /** A brush button: records the brush and switches edit mode on if it was off. */
    method SelectBrushTile(tile: Option<Tile>)
      requires Valid()
      modifies this
      ensures Valid()
      ensures selectedBrush == tile && editMode
      ensures notifications == if old(editMode) then old(notifications) else old(notifications) + [true]
      ensures tiles == old(tiles) && preview == old(preview) && lastCell == old(lastCell)
      ensures hoverEnabled == old(hoverEnabled) && borders == old(borders)
    {
      selectedBrush := tile;
      if !editMode {
        ToggleEditMode();
      }
    }

    /** One frame with the pointer over `cell`. */
    method Update(cell: Cell)
      requires Valid()
      modifies this, hoverLine
      ensures Valid()
      ensures tiles == old(tiles) && editMode == old(editMode) && selectedBrush == old(selectedBrush)
      ensures borders == old(borders) && notifications == old(notifications)
      ensures !old(Active()) || (cell in tiles && cell == old(lastCell)) ==>
        && lastCell == old(lastCell) && hoverEnabled == old(hoverEnabled)
        && preview == old(preview) && hoverLine[..] == old(hoverLine[..])
      ensures old(Active()) && cell !in tiles ==>
        !hoverEnabled && lastCell == NoCell && preview == map[] && hoverLine[..] == old(hoverLine[..])
      ensures old(Active()) && cell in tiles && cell != old(lastCell) ==>
        && lastCell == cell && hoverEnabled
        && hoverLine[..] == ClosedOutline(layout.center(cell), layout.cellSize)
        && preview == HoverPreview(cell)
    {
      if !editMode || !cfg.hasTilemap || !cfg.hasCamera {
        return;
      }
      if cell !in tiles {
        hoverEnabled := false;
        lastCell := NoCell;
        ClearPreview();
        return;
      }
      if cell != lastCell {
        lastCell := cell;
        UpdateHexOutline(cell);
        hoverEnabled := true;
        if selectedBrush == cfg.palette.baseTile && cfg.hasPreviewTilemap && cfg.palette.baseTile.Some? {
          ShowPreview(cell);
        } else {
          ClearPreview();
        }
      }
    }

    /** A click with the pointer over `cell`: in edit mode, with a brush and an occupied
        cell, writes the brush into that cell only, re-shows the preview there for the base
        brush, and rebuilds every border line; otherwise does nothing. */
    method TryPlaceBrushAtMouse(cell: Cell)
      requires Valid()
      modifies this
      ensures Valid()
      ensures !old(CanPlace(cell)) ==>
        tiles == old(tiles) && preview == old(preview) && borders == old(borders)
      ensures old(CanPlace(cell)) ==>
        && tiles == old(tiles)[cell := old(selectedBrush).value]
        && tiles.Keys == old(tiles).Keys
        && borders == BordersOf(layout, cfg.palette, tiles)
        && preview == if selectedBrush == cfg.palette.baseTile then PreviewAt(cell) else old(preview)
      ensures editMode == old(editMode) && selectedBrush == old(selectedBrush) && lastCell == old(lastCell)
      ensures hoverEnabled == old(hoverEnabled) && notifications == old(notifications)
    {
      if !editMode || selectedBrush.None? || !cfg.hasTilemap || !cfg.hasCamera {
        return;
      }
      if cell !in tiles {
        return;
      }
      tiles := tiles[cell := selectedBrush.value];
      if selectedBrush == cfg.palette.baseTile {
        ShowPreview(cell);
      }
      RebuildBaseBorders();
    }

    /** Shows the base tile, translucent, at `cell` and nowhere else on the preview tilemap. */
    method ShowPreview(cell: Cell)
      modifies this`preview
      ensures preview == if cfg.hasPreviewTilemap && cfg.palette.baseTile.Some? then PreviewAt(cell) else old(preview)
    {
      if !cfg.hasPreviewTilemap || cfg.palette.baseTile.None? {
        return;
      }
      preview := map[];
      preview := preview[cell := cfg.palette.baseTile.value];
    }

    /** Empties the preview tilemap, if there is one. */
    method ClearPreview()
      modifies this`preview
      ensures preview == if cfg.hasPreviewTilemap then map[] else old(preview)
    {
      if cfg.hasPreviewTilemap {
        preview := map[];
      }
    }

    /** Writes the closed hexagon around `cell` into the outline's seven positions. */
    method UpdateHexOutline(cell: Cell)
      requires hoverLine.Length == 7
      modifies hoverLine
      ensures hoverLine[..] == ClosedOutline(layout.center(cell), layout.cellSize)
    {
      var c := layout.center(cell);
      var p := HexVertices(c, layout.cellSize);
      hoverLine[0] := p[0];
      hoverLine[1] := p[1];
      hoverLine[2] := p[2];
      hoverLine[3] := p[3];
      hoverLine[4] := p[4];
      hoverLine[5] := p[5];
      hoverLine[6] := p[0];
      assert hoverLine[..] == p + [p[0]];
    }

    /** Discards every border line and draws one along each side of a base cell inside the
        compressed bounds whose neighbour beyond that side holds the sea tile. */
    method RebuildBaseBorders()
      modifies this`borders
      ensures borders == BordersOf(layout, cfg.palette, tiles)
    {
      borders := ScanBorders(layout, cfg.palette, tiles);
    }
  }

  /** The rebuild's scan: rows of the tilemap's bounds from bottom to top, each row from
      left to right, collecting the border lines in the order the rebuild adds them. */
  method ScanBorders(L: Layout, pal: Palette, tiles: Tiles) returns (segs: seq<Segment>)
    ensures segs == BordersOf(L, pal, tiles)
  {
    var b := L.bounds(tiles);
    segs := [];
    var y := b.yMin;
    while y < b.yMax
      invariant b.yMin <= y && (y <= b.yMax || y == b.yMin)
      invariant segs == RectSegments(L, pal, tiles, b, y)
    {
      var row := ScanRow(L, pal, tiles, b, y);
      segs := segs + row;
      y := y + 1;
    }
  }

  /** The rebuild's scan of row y of bounds b, cell by cell from left to right. */
  method ScanRow(L: Layout, pal: Palette, tiles: Tiles, b: Rect, y: int) returns (segs: seq<Segment>)
    ensures segs == RowOf(L, pal, tiles, b, y)
  {
    segs := [];
    var x := b.xMin;
    while x < b.xMax
      invariant b.xMin <= x && (x <= b.xMax || x == b.xMin)
      invariant segs == RowSegments(L, pal, tiles, b, y, x)
    {
      var more := ScanCell(L, pal, tiles, Cell(x, y));
      segs := segs + more;
      x := x + 1;
    }
  }

  /** The rebuild's work for one cell: for a base cell, one line along each side whose
      neighbour holds the sea tile, sides in order 0 to 5. */
  method ScanCell(L: Layout, pal: Palette, tiles: Tiles, cell: Cell) returns (segs: seq<Segment>)
    ensures segs == CellSegments(L, pal, tiles, cell)
  {
    segs := [];
    if Lookup(tiles, cell) != pal.baseTile {
      return;
    }
    var center := L.center(cell);
    var p := HexVertices(center, L.cellSize);
    var i := 0;
    while i < 6
      invariant 0 <= i <= 6
      invariant segs == SideSegments(L, pal, tiles, cell, i)
    {
      var j := (i + 1) % 6;
      var mid := Times(Plus(p[i], p[j]), 0.5);
      var sample := Plus(center, Times(Minus(mid, center), 1.2));
      var ncell := L.worldToCell(sample);
      if Lookup(tiles, ncell) == pal.seaTile {
        segs := segs + [Segment(p[i], p[j])];
      }
      i := i + 1;
    }
  }

  /** As written: leaving edit mode and entering it again while the pointer stays on the
      hovered cell leaves the outline hidden, because the remembered cell is not reset. */
  method ReenterEditModeAsWritten(b: HexSeaBuilderAndHighlighter, c: Cell)
    requires b.Valid() && b.cfg.hasTilemap && b.cfg.hasCamera
    requires b.editMode && b.hoverEnabled && b.lastCell == c
    modifies b, b.hoverLine
    ensures b.Valid() && b.lastCell == c
    ensures b.editMode && c in b.tiles && !b.hoverEnabled && b.preview == map[]
  {
    b.ToggleEditMode();
    b.ToggleEditMode();
    b.Update(c);
  }

  /** With the corrected toggle, the first frame back in edit mode over any occupied cell
      (other than the sentinel cell itself) shows the outline and the preview there. */
  method ReenterEditModeCorrected(b: HexSeaBuilderAndHighlighter, c: Cell)
    requires b.Valid() && b.cfg.hasTilemap && b.cfg.hasCamera
    requires b.editMode && c in b.tiles && c != NoCell
    modifies b, b.hoverLine
    ensures b.Valid()
    ensures b.editMode && b.lastCell == c && b.hoverEnabled
    ensures b.hoverLine[..] == ClosedOutline(b.layout.center(c), b.layout.cellSize)
    ensures b.preview == b.HoverPreview(c)
  {
    b.ToggleEditModeCorrected();
    b.ToggleEditModeCorrected();
    b.Update(c);
  }
}
