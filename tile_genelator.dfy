/** The earlier editor component of TileGenelator.cs: the same startup sea fill and a
    hover outline in edit mode, without brushes, preview, observers or border lines. */
module TileGenelator {
  import opened HexGrid

  /** The references and build-area size assigned in the inspector.
      A `has…` flag is false when that reference was left unassigned (null). */
  datatype Config = Config(
    palette: Palette,
    width: int,
    height: int,
    hasTilemap: bool,
    hasCamera: bool)

  /** The outline's seven positions around `center`, written one by one into a fresh
      seven-slot array, the last repeating the first. */
  method OutlinePoints(center: Point, size: Size) returns (pts: seq<Point>)
    ensures pts == ClosedOutline(center, size)
  {
    var s := size.h * 0.5;
    var hx := size.w * 0.5;
    var hy := s * 0.5;
    var p := new Point[7](_ => center);
    p[0] := Plus(center, Point(0.0, s));
    p[1] := Plus(center, Point(hx, hy));
    p[2] := Plus(center, Point(hx, -hy));
    p[3] := Plus(center, Point(0.0, -s));
    p[4] := Plus(center, Point(-hx, -hy));
    p[5] := Plus(center, Point(-hx, hy));
    p[6] := p[0];
    pts := p[..];
    assert pts == HexVertices(center, size) + [p[0]];
  }

  class HexSeaBuilderAndHighlighter {
    const cfg: Config
    /** The tilemap's engine queries (cell centres and cell size). */
    const layout: Layout

    /** The tilemap's contents. */
    var tiles: Tiles
    var editMode: bool
    /** The last hovered cell, or NoCell. */
    var lastCell: Cell
    /** Whether the outline is shown. */
    var hoverEnabled: bool
    /** The outline's positions. */
    var outline: seq<Point>

    /** The object invariant: the outline has seven positions; it is shown only in edit
        mode over an occupied cell; whenever a cell is remembered the outline traces it. */
    ghost predicate Valid()
      reads this
    {
      && |outline| == 7
      && (hoverEnabled ==> editMode && lastCell in tiles)
      && (lastCell != NoCell ==> outline == ClosedOutline(layout.center(lastCell), layout.cellSize))
    }

    /** The per-frame handler runs only in edit mode with a tilemap and a camera. */
    predicate Active()
      reads this
    {
      editMode && cfg.hasTilemap && cfg.hasCamera
    }

    /** The state after Awake: edit mode off, nothing hovered, the outline hidden. */
    constructor (cfg: Config, layout: Layout, scene: Tiles)
      ensures Valid()
      ensures this.cfg == cfg && this.layout == layout && tiles == scene
      ensures !editMode && lastCell == NoCell && !hoverEnabled
    {
      this.cfg := cfg;
      this.layout := layout;
      tiles := scene;
      editMode := false;
      lastCell := NoCell;
      hoverEnabled := false;
      outline := seq(7, _ => Point(0.0, 0.0));
    }

    /** Startup: without a tilemap or a sea tile nothing happens; otherwise the build area
        around `origin` is filled with sea and the origin becomes base. */
    method Start(origin: Cell)
      requires Valid()
      modifies this
      ensures Valid()
      ensures tiles == if !cfg.hasTilemap || cfg.palette.seaTile.None? then old(tiles)
        else Filled(old(tiles), origin, cfg.width, cfg.height, cfg.palette.seaTile.value, cfg.palette.baseTile)
      ensures editMode == old(editMode) && lastCell == old(lastCell)
      ensures hoverEnabled == old(hoverEnabled) && outline == old(outline)
    {
      if !cfg.hasTilemap || cfg.palette.seaTile.None? {
        return;
      }
      var filled := FillBuildArea(tiles, origin, cfg.width, cfg.height, cfg.palette.seaTile.value, cfg.palette.baseTile);
      FilledAt(tiles, origin, cfg.width, cfg.height, cfg.palette.seaTile.value, cfg.palette.baseTile);
      tiles := filled;
    }

    /** The toggle key: flips edit mode and hides the outline when leaving it. */
    method ToggleEditMode()
      requires Valid()
      modifies this
      ensures Valid()
      ensures editMode == !old(editMode)
      ensures hoverEnabled == (editMode && old(hoverEnabled))
      ensures tiles == old(tiles) && lastCell == old(lastCell) && outline == old(outline)
    {
      editMode := !editMode;
      if !editMode {
        hoverEnabled := false;
      }
    }

    /** One frame with the pointer over `cell`: off an occupied cell the outline is hidden
        and the remembered cell forgotten; over one, the outline is redrawn if the cell
        changed and is shown in every case. */
    method Update(cell: Cell)
      requires Valid()
      modifies this
      ensures Valid()
      ensures tiles == old(tiles) && editMode == old(editMode)
      ensures !old(Active()) ==>
        lastCell == old(lastCell) && hoverEnabled == old(hoverEnabled) && outline == old(outline)
      ensures old(Active()) && cell !in tiles ==>
        !hoverEnabled && lastCell == NoCell && outline == old(outline)
      ensures old(Active()) && cell in tiles ==> hoverEnabled && lastCell == cell
      ensures old(Active()) && cell in tiles && cell != old(lastCell) ==>
        outline == ClosedOutline(layout.center(cell), layout.cellSize)
      ensures cell == old(lastCell) ==> outline == old(outline)
    {
      if !editMode || !cfg.hasTilemap || !cfg.hasCamera {
        return;
      }
      if cell !in tiles {
        hoverEnabled := false;
        lastCell := NoCell;
        return;
      }
      if cell != lastCell {
        lastCell := cell;
        UpdateHexOutline(cell);
      }
      hoverEnabled := true;
    }

    /** Sets the outline to the closed hexagon around `cell`. */
    method UpdateHexOutline(cell: Cell)
      modifies this`outline
      ensures outline == ClosedOutline(layout.center(cell), layout.cellSize)
    {
      var center := layout.center(cell);
      outline := OutlinePoints(center, layout.cellSize);
    }
  }

  /** Leaving edit mode and entering it again with the pointer still on the hovered cell
      shows that cell's outline again on the first frame. */
  method ReenterEditMode(b: HexSeaBuilderAndHighlighter, c: Cell)
    requires b.Valid() && b.cfg.hasTilemap && b.cfg.hasCamera
    requires b.editMode && b.hoverEnabled && b.lastCell == c && c != NoCell
    modifies b
    ensures b.Valid()
    ensures b.editMode && b.hoverEnabled && b.lastCell == c
    ensures b.outline == ClosedOutline(b.layout.center(c), b.layout.cellSize)
  {
    b.ToggleEditMode();
    b.ToggleEditMode();
    b.Update(c);
  }
}
