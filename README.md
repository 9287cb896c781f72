# Hex sea builder and highlighter — a Dafny model

This project models the hex map editor component `HexSeaBuilderAndHighlighter`. The
component fills a rectangle of a point-top hexagonal tilemap with sea tiles and puts a
single base tile at the origin cell. It has an edit mode that observers are told about.
In edit mode, the hovered cell gets a seven-point outline and, while the base brush is
selected, a translucent preview of the base tile. A click writes the selected brush into
the hovered cell. After the startup fill and after every placement, the component
rebuilds the grey border lines along each side where a base cell meets a sea cell.

Two versions of the component exist in the repository:

- `HexSeaBuilderAndHighlighter.cs` is the full editor, with brush, preview, observers and
  border lines. It is modelled by module `HexBuilder` (`hex_builder.dfy`).
- `TileGenelator.cs` is the earlier version, with the fill and the hover outline only. It
  is modelled by module `TileGenelator` (`tile_genelator.dfy`).

Both modules share module `HexGrid` (`hex_grid.dfy`), which holds:

- cells and tile tokens;
- the tilemap as a `map<Cell, Tile>`;
- point-top hexagon geometry;
- the startup fill.

Module `Borders` (`borders.dfy`) defines, as functions of the tilemap's contents, the
list of border lines a full rebuild produces. It proves that this list is sound and
complete.

How the model is built:

- Each component is a `class`. Its fields are the source's mutable state: tilemap
  contents, preview tilemap contents, edit mode, selected brush, last hovered cell,
  whether the outline is shown, the border lines, and the values sent to
  `OnEditModeChanged`.
- The hover outline's seven positions are an `array<Point>` in the full editor. In the
  older version they are a sequence that is replaced whole, matching that file's
  `SetPositions` call.
- Each class has a `Valid()` invariant, and every public method (constructor, `Start`,
  the toggles, `SelectBrushTile`, `Update`, `TryPlaceBrushAtMouse`) preserves it. The
  private helpers `ShowPreview`, `ClearPreview`, `UpdateHexOutline` and
  `RebuildBaseBorders` state only their own effect. The invariant says:
  - the preview holds at most one tile, and it is the base tile;
  - the outline and the preview are shown only in edit mode over an occupied cell;
  - whenever a cell is remembered, the outline traces that cell's hexagon.
- Each method states its whole new state in terms of the old state and of the
  specification functions `Filled` and `BordersOf`. The properties of those functions
  are proved as lemmas.
- Engine queries are taken as given, as fields of a `Layout` value. These are
  `GetCellCenterWorld`, `WorldToCell`, the grid cell size and `cellBounds` after
  `CompressBounds`.
- The cell under the pointer, and the origin cell that `Start` derives from the player's
  position, are parameters.
- An unassigned (null) reference is a `has…` flag or a `None` tile. Tile comparisons such
  as `t != baseTile` compare `Option<Tile>` values, so a null base tile behaves as the
  source's null comparisons do.

Behaviour of the source worth noting:

- `SelectBrushTile` (`HexSeaBuilderAndHighlighter.cs:136-140`) does not touch the
  preview, so a brush change leaves the preview as it was until the next hover change.
- The full editor re-enables the outline only when the hovered cell changes
  (`HexSeaBuilderAndHighlighter.cs:161-172`), unlike the earlier version, which
  re-enables it on every frame (`TileGenelator.cs:131`). See "Findings".
- The fill leaves a single base cell only under conditions. `FilledFromEmpty` proves it
  when:
  - the area is at least one cell in each direction;
  - a base tile is assigned and it differs from the sea tile;
  - the tilemap held nothing before the fill.

## Model

| member | source | states |
|---|---|---|
| `HexGrid.Lookup` | HexSeaBuilderAndHighlighter.cs:253 | GetTile yields a tile exactly when the cell is occupied, and yields that cell's tile |
| `HexGrid.HexVertices` | HexSeaBuilderAndHighlighter.cs:295-315 | six vertices: the top and bottom lie h/2 above and below the centre; the four side vertices lie w/2 to the left or right of it |
| `HexGrid.ClosedOutline` | HexSeaBuilderAndHighlighter.cs:220-233 | the outline has seven positions; the first six are the hexagon's vertices and the seventh repeats the first, closing the loop |
| `HexGrid.HexPointSymmetric` | HexSeaBuilderAndHighlighter.cs:309-314 | vertex i + 3 is the mirror image of vertex i through the centre |
| `HexGrid.HexMirrorSymmetric` | HexSeaBuilderAndHighlighter.cs:309-314 | the hexagon is symmetric about the vertical line through its centre |
| `HexGrid.HexRadii` | HexSeaBuilderAndHighlighter.cs:305-314 | squared distance from the centre: h²/4 for the top and bottom, w²/4 + h²/16 for the other four |
| `HexGrid.HexClockwise` | HexSeaBuilderAndHighlighter.cs:309-314 | the vertices run clockwise (top, upper right, …); the signed area is -(3/4)·w·h |
| `HexGrid.SidePoint` | HexSeaBuilderAndHighlighter.cs:263-266 | the probe point's offset from the centre is 0.6 times the sum of the side's two vertex offsets, i.e. the side's midpoint pushed out by a factor of 1.2 |
| `HexGrid.SidePointOpposite` | HexSeaBuilderAndHighlighter.cs:263-266 | the points probed outside opposite sides lie in opposite directions from the centre |
| `HexGrid.HalfTowardZero` | HexSeaBuilderAndHighlighter.cs:104-105 | C# `n / 2` truncates toward zero: for n ≥ 0 it is ⌊n/2⌋, for n < 0 it is -⌊-n/2⌋ |
| `HexGrid.PaintRowAt` | HexSeaBuilderAndHighlighter.cs:107-110 | after one row of the fill: the row's cells hold sea, every other cell is unchanged |
| `HexGrid.PaintRowSize` | HexSeaBuilderAndHighlighter.cs:107-110 | painting n new cells of a row adds exactly n tiles |
| `HexGrid.PaintRectAt` | HexSeaBuilderAndHighlighter.cs:106-110 | after the nested fill loops: every cell of the rectangle holds sea, every other cell is unchanged |
| `HexGrid.PaintRectSize` | HexSeaBuilderAndHighlighter.cs:106-110 | painting a rectangle of new cells adds exactly width × rows tiles |
| `HexGrid.Filled` | HexSeaBuilderAndHighlighter.cs:104-114 | the tilemap after the fill: the width × height rectangle from the truncated half-offsets painted with sea row by row, then the origin set to base when one is assigned (a definition; characterised by FilledAt and FilledFromEmpty) |
| `HexGrid.FillBuildArea` | HexSeaBuilderAndHighlighter.cs:104-114 | the nested loops and the base write compute `Filled`, the sea rectangle around the origin with the origin overwritten by base |
| `HexGrid.FilledAt` | HexSeaBuilderAndHighlighter.cs:104-114 | after the fill: the origin holds base when one is assigned; the other cells of the rectangle hold sea; cells outside are unchanged; no tile is lost; the origin lies in any rectangle of at least 1×1 |
| `HexGrid.FilledFromEmpty` | HexSeaBuilderAndHighlighter.cs:104-114 | on an empty tilemap with distinct sea and base tiles, the fill leaves width × height tiles, and the origin is the only base cell |
| `Borders.Edge` | HexSeaBuilderAndHighlighter.cs:263-272 | side i runs from vertex i to vertex (i + 1) mod 6; because the borders and the hover outline share the vertices (:223, :258), side i is the i-th stretch of the cell's closed outline |
| `Borders.EdgesChain` | HexSeaBuilderAndHighlighter.cs:261-274 | consecutive sides chain: side i ends where side (i + 1) mod 6 begins, so the six sides close around the cell |
| `Borders.SideSegmentsMembers` | HexSeaBuilderAndHighlighter.cs:261-274 | the side loop draws at most one line per side; a line is drawn iff its side's neighbour holds the sea tile |
| `Borders.CellSegmentsAtMostSix` | HexSeaBuilderAndHighlighter.cs:252-274 | a cell contributes at most six border lines |
| `Borders.CellSegmentsAllSea` | HexSeaBuilderAndHighlighter.cs:252-274 | a base cell with sea beyond all six sides gets all six sides, in order 0 to 5 |
| `Borders.CellSegmentsNoSea` | HexSeaBuilderAndHighlighter.cs:252-274 | a cell with no sea neighbour gets no line |
| `Borders.SideSegmentsNoSea` | HexSeaBuilderAndHighlighter.cs:261-274 | sides with no sea neighbour draw nothing |
| `Borders.CellSegmentsLocal` | HexSeaBuilderAndHighlighter.cs:252-274 | a cell's lines depend only on its own tile and on the tiles beyond its six sides |
| `Borders.SideSegmentsLocal` | HexSeaBuilderAndHighlighter.cs:261-274 | the side loop's lines depend only on the tiles beyond the sides |
| `Borders.RowSegmentsMembers` | HexSeaBuilderAndHighlighter.cs:250-275 | a row's lines are exactly the lines of the cells of that row inside the bounds |
| `Borders.RectSegmentsMembers` | HexSeaBuilderAndHighlighter.cs:249-275 | the rebuild's lines are exactly the lines of the rows inside the bounds |
| `Borders.Neighbour` | HexSeaBuilderAndHighlighter.cs:264-267 | the cell beyond side i is whatever WorldToCell returns for the side's probe point (a definition; see the Left out line on this oracle) |
| `Borders.BordersOf` | HexSeaBuilderAndHighlighter.cs:245-275 | the lines of a full rebuild: rows of the compressed bounds bottom to top, cells left to right, for each base cell its sea-facing sides 0 to 5 (a definition; characterised by BordersSound and BordersComplete) |
| `Borders.BordersSound` | HexSeaBuilderAndHighlighter.cs:236-276 | every rebuilt line is side i of a base cell inside the bounds whose side-i neighbour holds sea |
| `Borders.BordersComplete` | HexSeaBuilderAndHighlighter.cs:236-276 | every such side of a base cell inside the bounds is drawn |
| `Borders.IsolatedBaseFullyBordered` | HexSeaBuilderAndHighlighter.cs:246-276 | when the bounds cover every occupied cell, a base cell surrounded by sea gets all six sides drawn |
| `HexBuilder.HexSeaBuilderAndHighlighter.PreviewAt` | HexSeaBuilderAndHighlighter.cs:199-208 | the preview holds the base tile at the given cell and nowhere else, and nothing without an overlay or a base tile |
| `HexBuilder.HexSeaBuilderAndHighlighter.HoverPreview` | HexSeaBuilderAndHighlighter.cs:167-171 | a hover over a new cell previews the base tile there exactly when the base brush is selected and the overlay exists |
| `HexBuilder.HexSeaBuilderAndHighlighter.constructor` | HexSeaBuilderAndHighlighter.cs:31-61 | the initial state: edit mode off, no brush, the sentinel cell remembered, outline hidden, no border lines, no notifications |
| `HexBuilder.HexSeaBuilderAndHighlighter.Start` | HexSeaBuilderAndHighlighter.cs:91-123 | without a tilemap or sea tile nothing changes; otherwise the tilemap becomes `Filled`, the brush is cleared and the borders equal `BordersOf` the new tilemap |
| `HexBuilder.HexSeaBuilderAndHighlighter.ToggleEditMode` | HexSeaBuilderAndHighlighter.cs:125-134 | flips edit mode; on leaving it, hides the outline and empties the preview; sends exactly one notification carrying the new mode |
| `HexBuilder.HexSeaBuilderAndHighlighter.ToggleEditModeCorrected` | HexSeaBuilderAndHighlighter.cs:125-134 | as ToggleEditMode, and on leaving edit mode also forgets the hovered cell |
| `HexBuilder.HexSeaBuilderAndHighlighter.SelectBrushTile` | HexSeaBuilderAndHighlighter.cs:136-140 | records the brush and leaves edit mode on; sends one notification only if edit mode was off |
| `HexBuilder.HexSeaBuilderAndHighlighter.Update` | HexSeaBuilderAndHighlighter.cs:142-173 | inactive, or still on the same occupied cell: nothing changes; off an occupied cell: outline hidden, cell forgotten, preview emptied; on a new occupied cell: the outline traces it and is shown, and the preview follows the brush |
| `HexBuilder.HexSeaBuilderAndHighlighter.TryPlaceBrushAtMouse` | HexSeaBuilderAndHighlighter.cs:175-196 | without edit mode, a brush or an occupied cell nothing changes; otherwise only that cell takes the brush, the occupied cells stay the same, the base brush re-shows the preview there, and the borders equal `BordersOf` the new tilemap |
| `HexBuilder.HexSeaBuilderAndHighlighter.ShowPreview` | HexSeaBuilderAndHighlighter.cs:199-208 | the preview becomes the base tile at the cell alone, or is untouched without an overlay or a base tile |
| `HexBuilder.HexSeaBuilderAndHighlighter.ClearPreview` | HexSeaBuilderAndHighlighter.cs:210-217 | empties the preview when the overlay exists |
| `HexBuilder.HexSeaBuilderAndHighlighter.UpdateHexOutline` | HexSeaBuilderAndHighlighter.cs:220-233 | the outline's seven positions become the closed hexagon around the cell's centre |
| `HexBuilder.HexSeaBuilderAndHighlighter.RebuildBaseBorders` | HexSeaBuilderAndHighlighter.cs:236-276 | the old lines are discarded and the new ones are `BordersOf` the current tilemap, so BordersSound and BordersComplete hold of them |
| `HexBuilder.ScanBorders` | HexSeaBuilderAndHighlighter.cs:245-276 | the row loop over the compressed bounds yields `BordersOf`, in scan order |
| `HexBuilder.ScanRow` | HexSeaBuilderAndHighlighter.cs:250-275 | the column loop yields the row's lines, cells from left to right |
| `HexBuilder.ScanCell` | HexSeaBuilderAndHighlighter.cs:252-274 | a non-base cell yields nothing; a base cell yields one line per sea-facing side, sides 0 to 5 |
| `HexBuilder.ReenterEditModeAsWritten` | HexSeaBuilderAndHighlighter.cs:125-173 | toggling edit mode off and on while hovering a cell leaves the outline hidden over that cell on the next frame, with the preview empty |
| `HexBuilder.ReenterEditModeCorrected` | HexSeaBuilderAndHighlighter.cs:125-173 | with the corrected toggle, the next frame over an occupied cell shows its outline and preview |
| `TileGenelator.OutlinePoints` | TileGenelator.cs:140-156 | the seven array slots written one by one are the closed hexagon around the centre |
| `TileGenelator.HexSeaBuilderAndHighlighter.constructor` | TileGenelator.cs:23-51 | the initial state: edit mode off, the sentinel cell remembered, outline hidden |
| `TileGenelator.HexSeaBuilderAndHighlighter.Start` | TileGenelator.cs:65-98 | without a tilemap or sea tile nothing changes; otherwise the tilemap becomes `Filled`, the same fill as the full editor's |
| `TileGenelator.HexSeaBuilderAndHighlighter.ToggleEditMode` | TileGenelator.cs:100-104 | flips edit mode; the outline stays shown only if edit mode is now on and it was shown |
| `TileGenelator.HexSeaBuilderAndHighlighter.Update` | TileGenelator.cs:106-132 | off an occupied cell: outline hidden and cell forgotten; over an occupied cell: the outline is shown on every frame and is redrawn only when the cell changed |
| `TileGenelator.HexSeaBuilderAndHighlighter.UpdateHexOutline` | TileGenelator.cs:135-160 | the outline becomes the closed hexagon around the cell's centre |
| `TileGenelator.ReenterEditMode` | TileGenelator.cs:100-132 | in this version, toggling edit mode off and on over the hovered cell shows its outline again on the next frame |

## Left out

- The input wiring (`Awake`'s input actions, `OnEnable`, `OnDisable`) and the pointer reading: the pointer position and `ScreenToWorldPoint` are not modelled, so the cell under the pointer is a parameter of `Update` and `TryPlaceBrushAtMouse`.
- `Start`'s origin cell: the player's position (or the world origin) passed through `WorldToCell` is not modelled, so the origin is `Start`'s parameter. Its z component is assumed to be 0. The source zeroes z only for the pointer's world point (`HexSeaBuilderAndHighlighter.cs:149`, `:181`), while the fill writes cells with z = 0 (`:109`).
- The engine queries (`GetCellCenterWorld`, `WorldToCell`, `layoutGrid.cellSize`, `CompressBounds` and `cellBounds`) are oracles in `Layout`. Only `IsolatedBaseFullyBordered` assumes that the bounds cover the occupied cells.
- `Borders.Neighbour` is `WorldToCell` of the probe point 1.2 times the side midpoint's distance from the centre. It is not proved to be the hexagonal cell geometrically adjacent across that side, because `WorldToCell` is an unconstrained oracle. `BordersSound` and `BordersComplete` therefore hold relative to that oracle: "side-i neighbour" means the cell it returns.
- Rendering has no logical effect, so it is not modelled: LineRenderer width, colour and material; creating, parenting and destroying the border-line GameObjects; `RefreshAllTiles` and `RefreshTile`; and the preview's 0.5 alpha `SetColor`. A border line is kept as its two endpoints.
- `Debug.Log` and `Debug.LogWarning` output is not modelled.
- Float arithmetic is modelled on reals, so rounding is not captured. The z coordinate is dropped, on the assumption that it is 0.
- Cell coordinates are unbounded integers, so 32-bit overflow in `startX + x` and similar expressions is not modelled.
- `OnEditModeChanged` is modelled as the sequence of values it was invoked with. Its subscriber list and the null check on it are not modelled.
- `GetHexVertices` reuses one cached array, but the model returns a fresh sequence. No caller holds the array across a second call, so no aliasing is lost.
- `HexBuilder.HexSeaBuilderAndHighlighter.constructor` assumes that the preview tilemap is empty at start. The source never clears `previewTilemap` in `Awake` or `Start` (`HexSeaBuilderAndHighlighter.cs:49-123`), so tiles placed on the overlay in the scene would stay until the first `ClearPreview` or `ShowPreview`. The invariant's clauses about the preview rely on this assumption.
- `HexBuilder.HexSeaBuilderAndHighlighter.RebuildBaseBorders`: the source appends each line to `borderLines` as the scan finds it. The model collects the scan's lines first (`ScanBorders`) and then stores them, which gives the same list in the same order. The intermediate states are not observable in the single-threaded source. Each append of one `Segment(p[i], p[j])` in `ScanCell` stands for `MakeBorderLine` (`HexSeaBuilderAndHighlighter.cs:278-292`), whose GameObject and LineRenderer setup carries no further logical content.
- CameraScrollZoom.cs, PlayerController.cs and BaseMenuUI.cs are not part of this model.

## Findings

| source | as written | input that shows it | evidently intended | confidence | as-written member | corrected member |
|---|---|---|---|---|---|---|
| HexSeaBuilderAndHighlighter.cs:125-134 | leaving edit mode hides the outline but keeps `lastCell`, and `Update` shows the outline again only when the hovered cell differs from `lastCell` | in edit mode with the pointer on occupied cell c, press the toggle key twice without moving the pointer: each later frame over c leaves the outline (and the base preview) hidden until the pointer leaves c | the outline shows again over the hovered cell, as in the earlier version, which re-enables it on every frame (TileGenelator.cs:131) | high; not executed | `HexBuilder.ReenterEditModeAsWritten` | `HexBuilder.HexSeaBuilderAndHighlighter.ToggleEditModeCorrected` |
