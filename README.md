# Pixel-Art-Editor canvas engine, in Dafny

This project models the canvas interaction engine of the Pixel-Art-Editor (Rust, egui).
The canvas is a pool of `max_line × max_col` pixels. Only the top-left `line × col` part
is visible. It is drawn at an on-screen anchor `pos`, and each cell measures
`width_pixel × height_pixel` on screen. Pointer events arrive one frame at a time. They
either pan the anchor or paint the path, rasterized by Bresenham's algorithm, between
two successive pointer positions.

Modules:

- `Colors` (colors.dfy): egui's `Color32`, with the constants the canvas uses.
- `Geometry` (geometry.dfy): `Pos2`, `Vec2` and `Rect`. `Rect::contains` is closed on all
  four edges, as egui defines it. This module also holds the two casts the canvas uses:
  `f32 as i32` rounds toward zero, and `f32 as usize` sends negatives to 0 and floors
  the rest.
- `States` (state.dfy): the interaction state `State` (Idle/Drag) with `Default`, `new`
  and `Display`. `Display` is modelled against a formatter whose sink may refuse writes.
- `Pixels` (pixel.dfy): the class `Pixel`. `fix_color` overwrites its color in place.
- `Raster` (raster.dfy): the `bresenham` rasterizer as a pure function in grid space.
  It has the swap step `Normalize`, the loop `Walk` and the whole path `Cells`, plus
  lemmas on:
  - the shape of the path;
  - its symmetry;
  - its 8-connectedness;
  - its error bound;
  - a concrete path that leaves the grid.
- `CanvasEngine` (canvas.dfy), in two layers:
  - A value specification. `Snap` is a snapshot of every field the engine touches.
    `Step` is `handle_event` on a snapshot and `Run` is the frame's event loop. Lemmas
    cover each transition.
  - The class `Canvas`. Its pool is a sequence of lines of `Pixel` objects, updated in
    place. A ghost map gives each pixel object its cell, which shows that no two cells
    share an object. `HandleEvent`, `HandleEvents` and the methods they call are tied
    to `Step` and `Run`: `HandleEvent` ensures
    `(Snapshot(), machine') == Step(old(Snapshot()), event, machine)`. `Bresenham`
    returns exactly `Raster.Cells` of the two points mapped to grid space. The
    constructor, `Clear` and `MoveCanvas` state their effect on the fields and pixels
    directly.

The class invariant `Valid` carries these bounds, which the side panel enforces:
- a pixel size in [1, 100], with width equal to height;
- a visible extent within the pool.

Two details of the code that a reader may not expect:
- `contains` is closed on the right and bottom edges as well as on the left and top.
- `bresenham(a, b)` equals `bresenham(b, a)` exactly, not its reverse: the end points
  are always ordered by x before the loop.

## Model

| member | source | states |
|---|---|---|
| Geometry.FromMinSize | src/canvas.rs:83-87 | the rectangle starts at the anchor and spans exactly the given size |
| Geometry.TruncI32 | src/canvas.rs:121-122 | `as i32` rounds toward zero: the result is within one unit of the value, on the side of zero |
| Geometry.TruncUsize | src/canvas.rs:242-243 | `as usize` sends a negative value to 0 and a non-negative one to the integer just below it |
| Geometry.TruncI32Monotone | src/canvas.rs:112-122 | rounding toward zero keeps order, so the loop bounds `x0 as i32 ..= x1 as i32` are ordered once x0 <= x1 |
| Geometry.TruncBin | src/canvas.rs:121-122 | a value in [k, k+1) with k >= 0 is sent to k by both casts |
| Geometry.TranslateCompose | src/canvas.rs:91-94 | two moves of the anchor compose into one move by the sum of the displacements |
| CanvasEngine.Canvas.MoveCanvasTwice | src/canvas.rs:91-94 | two `move_canvas` calls in a row move the anchor by the sum of the two displacements, and only the anchor |
| States.Default | src/state.rs:7-11 | the default state is Idle |
| States.New | src/state.rs:24-26 | `new` is the default state, Idle |
| States.Fmt | src/state.rs:13-20 | formatting succeeds exactly when the sink accepts the write; on error the formatter is untouched; on success exactly four characters are appended to what was written |
| States.ToStringNames | src/state.rs:15-18 | Idle renders as "Idle" and Drag as "Drag" |
| States.FmtAppendsName | src/state.rs:15-18 | with any accepting formatter, formatting appends exactly the state's name to what was written |
| States.FmtInjective | src/state.rs:15-18 | distinct states render as distinct text |
| Pixels.Pixel.constructor | src/pixel.rs:7-11 | `Pixel::new` is white |
| Pixels.Pixel.Default | src/pixel.rs:1-4 | the derived default pixel has the default color, transparent |
| Pixels.Pixel.FixColor | src/pixel.rs:18-20 | the pixel takes exactly the given color and nothing else changes |
| Pixels.FixColorTwice | src/pixel.rs:18-20 | the last write wins, and repeating a write with the same color is the same as writing once |
| Raster.Normalize | src/canvas.rs:106-115 | axes are swapped exactly when the segment is steeper than 45 degrees; afterwards x0 <= x1, the minor extent is at most the major one, and the two end points are the transposed inputs in some order |
| Raster.WalkShape | src/canvas.rs:117-137 | the loop pushes one cell per major position from x to xEnd; the first cell lies on line y and each step moves the minor coordinate by 0 or by one in the direction of the far end |
| Raster.WalkFlat | src/canvas.rs:128-136 | with a zero error increment the minor coordinate never moves |
| Raster.WalkTracks | src/canvas.rs:117-137 | after k cells with m minor steps, the error term err + k·derr − 2·m·dx stays within [−dx, dx] |
| Raster.CellsSymmetric | src/canvas.rs:106-115 | `bresenham(a, b) == bresenham(b, a)` |
| Raster.CellsShape | src/canvas.rs:99-139 | the path is never empty; its length is trunc(x1) − trunc(x0) + 1; it starts at (trunc x0, trunc y0) on the normalized axes; the major coordinate advances by one per cell and the minor one by 0 or ±1 toward the far end; there is no minor movement when y1 == y0 |
| Raster.CellsConnected | src/canvas.rs:117-137 | consecutive cells are distinct 8-neighbours, so the painted path has no gaps |
| Raster.CellsTrackLine | src/canvas.rs:117-137 | the number of minor steps after k cells stays within half a cell of k·\|dy\|/dx |
| Raster.CellsLeaveGrid | src/canvas.rs:117-137 | from grid point (0.75, 0.5) to (1.25, 0.0) the path is [(0, 0), (1, −1)]: it leaves the grid and misses the far end's cell (1, 0) |
| CanvasEngine.DefaultStateCanvas | src/canvas.rs:9-13 | the default sub-mode is Draw |
| CanvasEngine.ContainsClosed | src/canvas.rs:82-89 | the anchor and the opposite corner both count as inside |
| CanvasEngine.ContainedCell | src/canvas.rs:240-245 | a point inside the canvas maps to a cell at most (col, line); it reaches col or line only on the closed far edges, which the visibility guard then rejects |
| CanvasEngine.CellCornerRoundTrip | src/canvas.rs:240-245 | the corner of each visible cell lies inside the canvas and maps back to that cell |
| CanvasEngine.SetCell | src/canvas.rs:247 | `pixels[y][x].fix_color(c)` changes exactly cell (x, y) to c, and nothing when the cell is outside the pool |
| CanvasEngine.Paint | src/canvas.rs:246-252 | after the stroke loop, a pool cell has color c exactly when it is on the path; every other cell keeps its color; the shape is unchanged |
| CanvasEngine.Step | src/canvas.rs:215-266 | an event never changes the sub-mode, pixel size, extent, pool shape or paint colors; only a pointer move during a drag changes the anchor or any cell color |
| CanvasEngine.Run | src/app.rs:129-132 | handling a frame's events in order keeps the settings of the canvas |
| CanvasEngine.RunAppend | src/app.rs:129-132 | handling two batches one after the other equals handling their concatenation |
| CanvasEngine.IdleStep | src/canvas.rs:217-231 | while Idle, the machine enters Drag if and only if the event is a primary press inside the canvas, which sets both drag points to the pointer; any other event changes nothing |
| CanvasEngine.DragNonMove | src/canvas.rs:232-237 | while dragging, an event other than a move changes no field; it ends the drag exactly when it is a release of any button |
| CanvasEngine.PanMove | src/canvas.rs:257-261 | panning moves the anchor by the pointer's displacement since the drag start, which becomes the pointer |
| CanvasEngine.PanFollowsPointer | src/canvas.rs:257-261 | over any run of moves while panning, the anchor ends shifted by the total displacement from the first drag start to the last pointer, and no color changes |
| CanvasEngine.DrawOutside | src/canvas.rs:239-240 | a drawing move outside the canvas changes nothing, not even the previous drag point |
| CanvasEngine.DrawInside | src/canvas.rs:239-256 | a drawing move inside the canvas records the pointer as the previous drag point; when the pointer's cell is visible, exactly the pool cells on the path from the previous point take the left-click color |
| CanvasEngine.StrokeLeavesPool | src/canvas.rs:245-247 | a press at (3, 2) and a move to (5, 0) with 4-unit pixels pass the guard yet put a cell outside the pool on the path, where the unchecked write panics; the target cell itself is not on the path |
| CanvasEngine.StrokeReachesHiddenCell | src/canvas.rs:240-254 | the guard checks only the target cell: a press on the closed right edge then a move back paints a pool cell in a hidden column |
| CanvasEngine.Canvas.constructor | src/canvas.rs:47-72 | `new` builds max_line lines of max_col distinct fresh white pixels, shows half of each dimension, and starts in Draw mode with 10 × 10 pixels, black paint, white right-click color and both drag points at the origin |
| CanvasEngine.NewPool | src/canvas.rs:48-55 | the pool has max_line lines of max_col fresh white pixels, each at its own cell |
| CanvasEngine.NewLine | src/canvas.rs:50-54 | one line of max_col fresh white pixels, recorded at their columns |
| CanvasEngine.DefaultCanvas | src/canvas.rs:35-44 | the default canvas is 200 × 200, all white, with 100 × 100 visible, anchored at (200, 200) |
| CanvasEngine.Canvas.Clear | src/canvas.rs:74-80 | every visible pixel becomes white; hidden pixels and every field keep their values |
| CanvasEngine.Canvas.MoveCanvas | src/canvas.rs:91-94 | only the anchor changes, by (dx, dy) |
| CanvasEngine.Canvas.Bresenham | src/canvas.rs:99-139 | the loop returns exactly `Raster.Cells` of the two points in grid space |
| CanvasEngine.Canvas.Walk | src/canvas.rs:117-138 | the while loop yields exactly `Raster.Line` of the normalized span |
| CanvasEngine.Canvas.Stroke | src/canvas.rs:246-252 | the pixel colors after the loop are `Paint` of those before |
| CanvasEngine.Canvas.FixCells | src/canvas.rs:246-252 | a pool pixel takes color c if its cell is on the path and keeps its color otherwise |
| CanvasEngine.Canvas.HandleEvent | src/canvas.rs:215-266 | the canvas snapshot and the interaction state change exactly as `Step` says |
| CanvasEngine.Canvas.HandleMove | src/canvas.rs:238-262 | a move during a drag changes the snapshot as `Move` says |
| CanvasEngine.Canvas.DrawMove | src/canvas.rs:239-256 | the same, in Draw mode |
| CanvasEngine.Canvas.DrawAt | src/canvas.rs:241-254 | the same, for a move inside the canvas |
| CanvasEngine.Canvas.StrokeTo | src/canvas.rs:245-253 | only the colors change, to `Paint` along the path from the previous drag point |
| CanvasEngine.Canvas.Follow | src/canvas.rs:254 | only the previous drag point changes, to the pointer |
| CanvasEngine.Canvas.PanTo | src/canvas.rs:257-261 | the snapshot changes as `Move` says in Drag mode: the anchor follows the pointer |
| CanvasEngine.Canvas.HandleEvents | src/app.rs:129-132 | handling a frame's events one by one changes the canvas and the state as `Run` says |

## Left out

- `Canvas::draw`, `Pixel::draw`, `stroke_ui`, `state_ui` and `State::ui` only issue egui painter and widget calls. The slider ranges of `stroke_ui` become the invariant `Valid`.
- `Valid` requires `line <= max_line` and `col <= max_col` but not `1 <= line` or `1 <= col`. `Canvas::new(1, _)` already yields `line == 0`, before any slider has run.
- The `stroke` field and its constructor argument only affect rendering.
- Of src/app.rs only the frame's event loop is modelled (`HandleEvents`). The window, panels, buttons, theme and the arrow keys are glue. The arrow keys call `move_canvas` with fixed steps.
- `f32` is modelled as `real`, so rounding, NaN and infinities are not modelled. The saturation of `f32 as i32` at the bounds of `i32` is not modelled either.
- Raster.Walk: cells are kept as integer pairs. `bresenham` converts a negative coordinate with `as usize`, which wraps it to a huge index. That index lies outside the pool just as the negative value does, so the outcome is the same.
- CanvasEngine.SetCell: the source's write at canvas.rs:247 panics on a cell outside the pool; the model skips that cell (see Findings).
- egui events carry more kinds and fields than the canvas reads, such as modifiers and keys. Every other event is `Other`.
- `Display` is modelled on a formatter reduced to the text written and whether its sink accepts writes. It returns `Ok` exactly when the sink accepts, and `to_string` always succeeds.

## Findings

| source | as written | input that shows it | evidently intended | confidence | as-written member | corrected member |
|---|---|---|---|---|---|---|
| src/canvas.rs:245-247 | every cell of `bresenham(previous_drag, pos)` is written through `pixels[j][i]` unchecked, after only the target cell passed the visibility guard | 4-unit pixels anchored at the origin, press at (3, 2), move to (5, 0): the path is [(0, 0), (1, −1)], and the line −1 wraps to a huge index | a stroke paints only cells of the pool and never panics | not executed | CanvasEngine.StrokeLeavesPool | CanvasEngine.Paint |
