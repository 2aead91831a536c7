/**
  * The canvas interaction engine (`Canvas` in canvas.rs): a pool of pixels with a
  * visible extent, anchored on the screen, that pointer events pan or paint.
  *
  * `handle_event` is specified by `Step`, a function on a value snapshot of the
  * canvas (`Snap`); the class `Canvas` holds the pixels as objects updated in place
  * and each of its methods is tied to that specification.
  */
module CanvasEngine {
  import opened Colors
  import opened Geometry
  import opened Pixels
  import States
  import Raster

  /** The sub-mode chosen in the side panel: pan the canvas (`Drag`) or paint on it (`Draw`). */
  datatype StateCanvas = Drag | Draw

  /** `StateCanvas::default()`: a canvas starts in drawing mode. */
  function DefaultStateCanvas(): (m: StateCanvas)
    ensures m == Draw
  {
    Draw
  }

  /** egui's `PointerButton`. */
  datatype Button = Primary | Secondary | Middle | Extra1 | Extra2

  /** The egui events the canvas looks at; every other kind of event is `Other`. */
  datatype Event =
    | PointerButton(pos: Pos2, button: Button, pressed: bool)
    | PointerMoved(pos: Pos2)
    | Other

  /**
    * `contains`: the point lies in the rectangle anchored at pos with size
    * (widthPixel * col, heightPixel * line), closed on all four edges.
    */
  predicate InCanvas(pos: Pos2, widthPixel: real, heightPixel: real, line: nat, col: nat, p: Pos2) {
    FromMinSize(pos, Vec2(widthPixel * col as real, heightPixel * line as real)).Contains(p)
  }

  /** A screen point in grid space: its offset from the anchor divided by the pixel size. */
  function ToGrid(pos: Pos2, widthPixel: real, heightPixel: real, p: Pos2): Pos2
    requires widthPixel > 0.0 && heightPixel > 0.0
  {
    Pos2((p.x - pos.x) / widthPixel, (p.y - pos.y) / heightPixel)
  }

  /** Both closing corners of the rectangle count as inside: the far edges are included. */
  lemma ContainsClosed(pos: Pos2, widthPixel: real, heightPixel: real, line: nat, col: nat)
    requires widthPixel > 0.0 && heightPixel > 0.0
    ensures InCanvas(pos, widthPixel, heightPixel, line, col, pos)
    ensures InCanvas(pos, widthPixel, heightPixel, line, col,
                     Translate(pos, Vec2(widthPixel * col as real, heightPixel * line as real)))
  {
  }

  /**
    * A point inside the canvas falls in a cell whose line and column are at most
    * `line` and `col`; they reach them only on the far (closed) edges.
    */
  lemma ContainedCell(pos: Pos2, widthPixel: real, heightPixel: real, line: nat, col: nat, p: Pos2)
    requires widthPixel > 0.0 && heightPixel > 0.0
    requires InCanvas(pos, widthPixel, heightPixel, line, col, p)
    ensures var g := ToGrid(pos, widthPixel, heightPixel, p);
      && 0.0 <= g.x && 0.0 <= g.y
      && TruncUsize(g.x) <= col && TruncUsize(g.y) <= line
      && (TruncUsize(g.x) == col ==> p.x == pos.x + widthPixel * col as real)
      && (TruncUsize(g.y) == line ==> p.y == pos.y + heightPixel * line as real)
  {
    var g := ToGrid(pos, widthPixel, heightPixel, p);
    assert g.x * widthPixel == p.x - pos.x;
    assert g.y * heightPixel == p.y - pos.y;
    BinBelow(g.x, widthPixel, col);
    BinBelow(g.y, heightPixel, line);
  }

  /** A value v with v * w <= n * w lies below n, and rounds down to n only when equal to it. */
  lemma BinBelow(v: real, w: real, n: nat)
    requires w > 0.0 && 0.0 <= v * w <= n as real * w
    ensures 0.0 <= v <= n as real
    ensures TruncUsize(v) <= n && (TruncUsize(v) == n ==> v == n as real)
  {
  }

  /**
    * The top-left corner of each visible cell (i, j) lies inside the canvas and
    * maps back to line i and column j.
    */
  lemma CellCornerRoundTrip(pos: Pos2, widthPixel: real, heightPixel: real, line: nat, col: nat, i: nat, j: nat)
    requires widthPixel > 0.0 && heightPixel > 0.0 && i < line && j < col
    ensures var p := Pos2(pos.x + j as real * widthPixel, pos.y + i as real * heightPixel);
      && InCanvas(pos, widthPixel, heightPixel, line, col, p)
      && TruncUsize(ToGrid(pos, widthPixel, heightPixel, p).x) == j
      && TruncUsize(ToGrid(pos, widthPixel, heightPixel, p).y) == i
  {
    CornerBin(pos.x, widthPixel, j);
    CornerBin(pos.y, heightPixel, i);
    assert j as real * widthPixel <= col as real * widthPixel;
    assert i as real * heightPixel <= line as real * heightPixel;
  }

  /** The pixel colors of a canvas, line by line: `grid[i][j]` is the cell on line i, column j. */
  type Grid = seq<seq<Color32>>

  /** A value snapshot of every field of the canvas that the engine reads or writes. */
  datatype Snap = Snap(
    pos: Pos2,
    state: StateCanvas,
    widthPixel: real,
    heightPixel: real,
    maxLine: nat,
    maxCol: nat,
    line: nat,
    col: nat,
    grid: Grid,
    colorPickRightClick: Color32,
    colorPickLeftClick: Color32,
    dragStart: Pos2,
    previousDrag: Pos2)
  {
    /** The pixel size is positive, so that screen points can be mapped to grid space. */
    predicate Sized() {
      widthPixel > 0.0 && heightPixel > 0.0
    }

    /** The pool holds maxLine lines of maxCol cells and the visible extent fits in it. */
    ghost predicate Consistent() {
      && Sized()
      && line <= maxLine && col <= maxCol
      && |grid| == maxLine && (forall i :: 0 <= i < maxLine ==> |grid[i]| == maxCol)
    }

    predicate Contains(p: Pos2) {
      InCanvas(pos, widthPixel, heightPixel, line, col, p)
    }

    /** The cell (x, y) = (column, line) lies in the pool. */
    predicate InPool(c: (int, int)) {
      0 <= c.1 < maxLine && 0 <= c.0 < maxCol
    }

    /** The cell (x, y) = (column, line) lies in the visible extent. */
    predicate Visible(c: (int, int)) {
      0 <= c.1 < line && 0 <= c.0 < col
    }
  }

  /** Everything but the anchor, the colors and the two drag points is the same, and so is the pool's shape. */
  ghost predicate SameSettings(s: Snap, t: Snap) {
    && t.state == s.state && t.widthPixel == s.widthPixel && t.heightPixel == s.heightPixel
    && t.maxLine == s.maxLine && t.maxCol == s.maxCol && t.line == s.line && t.col == s.col
    && t.colorPickRightClick == s.colorPickRightClick && t.colorPickLeftClick == s.colorPickLeftClick
    && |t.grid| == |s.grid| && (forall i :: 0 <= i < |s.grid| ==> |t.grid[i]| == |s.grid[i]|)
  }

  /**
    * `pixels[y][x].fix_color(c)` on the colors, for a cell (x, y) of the pool. A cell
    * outside the pool is skipped: there the source's index panics.
    */
  function SetCell(grid: Grid, cell: (int, int), c: Color32): (g: Grid)
    ensures |g| == |grid| && forall i :: 0 <= i < |grid| ==> |g[i]| == |grid[i]|
    ensures forall i, j :: 0 <= i < |grid| && 0 <= j < |grid[i]| ==>
              g[i][j] == if (j, i) == cell then c else grid[i][j]
  {
    var (x, y) := cell;
    if 0 <= y < |grid| && 0 <= x < |grid[y]| then grid[y := grid[y][x := c]] else grid
  }

  /**
    * The stroke loop: every cell of the path, in order, takes color c. Exactly the
    * cells of the pool that lie on the path change, and they all end with color c.
    */
  function Paint(grid: Grid, cells: seq<(int, int)>, c: Color32): (g: Grid)
    ensures |g| == |grid| && forall i :: 0 <= i < |grid| ==> |g[i]| == |grid[i]|
    ensures forall i, j :: 0 <= i < |grid| && 0 <= j < |grid[i]| ==>
              g[i][j] == if (j, i) in cells then c else grid[i][j]
    decreases |cells|
  {
    if cells == [] then grid
    else
      assert forall cell :: cell in cells <==> cell == cells[0] || cell in cells[1..];
      Paint(SetCell(grid, cells[0], c), cells[1..], c)
  }

  /** The path `bresenham(previous_drag, p)` in the current geometry. */
  function StrokeCells(s: Snap, p: Pos2): seq<(int, int)>
    requires s.Sized()
  {
    Raster.Cells(ToGrid(s.pos, s.widthPixel, s.heightPixel, s.previousDrag), ToGrid(s.pos, s.widthPixel, s.heightPixel, p))
  }

  /** The cell (column, line) under a screen point, as the source computes it with `as usize`. */
  function TargetCell(s: Snap, p: Pos2): (int, int)
    requires s.Sized()
  {
    var g := ToGrid(s.pos, s.widthPixel, s.heightPixel, p);
    (TruncUsize(g.x), TruncUsize(g.y))
  }

  /** A pointer move while dragging, in the canvas's current sub-mode. */
  function Move(s: Snap, p: Pos2): Snap
    requires s.Sized()
  {
    match s.state
    case Draw =>
      if s.Contains(p) then
        var grid := if s.Visible(TargetCell(s, p)) then Paint(s.grid, StrokeCells(s, p), s.colorPickLeftClick) else s.grid;
        s.(grid := grid, previousDrag := p)
      else s
    case Drag =>
      s.(pos := Translate(s.pos, Sub(p, s.dragStart)), dragStart := p)
  }

  /** A primary-button press inside the canvas. */
  predicate PressInside(s: Snap, e: Event) {
    e.PointerButton? && e.button == Primary && e.pressed && s.Contains(e.pos)
  }

  /**
    * `handle_event`: the new snapshot and the new interaction state. The event
    * never changes the settings of the canvas, and only a pointer move during a
    * drag changes the anchor or the colors.
    */
  function Step(s: Snap, e: Event, m: States.State): (r: (Snap, States.State))
    requires s.Sized()
    ensures SameSettings(s, r.0)
    ensures (r.0.pos != s.pos || r.0.grid != s.grid) ==> m == States.Drag && e.PointerMoved?
  {
    match m
    case Idle =>
      if PressInside(s, e) then (s.(dragStart := e.pos, previousDrag := e.pos), States.Drag) else (s, States.Idle)
    case Drag =>
      match e
      case PointerButton(_, _, pressed) => (s, if pressed then States.Drag else States.Idle)
      case PointerMoved(p) => (Move(s, p), States.Drag)
      case Other => (s, States.Drag)
  }

  /** The events of one frame, handled in the order they arrived. */
  function Run(s: Snap, events: seq<Event>, m: States.State): (r: (Snap, States.State))
    requires s.Sized()
    ensures SameSettings(s, r.0)
    decreases |events|
  {
    if events == [] then (s, m)
    else
      var r := Step(s, events[0], m);
      Run(r.0, events[1..], r.1)
  }

  /** Handling two batches one after the other is handling their concatenation. */
  lemma {:induction false} RunAppend(s: Snap, first: seq<Event>, second: seq<Event>, m: States.State)
    requires s.Sized()
    ensures var r := Run(s, first, m); Run(s, first + second, m) == Run(r.0, second, r.1)
    decreases |first|
  {
    if first != [] {
      assert (first + second)[0] == first[0] && (first + second)[1..] == first[1..] + second;
      var r := Step(s, first[0], m);
      RunAppend(r.0, first[1..], second, r.1);
    } else {
      assert first + second == second;
    }
  }

  /**
    * While idle, the machine starts a drag exactly on a primary press inside the
    * canvas, recording the pointer as both drag points; any other event, a
    * release included, changes nothing.
    */
  lemma IdleStep(s: Snap, e: Event)
    requires s.Sized()
    ensures Step(s, e, States.Idle).1 == States.Drag <==> PressInside(s, e)
    ensures PressInside(s, e) ==> Step(s, e, States.Idle).0 == s.(dragStart := e.pos, previousDrag := e.pos)
    ensures !PressInside(s, e) ==> Step(s, e, States.Idle) == (s, States.Idle)
  {
  }

  /**
    * While dragging, an event other than a pointer move changes no field; a
    * button release of any button ends the drag and nothing else ends it.
    */
  lemma DragNonMove(s: Snap, e: Event)
    requires s.Sized() && !e.PointerMoved?
    ensures Step(s, e, States.Drag).0 == s
    ensures Step(s, e, States.Drag).1 == States.Idle <==> e.PointerButton? && !e.pressed
  {
  }

  /** Panning: the anchor moves by the pointer's displacement since the last drag point. */
  lemma PanMove(s: Snap, p: Pos2)
    requires s.Sized() && s.state == Drag
    ensures Step(s, PointerMoved(p), States.Drag) ==
            (s.(pos := Translate(s.pos, Sub(p, s.dragStart)), dragStart := p), States.Drag)
  {
  }

  /**
    * Over a run of pointer moves while panning, the displacements add up: the
    * anchor ends shifted by the pointer's total displacement from the drag start,
    * and the colors never change.
    */
  lemma {:induction false} PanFollowsPointer(s: Snap, moves: seq<Pos2>)
    requires s.Sized() && s.state == Drag && moves != []
    ensures var r := Run(s, MovedEvents(moves), States.Drag);
      && r.1 == States.Drag
      && r.0 == s.(pos := Translate(s.pos, Sub(moves[|moves| - 1], s.dragStart)), dragStart := moves[|moves| - 1])
    decreases |moves|
  {
    var p := moves[0];
    var s1 := s.(pos := Translate(s.pos, Sub(p, s.dragStart)), dragStart := p);
    assert MovedEvents(moves)[0] == PointerMoved(p);
    assert Step(s, PointerMoved(p), States.Drag) == (s1, States.Drag);
    if |moves| > 1 {
      assert MovedEvents(moves)[1..] == MovedEvents(moves[1..]);
      PanFollowsPointer(s1, moves[1..]);
      var q := moves[|moves| - 1];
      assert moves[1..][|moves[1..]| - 1] == q;
      assert Translate(s1.pos, Sub(q, p)) == Translate(s.pos, Sub(q, s.dragStart));
    } else {
      assert MovedEvents(moves)[1..] == [];
    }
  }

  /** One pointer-move event per position. */
  function MovedEvents(moves: seq<Pos2>): (es: seq<Event>)
    ensures |es| == |moves| && forall k :: 0 <= k < |moves| ==> es[k] == PointerMoved(moves[k])
  {
    seq(|moves|, k requires 0 <= k < |moves| => PointerMoved(moves[k]))
  }

  /** Drawing: a move outside the canvas changes nothing, not even the last drag point. */
  lemma DrawOutside(s: Snap, p: Pos2)
    requires s.Sized() && s.state == Draw && !s.Contains(p)
    ensures Step(s, PointerMoved(p), States.Drag) == (s, States.Drag)
  {
  }

  /**
    * Drawing: a move inside the canvas records the pointer as the last drag point,
    * and when the pointer's cell is visible, exactly the pool cells on the path
    * from the last drag point take the left-click color; all other cells keep theirs.
    */
  lemma DrawInside(s: Snap, p: Pos2)
    requires s.Sized() && s.state == Draw && s.Contains(p)
    ensures var r := Step(s, PointerMoved(p), States.Drag);
      && r.1 == States.Drag
      && r.0 == s.(grid := r.0.grid, previousDrag := p)
      && (forall i, j :: 0 <= i < |s.grid| && 0 <= j < |s.grid[i]| ==>
            r.0.grid[i][j] == if s.Visible(TargetCell(s, p)) && (j, i) in StrokeCells(s, p)
                              then s.colorPickLeftClick else s.grid[i][j])
  {
  }

  /**
    * The write `pixels[j][i]` of `handle_event` reaches a path cell outside the
    * pool. The source indexes the pool unchecked there and panics; a negative line
    * or column, which `as usize` wraps to a huge index, lies outside the pool too.
    */
  predicate WritesOutside(s: Snap, p: Pos2)
    requires s.Sized()
  {
    && s.state == Draw && s.Contains(p) && s.Visible(TargetCell(s, p))
    && exists c :: c in StrokeCells(s, p) && !s.InPool(c)
  }

  /**
    * With 4 x 4 pixels anchored at the origin, a press at (3, 2) and a move to
    * (5, 0) pass the guard on the target cell (1, 0), but the path is
    * [(0, 0), (1, -1)]: its second cell lies off the pool, and the target cell
    * itself is not on the path.
    */
  lemma StrokeLeavesPool(s: Snap)
    requires s.Consistent() && s.pos == Origin && s.widthPixel == 4.0 && s.heightPixel == 4.0
    requires s.state == Draw && 1 <= s.line && 2 <= s.col
    ensures var r := Step(s, PointerButton(Pos2(3.0, 2.0), Primary, true), States.Idle);
      && r.1 == States.Drag
      && WritesOutside(r.0, Pos2(5.0, 0.0))
      && TargetCell(r.0, Pos2(5.0, 0.0)) !in StrokeCells(r.0, Pos2(5.0, 0.0))
  {
    var press, p := Pos2(3.0, 2.0), Pos2(5.0, 0.0);
    assert s.Contains(press);
    var s1 := s.(dragStart := press, previousDrag := press);
    assert Step(s, PointerButton(press, Primary, true), States.Idle) == (s1, States.Drag);
    assert ToGrid(s1.pos, 4.0, 4.0, press) == Pos2(0.75, 0.5);
    assert ToGrid(s1.pos, 4.0, 4.0, p) == Pos2(1.25, 0.0);
    Raster.CellsLeaveGrid();
    assert StrokeCells(s1, p) == [(0, 0), (1, -1)];
    TruncBin(1.25, 1);
    TruncBin(0.0, 0);
    assert TargetCell(s1, p) == (1, 0);
    assert (1, -1) in StrokeCells(s1, p) && !s1.InPool((1, -1));
  }

  /**
    * The guard looks at the target cell only, so a path may paint a pool cell that
    * is not visible: with 10 x 10 pixels at the origin and two visible columns, a
    * press on the closed right edge at (20, 5) lies in hidden column 2, and a move
    * to (15, 5) paints cells (1, 0) and (2, 0).
    */
  lemma StrokeReachesHiddenCell(s: Snap)
    requires s.Consistent() && s.pos == Origin && s.widthPixel == 10.0 && s.heightPixel == 10.0
    requires s.state == Draw && 1 <= s.line && s.col == 2 && 3 <= s.maxCol
    ensures !s.Visible((2, 0)) && s.InPool((2, 0))
    ensures var r := Step(s, PointerButton(Pos2(20.0, 5.0), Primary, true), States.Idle);
      && r.1 == States.Drag
      && Step(r.0, PointerMoved(Pos2(15.0, 5.0)), States.Drag).0.grid[0][2] == s.colorPickLeftClick
  {
    var press, p := Pos2(20.0, 5.0), Pos2(15.0, 5.0);
    assert s.Contains(press);
    var s1 := s.(dragStart := press, previousDrag := press);
    assert Step(s, PointerButton(press, Primary, true), States.Idle) == (s1, States.Drag);
    assert ToGrid(s1.pos, 10.0, 10.0, press) == Pos2(2.0, 0.5);
    assert ToGrid(s1.pos, 10.0, 10.0, p) == Pos2(1.5, 0.5);
    assert Raster.Normalize(Pos2(2.0, 0.5), Pos2(1.5, 0.5)) == Raster.Span(1.5, 0.5, 2.0, 0.5, false);
    TruncBin(1.5, 1);
    TruncBin(2.0, 2);
    TruncBin(0.5, 0);
    assert Raster.Walk(3, 2, 0, 0.0, 0.5, 0.0, false, false) == [];
    assert Raster.Walk(2, 2, 0, 0.0, 0.5, 0.0, false, false) == [(2, 0)];
    assert Raster.Walk(1, 2, 0, 0.0, 0.5, 0.0, false, false) == [(1, 0), (2, 0)];
    assert StrokeCells(s1, p) == [(1, 0), (2, 0)];
    assert TargetCell(s1, p) == (1, 0);
  }

  /**
    * The canvas. Its pool `pixels` holds `maxLine` lines of `maxCol` pixel objects,
    * each updated in place; `line` and `col` give the visible extent, and the side
    * panel keeps the pixel size within [1, 100] with equal width and height.
    */
  class Canvas {
    var pos: Pos2
    var state: StateCanvas
    var widthPixel: real
    var heightPixel: real
    const maxLine: nat
    const maxCol: nat
    var line: nat
    var col: nat
    const pixels: seq<seq<Pixel>>
    var colorPickRightClick: Color32
    var colorPickLeftClick: Color32
    var dragStart: Pos2
    var previousDrag: Pos2

    /** The line and column of each pixel object of the pool: no two cells share a pixel. */
    ghost const place: map<Pixel, (nat, nat)>

    ghost predicate Valid()
      reads this
    {
      && line <= maxLine && col <= maxCol
      && 1.0 <= widthPixel <= 100.0 && heightPixel == widthPixel
      && PoolValid()
    }

    /** The pool has the shape of its capacity and no two cells share a pixel object. */
    ghost predicate PoolValid() {
      && |pixels| == maxLine
      && (forall i :: 0 <= i < maxLine ==> |pixels[i]| == maxCol)
      && (forall i, j :: 0 <= i < maxLine && 0 <= j < maxCol ==>
            pixels[i][j] in place && place[pixels[i][j]] == (i, j))
      && (forall p :: p in place ==>
            place[p].0 < maxLine && place[p].1 < maxCol && pixels[place[p].0][place[p].1] == p)
    }

    /** The colors of the pool. */
    ghost function PixelColors(): (g: Grid)
      reads place.Keys
      requires PoolValid()
      ensures |g| == maxLine && forall i :: 0 <= i < maxLine ==> |g[i]| == maxCol
      ensures forall i, j :: 0 <= i < maxLine && 0 <= j < maxCol ==> g[i][j] == pixels[i][j].color
    {
      seq(maxLine, i requires 0 <= i < maxLine && PoolValid() reads place.Keys =>
        seq(maxCol, j requires 0 <= j < maxCol && PoolValid() reads place.Keys => pixels[i][j].color))
    }

    /** The whole state of the canvas as a value. */
    ghost function Snapshot(): (s: Snap)
      reads this, place.Keys
      requires Valid()
      ensures s.Consistent()
    {
      Snap(pos, state, widthPixel, heightPixel, maxLine, maxCol, line, col, PixelColors(),
           colorPickRightClick, colorPickLeftClick, dragStart, previousDrag)
    }

    /**
      * `Canvas::new`: a pool of maxLine lines of maxCol fresh white pixels, half of
      * each dimension visible, drawing mode, 10 x 10 pixels, black paint.
      */
    constructor (maxLine: nat, maxCol: nat, pos: Pos2)
      ensures Valid() && fresh(place.Keys)
      ensures this.pos == pos && state == DefaultStateCanvas()
      ensures widthPixel == 10.0 && heightPixel == 10.0
      ensures this.maxLine == maxLine && this.maxCol == maxCol && line == maxLine / 2 && col == maxCol / 2
      ensures colorPickLeftClick == Black && colorPickRightClick == White
      ensures dragStart == Origin && previousDrag == Origin
      ensures forall i, j :: 0 <= i < maxLine && 0 <= j < maxCol ==> pixels[i][j].color == White
    {
      var rows, where := NewPool(maxLine, maxCol);
      this.pos := pos;
      state := DefaultStateCanvas();
      widthPixel, heightPixel := 10.0, 10.0;
      this.maxLine, this.maxCol := maxLine, maxCol;
      line, col := maxLine / 2, maxCol / 2;
      pixels := rows;
      colorPickLeftClick, colorPickRightClick := Black, White;
      dragStart, previousDrag := Origin, Origin;
      place := where;
    }

    /** `clear`: every visible pixel turns white; hidden pixels and all fields keep their values. */
    method Clear()
      requires Valid()
      modifies place.Keys
      ensures Valid()
      ensures forall i, j :: 0 <= i < maxLine && 0 <= j < maxCol ==>
                pixels[i][j].color == if i < line && j < col then White else old(pixels[i][j].color)
    {
      for i := 0 to line
        invariant forall r, c :: 0 <= r < maxLine && 0 <= c < maxCol ==>
                    pixels[r][c].color == if r < i && c < col then White else old(pixels[r][c].color)
      {
        for j := 0 to col
          invariant forall r, c :: 0 <= r < maxLine && 0 <= c < maxCol ==>
                      pixels[r][c].color == if (r < i && c < col) || (r == i && c < j) then White else old(pixels[r][c].color)
        {
          pixels[i][j].FixColor(White);
        }
      }
    }

    /** `contains`. */
    predicate Contains(p: Pos2)
      reads this
    {
      InCanvas(pos, widthPixel, heightPixel, line, col, p)
    }

    /** `move_canvas`: only the anchor moves, by (dx, dy). */
    method MoveCanvas(dx: real, dy: real)
      modifies this`pos
      ensures pos == Translate(old(pos), Vec2(dx, dy))
    {
      pos := Pos2(pos.x + dx, pos.y + dy);
    }

    /** Two `move_canvas` calls in a row add up: the anchor moves by the sum of the displacements. */
    method MoveCanvasTwice(dx1: real, dy1: real, dx2: real, dy2: real)
      modifies this`pos
      ensures pos == Translate(old(pos), AddVec(Vec2(dx1, dy1), Vec2(dx2, dy2)))
    {
      MoveCanvas(dx1, dy1);
      MoveCanvas(dx2, dy2);
      TranslateCompose(old(pos), Vec2(dx1, dy1), Vec2(dx2, dy2));
    }

    /** `bresenham`: the cells of the path between two screen points, mapped to grid space. */
    method Bresenham(start: Pos2, end: Pos2) returns (cells: seq<(int, int)>)
      requires widthPixel > 0.0 && heightPixel > 0.0
      ensures cells == Raster.Cells(ToGrid(pos, widthPixel, heightPixel, start), ToGrid(pos, widthPixel, heightPixel, end))
    {
      cells := [];
      var x0 := (start.x - pos.x) / widthPixel;
      var y0 := (start.y - pos.y) / heightPixel;
      var x1 := (end.x - pos.x) / widthPixel;
      var y1 := (end.y - pos.y) / heightPixel;
      ghost var a, b := Pos2(x0, y0), Pos2(x1, y1);
      assert a == ToGrid(pos, widthPixel, heightPixel, start) && b == ToGrid(pos, widthPixel, heightPixel, end);

      var steep := false;
      if Abs(x0 - x1) < Abs(y0 - y1) {
        x0, y0 := y0, x0;
        x1, y1 := y1, x1;
        steep := true;
      }
      if x0 > x1 {
        x0, x1 := x1, x0;
        y0, y1 := y1, y0;
      }
      assert Raster.Normalize(a, b) == Raster.Span(x0, y0, x1, y1, steep);
      cells := Walk(x0, y0, x1, y1, steep);
    }

    /** The loop of `bresenham`, on the end points after its swaps. */
    method Walk(x0: real, y0: real, x1: real, y1: real, steep: bool) returns (cells: seq<(int, int)>)
      ensures cells == Raster.Line(Raster.Span(x0, y0, x1, y1, steep))
    {
      cells := [];
      var dx := x1 - x0;
      var dy := y1 - y0;
      var derror2 := Abs(dy) * 2.0;
      var error2 := 0.0;
      var y := TruncI32(y0);
      var x := TruncI32(x0);
      var xEnd := TruncI32(x1);
      ghost var up := y1 > y0;
      while x <= xEnd
        invariant cells + Raster.Walk(x, xEnd, y, error2, dx, derror2, up, steep)
               == Raster.Walk(TruncI32(x0), xEnd, TruncI32(y0), 0.0, dx, derror2, up, steep)
        decreases xEnd - x
      {
        ghost var rest := Raster.Walk(x, xEnd, y, error2, dx, derror2, up, steep);
        ghost var done := cells;
        if steep {
          cells := cells + [(y, x)];
        } else {
          cells := cells + [(x, y)];
        }
        error2 := error2 + derror2;
        if error2 > dx {
          if y1 > y0 {
            y := y + 1;
          } else {
            y := y - 1;
          }
          error2 := error2 - dx * 2.0;
        }
        x := x + 1;
        ghost var tail := Raster.Walk(x, xEnd, y, error2, dx, derror2, up, steep);
        ghost var c := cells[|cells| - 1];
        assert rest == [c] + tail;
        assert cells == done + [c];
        SeqShift(done, c, tail);
      }
    }

    /** The loop of `handle_event` that gives every cell of a path the paint color. */
    method Stroke(cells: seq<(int, int)>, c: Color32)
      requires Valid()
      modifies place.Keys
      ensures Valid()
      ensures PixelColors() == Paint(old(PixelColors()), cells, c)
    {
      ghost var g0 := PixelColors();
      FixCells(cells, c);
      ghost var g := Paint(g0, cells, c);
      forall i | 0 <= i < maxLine
        ensures PixelColors()[i] == g[i]
      {
        assert forall j :: 0 <= j < maxCol ==> PixelColors()[i][j] == g[i][j];
      }
    }

    /** The loop of `stroke`: each cell of the pool named in `cells` takes color c. */
    method FixCells(cells: seq<(int, int)>, c: Color32)
      requires Valid()
      modifies place.Keys
      ensures forall i, j :: 0 <= i < maxLine && 0 <= j < maxCol ==>
                pixels[i][j].color == if (j, i) in cells then c else old(pixels[i][j].color)
    {
      for k := 0 to |cells|
        invariant forall i, j :: 0 <= i < maxLine && 0 <= j < maxCol ==>
                    pixels[i][j].color == if (j, i) in cells[..k] then c else old(pixels[i][j].color)
      {
        assert cells[..k + 1] == cells[..k] + [cells[k]];
        var (x, y) := cells[k];
        // The source indexes `pixels[y][x]` without this check and panics on a cell outside the pool.
        if 0 <= y < maxLine && 0 <= x < maxCol {
          pixels[y][x].FixColor(c);
        }
      }
      assert cells[..|cells|] == cells;
    }

    /**
      * `handle_event`: the canvas and the interaction state `machine` change as
      * `Step` says.
      */
    method HandleEvent(event: Event, machine: States.State) returns (machine': States.State)
      requires Valid()
      modifies this, place.Keys
      ensures Valid()
      ensures (Snapshot(), machine') == Step(old(Snapshot()), event, machine)
    {
      machine' := machine;
      match machine {
        case Idle =>
          if event.PointerButton? && event.button == Primary {
            if Contains(event.pos) && event.pressed {
              dragStart := event.pos;
              previousDrag := event.pos;
              machine' := States.Drag;
            }
          }
        case Drag =>
          match event {
            case PointerButton(_, _, pressed) =>
              if !pressed {
                machine' := States.Idle;
              }
            case PointerMoved(p) =>
              HandleMove(p);
            case Other =>
          }
      }
    }

    /** The part of `handle_event` for a pointer move during a drag, in the current sub-mode. */
    method HandleMove(p: Pos2)
      requires Valid()
      modifies this, place.Keys
      ensures Valid()
      ensures Snapshot() == Move(old(Snapshot()), p)
    {
      match state {
        case Draw => DrawMove(p);
        case Drag => PanTo(p);
      }
    }

    /** A move in drawing mode: paint from the previous point to `p` when it lands on a visible cell. */
    method DrawMove(p: Pos2)
      requires Valid() && state == Draw
      modifies this, place.Keys
      ensures Valid()
      ensures Snapshot() == Move(old(Snapshot()), p)
    {
      if Contains(p) {
        DrawAt(p);
      }
    }

    /** A drawing move that stays inside the canvas: stroke when the target cell is visible, then follow. */
    method DrawAt(p: Pos2)
      requires Valid() && state == Draw && Contains(p)
      modifies this, place.Keys
      ensures Valid()
      ensures Snapshot() == Move(old(Snapshot()), p)
    {
      ghost var s0 := Snapshot();
      var delta := Sub(p, pos);
      var cellLine := TruncUsize(delta.y / heightPixel);
      var cellCol := TruncUsize(delta.x / widthPixel);
      assert TargetCell(s0, p) == (cellCol, cellLine);
      if cellLine < line && cellCol < col {
        StrokeTo(p);
      }
      Follow(p);
    }

    /** Paint the path from the previous drag point to `p` with the left-click color. */
    method StrokeTo(p: Pos2)
      requires Valid()
      modifies place.Keys
      ensures Valid()
      ensures Snapshot() == old(Snapshot()).(grid := Paint(old(PixelColors()), StrokeCells(old(Snapshot()), p), colorPickLeftClick))
    {
      var cells := Bresenham(previousDrag, p);
      Stroke(cells, colorPickLeftClick);
    }

    /** Remember `p` as the previous drag point. */
    method Follow(p: Pos2)
      requires Valid()
      modifies this`previousDrag
      ensures Valid()
      ensures Snapshot() == old(Snapshot()).(previousDrag := p)
    {
      previousDrag := p;
    }

    /** A move in panning mode: the anchor follows the pointer. */
    method PanTo(p: Pos2)
      requires Valid() && state == Drag
      modifies this
      ensures Valid()
      ensures Snapshot() == Move(old(Snapshot()), p)
    {
      ghost var s0 := Snapshot();
      var delta := Sub(p, dragStart);
      dragStart := p;
      pos := Translate(pos, delta);
      assert PixelColors() == s0.grid;
    }

    /** The frame's events, handed to `handle_event` one by one in arrival order. */
    method HandleEvents(events: seq<Event>, machine: States.State) returns (machine': States.State)
      requires Valid()
      modifies this, place.Keys
      ensures Valid()
      ensures (Snapshot(), machine') == Run(old(Snapshot()), events, machine)
    {
      machine' := machine;
      for k := 0 to |events|
        invariant Valid()
        invariant Run(Snapshot(), events[k..], machine') == Run(old(Snapshot()), events, machine)
      {
        assert events[k..][0] == events[k] && events[k..][1..] == events[k + 1..];
        machine' := HandleEvent(events[k], machine');
      }
    }
  }

  /**
    * The pixel pool of `Canvas::new`: maxLine lines of maxCol fresh white pixels,
    * with `where` giving the line and column of each of them.
    */
  method NewPool(maxLine: nat, maxCol: nat) returns (rows: seq<seq<Pixel>>, ghost where: map<Pixel, (nat, nat)>)
    ensures |rows| == maxLine && forall r :: 0 <= r < maxLine ==> |rows[r]| == maxCol
    ensures forall r, c :: 0 <= r < maxLine && 0 <= c < maxCol ==>
              rows[r][c] in where && where[rows[r][c]] == (r, c) && rows[r][c].color == White
    ensures forall p :: p in where ==>
              where[p].0 < maxLine && where[p].1 < maxCol && rows[where[p].0][where[p].1] == p
    ensures fresh(where.Keys)
  {
    rows := [];
    where := map[];
    for i := 0 to maxLine
      invariant |rows| == i && forall r :: 0 <= r < i ==> |rows[r]| == maxCol
      invariant forall r, c :: 0 <= r < i && 0 <= c < maxCol ==>
                  rows[r][c] in where && where[rows[r][c]] == (r, c) && rows[r][c].color == White
      invariant forall p :: p in where ==>
                  where[p].0 < i && where[p].1 < maxCol && rows[where[p].0][where[p].1] == p
      invariant fresh(where.Keys)
    {
      var row;
      row, where := NewLine(i, maxCol, where);
      rows := rows + [row];
    }
  }

  /** One line of the pool: n fresh white pixels, entered in `where` as line i. */
  method NewLine(i: nat, n: nat, ghost where0: map<Pixel, (nat, nat)>) returns (row: seq<Pixel>, ghost where: map<Pixel, (nat, nat)>)
    ensures |row| == n
    ensures forall c :: 0 <= c < n ==> row[c] in where && where[row[c]] == (i, c) && row[c].color == White
    ensures forall p :: p in where0 ==> p in where && where[p] == where0[p]
    ensures forall p :: p in where ==> p in where0 || (where[p].0 == i && where[p].1 < n && row[where[p].1] == p)
    ensures fresh(where.Keys - where0.Keys)
  {
    row := [];
    where := where0;
    for j := 0 to n
      invariant |row| == j
      invariant forall c :: 0 <= c < j ==> row[c] in where && where[row[c]] == (i, c) && row[c].color == White
      invariant forall p :: p in where0 ==> p in where && where[p] == where0[p]
      invariant forall p :: p in where ==> p in where0 || (where[p].0 == i && where[p].1 < j && row[where[p].1] == p)
      invariant fresh(where.Keys - where0.Keys)
    {
      var p := new Pixel();
      row := row + [p];
      where := where[p := (i, j)];
    }
  }

  /** Appending one element and then a tail is appending the tail with that element in front. */
  lemma SeqShift<T>(done: seq<T>, c: T, tail: seq<T>)
    ensures (done + [c]) + tail == done + ([c] + tail)
  {
  }

  /** `Canvas::default()`: a 200 x 200 pool anchored at (200, 200). */
  method DefaultCanvas() returns (c: Canvas)
    ensures c.Valid() && fresh(c) && fresh(c.place.Keys)
    ensures c.maxLine == 200 && c.maxCol == 200 && c.line == 100 && c.col == 100
    ensures c.pos == Pos2(200.0, 200.0)
    ensures forall i, j :: 0 <= i < 200 && 0 <= j < 200 ==> c.pixels[i][j].color == White
  {
    c := new Canvas(200, 200, Pos2(200.0, 200.0));
  }
}
