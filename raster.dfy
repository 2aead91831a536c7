/**
  * The line rasterizer of the canvas (`Canvas::bresenham` in canvas.rs), stated in
  * grid space: the two end points have already been divided by the pixel size.
  * Cells are pairs (x, y) = (column, line), as the source returns them.
  */
module Raster {
  import opened Geometry

  /** The end points after the rasterizer's two swaps, and whether x and y were exchanged. */
  datatype Span = Span(x0: real, y0: real, x1: real, y1: real, steep: bool)

  /** Exchanges the two coordinates of a point when the segment is steep. */
  function Transpose(p: Pos2, steep: bool): Pos2 {
    if steep then Pos2(p.y, p.x) else p
  }

  /**
    * The swaps made before the loop: x and y are exchanged when the segment is
    * steeper than 45 degrees, then the end points are ordered by x.
    */
  function Normalize(a: Pos2, b: Pos2): (s: Span)
    ensures s.steep <==> Abs(a.x - b.x) < Abs(a.y - b.y)
    ensures s.x0 <= s.x1 && Abs(s.y1 - s.y0) <= s.x1 - s.x0
    ensures multiset{Pos2(s.x0, s.y0), Pos2(s.x1, s.y1)} == multiset{Transpose(a, s.steep), Transpose(b, s.steep)}
  {
    var steep := Abs(a.x - b.x) < Abs(a.y - b.y);
    var p := Transpose(a, steep);
    var q := Transpose(b, steep);
    if p.x > q.x then Span(q.x, q.y, p.x, p.y, steep) else Span(p.x, p.y, q.x, q.y, steep)
  }

  /** The cell pushed for loop position x and minor coordinate y. */
  function Plot(x: int, y: int, steep: bool): (int, int) {
    if steep then (y, x) else (x, y)
  }

  /** The coordinate of a cell along which the loop runs. */
  function Major(c: (int, int), steep: bool): int {
    if steep then c.1 else c.0
  }

  /** The coordinate of a cell that the error term moves. */
  function Minor(c: (int, int), steep: bool): int {
    if steep then c.0 else c.1
  }

  /** The direction of the minor steps: up when the far end lies above the near one. */
  function Dir(up: bool): int {
    if up then 1 else -1
  }

  /** One update of the minor coordinate and the error term after a cell is pushed. */
  function Advance(y: int, err: real, dx: real, derr: real, up: bool): (int, real) {
    var err1 := err + derr;
    if err1 > dx then (y + Dir(up), err1 - dx * 2.0) else (y, err1)
  }

  /** The loop of the rasterizer from position x to xEnd inclusive. */
  function Walk(x: int, xEnd: int, y: int, err: real, dx: real, derr: real, up: bool, steep: bool): seq<(int, int)>
    decreases xEnd - x
  {
    if x > xEnd then []
    else
      var (y', err') := Advance(y, err, dx, derr, up);
      [Plot(x, y, steep)] + Walk(x + 1, xEnd, y', err', dx, derr, up, steep)
  }

  /** The loop started as the source starts it on a normalized span. */
  function Line(s: Span): seq<(int, int)> {
    Walk(TruncI32(s.x0), TruncI32(s.x1), TruncI32(s.y0), 0.0, s.x1 - s.x0, Abs(s.y1 - s.y0) * 2.0, s.y1 > s.y0, s.steep)
  }

  /** The cells `bresenham` returns for two points in grid space. */
  function Cells(a: Pos2, b: Pos2): seq<(int, int)> {
    Line(Normalize(a, b))
  }

  /**
    * The loop pushes one cell per position from x to xEnd; the major coordinate
    * of the k-th cell is x + k, the first cell sits on the minor coordinate y, and
    * each step moves the minor coordinate by 0 or by one in the direction `up`.
    */
  lemma {:induction false} WalkShape(x: int, xEnd: int, y: int, err: real, dx: real, derr: real, up: bool, steep: bool)
    requires x <= xEnd
    decreases xEnd - x
    ensures var r := Walk(x, xEnd, y, err, dx, derr, up, steep);
      && |r| == xEnd - x + 1
      && Minor(r[0], steep) == y
      && (forall k :: 0 <= k < |r| ==> Major(r[k], steep) == x + k)
      && (forall k :: 0 <= k < |r| - 1 ==> Minor(r[k + 1], steep) - Minor(r[k], steep) in {0, Dir(up)})
  {
    var r := Walk(x, xEnd, y, err, dx, derr, up, steep);
    var (y', err') := Advance(y, err, dx, derr, up);
    var rest := Walk(x + 1, xEnd, y', err', dx, derr, up, steep);
    assert r == [Plot(x, y, steep)] + rest;
    if x < xEnd {
      WalkShape(x + 1, xEnd, y', err', dx, derr, up, steep);
      forall k | 0 <= k < |r|
        ensures Major(r[k], steep) == x + k
      {
        if k > 0 { assert r[k] == rest[k - 1]; }
      }
      forall k | 0 <= k < |r| - 1
        ensures Minor(r[k + 1], steep) - Minor(r[k], steep) in {0, Dir(up)}
      {
        if k > 0 { assert r[k] == rest[k - 1] && r[k + 1] == rest[k]; }
      }
    }
  }

  /** Without slope (no error increment) the minor coordinate never moves. */
  lemma {:induction false} WalkFlat(x: int, xEnd: int, y: int, err: real, dx: real, up: bool, steep: bool)
    requires err <= dx
    decreases xEnd - x
    ensures forall k :: 0 <= k < |Walk(x, xEnd, y, err, dx, 0.0, up, steep)| ==>
              Minor(Walk(x, xEnd, y, err, dx, 0.0, up, steep)[k], steep) == y
  {
    var r := Walk(x, xEnd, y, err, dx, 0.0, up, steep);
    if x <= xEnd {
      var rest := Walk(x + 1, xEnd, y, err, dx, 0.0, up, steep);
      assert r == [Plot(x, y, steep)] + rest;
      WalkFlat(x + 1, xEnd, y, err, dx, up, steep);
      forall k | 0 <= k < |r|
        ensures Minor(r[k], steep) == y
      {
        if k > 0 {
          assert r[k] == rest[k - 1];
        }
      }
    }
  }

  /** How far the k-th cell has moved from y in the direction `up`. */
  function Moves(c: (int, int), y: int, up: bool, steep: bool): int {
    Dir(up) * (Minor(c, steep) - y)
  }

  /** The error term after k cells of which m moved the minor coordinate. */
  function Error(err: real, k: int, derr: real, dx: real, m: int): real {
    err + k as real * derr - 2.0 * dx * m as real
  }

  /**
    * After k cells, with m minor steps taken, the error term err + k * derr - 2 * m * dx
    * lies within [-dx, dx].
    */
  ghost predicate Tracks(r: seq<(int, int)>, y: int, err: real, dx: real, derr: real, up: bool, steep: bool) {
    forall k :: 0 <= k < |r| ==> -dx <= Error(err, k, derr, dx, Moves(r[k], y, up, steep)) <= dx
  }

  /**
    * The error bound of the algorithm: with an error increment of at most twice
    * the major extent dx, after k cells the number m of minor steps taken keeps
    * err + k * derr - 2 * m * dx within [-dx, dx].
    */
  lemma {:induction false} WalkTracks(x: int, xEnd: int, y: int, err: real, dx: real, derr: real, up: bool, steep: bool)
    requires 0.0 <= derr <= 2.0 * dx && -dx <= err <= dx
    decreases xEnd - x
    ensures Tracks(Walk(x, xEnd, y, err, dx, derr, up, steep), y, err, dx, derr, up, steep)
  {
    if x <= xEnd {
      var (y', err') := Advance(y, err, dx, derr, up);
      var rest := Walk(x + 1, xEnd, y', err', dx, derr, up, steep);
      assert Walk(x, xEnd, y, err, dx, derr, up, steep) == [Plot(x, y, steep)] + rest;
      WalkTracks(x + 1, xEnd, y', err', dx, derr, up, steep);
      var d: int := if err + derr > dx then 1 else 0;
      assert err' == err + derr - 2.0 * dx * d as real;
      TracksCons(Plot(x, y, steep), rest, y, err, dx, derr, up, steep, d);
    }
  }

  /** One more cell in front of a walk that keeps the error bound keeps it as well. */
  lemma TracksCons(c: (int, int), rest: seq<(int, int)>, y: int, err: real, dx: real, derr: real, up: bool, steep: bool, d: int)
    requires Minor(c, steep) == y && -dx <= err <= dx
    requires Tracks(rest, y + Dir(up) * d, err + derr - 2.0 * dx * d as real, dx, derr, up, steep)
    ensures Tracks([c] + rest, y, err, dx, derr, up, steep)
  {
    var r := [c] + rest;
    var y', err' := y + Dir(up) * d, err + derr - 2.0 * dx * d as real;
    forall k | 0 <= k < |r|
      ensures -dx <= Error(err, k, derr, dx, Moves(r[k], y, up, steep)) <= dx
    {
      if k > 0 {
        assert r[k] == rest[k - 1];
        var m' := Moves(rest[k - 1], y', up, steep);
        assert -dx <= Error(err', k - 1, derr, dx, m') <= dx;
        MovesShift(rest[k - 1], y, d, up, steep);
        ErrorShift(err, derr, dx, k, m', d);
      } else {
        assert Moves(r[k], y, up, steep) == 0;
      }
    }
  }

  /** Moving the reference line by d minor steps lowers the count of moves by d. */
  lemma MovesShift(c: (int, int), y: int, d: int, up: bool, steep: bool)
    ensures Moves(c, y, up, steep) == Moves(c, y + Dir(up) * d, up, steep) + d
  {
    if up {
      assert Moves(c, y + Dir(up) * d, up, steep) == Minor(c, steep) - y - d;
    } else {
      assert Moves(c, y + Dir(up) * d, up, steep) == y - d - Minor(c, steep);
    }
  }

  /** The error term one cell further on, rewritten from the start of the walk. */
  lemma ErrorShift(err: real, derr: real, dx: real, k: int, m': int, d: int)
    ensures Error(err + derr - 2.0 * dx * d as real, k - 1, derr, dx, m') == Error(err, k, derr, dx, m' + d)
  {
    assert (k - 1) as real * derr == k as real * derr - derr;
    assert 2.0 * dx * (m' + d) as real == 2.0 * dx * m' as real + 2.0 * dx * d as real;
  }

  /**
    * `bresenham(a, b) == bresenham(b, a)`: the steep test does not depend on the
    * order of the arguments and the end points are then ordered by x; when the two
    * x coordinates tie, the two points are equal.
    */
  lemma CellsSymmetric(a: Pos2, b: Pos2)
    ensures Cells(a, b) == Cells(b, a)
  {
    var s, t := Normalize(a, b), Normalize(b, a);
    assert Abs(a.x - b.x) == Abs(b.x - a.x) && Abs(a.y - b.y) == Abs(b.y - a.y);
    var p, q := Transpose(a, s.steep), Transpose(b, s.steep);
    if p.x == q.x && !s.steep {
      assert Abs(a.y - b.y) <= Abs(a.x - b.x) == 0.0;
    }
    assert p.x == q.x ==> a == b;
    assert s == t;
  }

  /**
    * The shape of the result on the normalized axes: it is never empty, it has one
    * cell per integer position from trunc(x0) to trunc(x1), it starts at
    * (trunc x0, trunc y0), each step advances the major coordinate by one and the
    * minor one by 0 or by the sign of y1 - y0, and a level span never moves it.
    */
  lemma CellsShape(a: Pos2, b: Pos2)
    ensures var s, r := Normalize(a, b), Cells(a, b);
      && |r| == TruncI32(s.x1) - TruncI32(s.x0) + 1 >= 1
      && r[0] == Plot(TruncI32(s.x0), TruncI32(s.y0), s.steep)
      && (forall k :: 0 <= k < |r| ==> Major(r[k], s.steep) == TruncI32(s.x0) + k)
      && (forall k :: 0 <= k < |r| - 1 ==> Minor(r[k + 1], s.steep) - Minor(r[k], s.steep) in {0, Dir(s.y1 > s.y0)})
      && (s.y1 == s.y0 ==> forall k :: 0 <= k < |r| ==> Minor(r[k], s.steep) == TruncI32(s.y0))
  {
    var s := Normalize(a, b);
    TruncI32Monotone(s.x0, s.x1);
    var x0, x1, y0 := TruncI32(s.x0), TruncI32(s.x1), TruncI32(s.y0);
    var dx, derr, up := s.x1 - s.x0, Abs(s.y1 - s.y0) * 2.0, s.y1 > s.y0;
    WalkShape(x0, x1, y0, 0.0, dx, derr, up, s.steep);
    var r := Walk(x0, x1, y0, 0.0, dx, derr, up, s.steep);
    assert Minor(r[0], s.steep) == y0 && Major(r[0], s.steep) == x0;
    if s.y1 == s.y0 {
      WalkFlat(x0, x1, y0, 0.0, dx, up, s.steep);
    }
  }

  /**
    * The result is an 8-connected path without repeats: consecutive cells are
    * distinct and differ by at most one in each coordinate.
    */
  lemma CellsConnected(a: Pos2, b: Pos2)
    ensures var r := Cells(a, b);
      forall k :: 0 <= k < |r| - 1 ==>
        r[k] != r[k + 1] && -1 <= r[k + 1].0 - r[k].0 <= 1 && -1 <= r[k + 1].1 - r[k].1 <= 1
  {
    CellsShape(a, b);
    var s := Normalize(a, b);
    PathConnected(Cells(a, b), TruncI32(s.x0), s.steep, s.y1 > s.y0);
  }

  /** A path that advances one major step per cell and at most one minor step is 8-connected. */
  lemma PathConnected(r: seq<(int, int)>, x: int, steep: bool, up: bool)
    requires forall k :: 0 <= k < |r| ==> Major(r[k], steep) == x + k
    requires forall k :: 0 <= k < |r| - 1 ==> Minor(r[k + 1], steep) - Minor(r[k], steep) in {0, Dir(up)}
    ensures forall k :: 0 <= k < |r| - 1 ==>
      r[k] != r[k + 1] && -1 <= r[k + 1].0 - r[k].0 <= 1 && -1 <= r[k + 1].1 - r[k].1 <= 1
  {
    forall k | 0 <= k < |r| - 1
      ensures r[k] != r[k + 1] && -1 <= r[k + 1].0 - r[k].0 <= 1 && -1 <= r[k + 1].1 - r[k].1 <= 1
    {
      Neighbour(r[k], r[k + 1], steep, up);
    }
  }

  /** A cell one further along the major axis and at most one off on the minor axis is an 8-neighbour. */
  lemma Neighbour(c: (int, int), c': (int, int), steep: bool, up: bool)
    requires Major(c', steep) == Major(c, steep) + 1
    requires Minor(c', steep) - Minor(c, steep) in {0, Dir(up)}
    ensures c != c' && -1 <= c'.0 - c.0 <= 1 && -1 <= c'.1 - c.1 <= 1
  {
  }

  /**
    * The cells follow the ideal line: with dx = x1 - x0 and dy = y1 - y0 on the
    * normalized axes, after k cells the number m of minor steps taken satisfies
    * -dx <= 2 * k * |dy| - 2 * m * dx <= dx, that is m stays within half a cell of
    * k * |dy| / dx.
    */
  lemma CellsTrackLine(a: Pos2, b: Pos2)
    ensures var s := Normalize(a, b);
      Tracks(Cells(a, b), TruncI32(s.y0), 0.0, s.x1 - s.x0, Abs(s.y1 - s.y0) * 2.0, s.y1 > s.y0, s.steep)
  {
    var s := Normalize(a, b);
    WalkTracks(TruncI32(s.x0), TruncI32(s.x1), TruncI32(s.y0), 0.0, s.x1 - s.x0, Abs(s.y1 - s.y0) * 2.0, s.y1 > s.y0, s.steep);
  }

  /**
    * Fractional end points can take the path off the grid and miss the far end's
    * cell: from (0.75, 0.5) to (1.25, 0.0) the result is [(0, 0), (1, -1)], whose
    * second cell has line -1, while the cell of the far end is (1, 0).
    */
  lemma CellsLeaveGrid()
    ensures Cells(Pos2(0.75, 0.5), Pos2(1.25, 0.0)) == [(0, 0), (1, -1)]
    ensures (TruncI32(1.25), TruncI32(0.0)) !in Cells(Pos2(0.75, 0.5), Pos2(1.25, 0.0))
  {
    var s := Normalize(Pos2(0.75, 0.5), Pos2(1.25, 0.0));
    assert s == Span(0.75, 0.5, 1.25, 0.0, false);
    TruncBin(0.75, 0);
    TruncBin(0.5, 0);
    TruncBin(1.25, 1);
    TruncBin(0.0, 0);
    assert Walk(2, 1, -2, 1.0, 0.5, 1.0, false, false) == [];
    assert Walk(1, 1, -1, 0.0, 0.5, 1.0, false, false) == [(1, -1)];
    assert Walk(0, 1, 0, 0.0, 0.5, 1.0, false, false) == [(0, 0), (1, -1)];
  }
}
