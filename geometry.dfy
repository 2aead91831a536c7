/**
  * Screen geometry: egui's `Pos2`, `Vec2` and `Rect`, with `f32` taken as `real`,
  * and the two numeric casts the canvas uses (`f32 as i32` and `f32 as usize`).
  */
module Geometry {

  /** A point on the screen. */
  datatype Pos2 = Pos2(x: real, y: real)

  /** A displacement between two points. */
  datatype Vec2 = Vec2(x: real, y: real)

  /** `Pos2::ZERO`. */
  const Origin: Pos2 := Pos2(0.0, 0.0)

  /** `a - b` on two points. */
  function Sub(a: Pos2, b: Pos2): Vec2 {
    Vec2(a.x - b.x, a.y - b.y)
  }

  /** `p + v` (and `p += v`). */
  function Translate(p: Pos2, v: Vec2): Pos2 {
    Pos2(p.x + v.x, p.y + v.y)
  }

  function AddVec(u: Vec2, v: Vec2): Vec2 {
    Vec2(u.x + v.x, u.y + v.y)
  }

  /** Translating twice is translating once by the sum of the two displacements. */
  lemma TranslateCompose(p: Pos2, u: Vec2, v: Vec2)
    ensures Translate(Translate(p, u), v) == Translate(p, AddVec(u, v))
  {
  }

  /** An axis-aligned rectangle given by its two corners. */
  datatype Rect = Rect(min: Pos2, max: Pos2) {

    /** `Rect::contains`: egui closes the rectangle on all four edges. */
    predicate Contains(p: Pos2) {
      min.x <= p.x <= max.x && min.y <= p.y <= max.y
    }
  }

  /** `Rect::from_min_size`. */
  function FromMinSize(min: Pos2, size: Vec2): (r: Rect)
    ensures r.min == min && r.max.x - r.min.x == size.x && r.max.y - r.min.y == size.y
  {
    Rect(min, Translate(min, size))
  }

  function Abs(v: real): (r: real)
    ensures r >= 0.0 && (r == v || r == -v)
  {
    if v < 0.0 then -v else v
  }

  /** `v as i32`: rounds toward zero (the saturation at the bounds of `i32` is not modelled). */
  function TruncI32(v: real): (n: int)
    ensures v >= 0.0 ==> n as real <= v < n as real + 1.0
    ensures v < 0.0 ==> n as real - 1.0 < v <= n as real
  {
    if v >= 0.0 then v.Floor else -((-v).Floor)
  }

  /** `v as usize`: negative values saturate to 0, the others round toward zero. */
  function TruncUsize(v: real): (n: nat)
    ensures v < 0.0 ==> n == 0
    ensures v >= 0.0 ==> n as real <= v < n as real + 1.0
  {
    if v < 0.0 then 0 else v.Floor
  }

  /** Rounding toward zero keeps the order of its arguments. */
  lemma TruncI32Monotone(u: real, v: real)
    requires u <= v
    ensures TruncI32(u) <= TruncI32(v)
  {
    if u >= 0.0 {
      assert TruncI32(u) as real <= u <= v < TruncI32(v) as real + 1.0;
    } else if v < 0.0 {
      assert TruncI32(u) as real - 1.0 < u <= v <= TruncI32(v) as real;
    } else {
      assert TruncI32(u) as real - 1.0 < u < 0.0;
    }
  }

  /**
    * Both casts agree on non-negative values, and a value in the bin [k, k + 1)
    * is sent to k: cells are addressed by discrete bins.
    */
  lemma TruncBin(v: real, k: int)
    requires k >= 0 && k as real <= v < k as real + 1.0
    ensures TruncI32(v) == k && TruncUsize(v) == k
  {
  }

  /** The corner of bin k, k steps of size w from the origin o, maps back to bin k. */
  lemma CornerBin(o: real, w: real, k: nat)
    requires w > 0.0
    ensures TruncUsize(((o + k as real * w) - o) / w) == k
    ensures TruncI32(((o + k as real * w) - o) / w) == k
  {
    assert (o + k as real * w) - o == k as real * w;
    assert (k as real * w) / w == k as real;
    TruncBin(k as real, k);
  }
}
