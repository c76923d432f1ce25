/** `rasterize`: bounding-box scan, barycentric coverage of pixel centres,
    depth interpolation and the strict less-than depth test. The cell-level
    functions (Sample, Shade, ShadeAll) state what happens to one cell; the
    methods perform the program's loops over the frame store. */
module Raster {
  import opened Geometry
  import opened FrameStore
  import opened Coverage

  /** `std::floor` of a real, as the integer the loop starts from. */
  function Floor(r: real): (n: int)
    ensures n as real <= r < n as real + 1.0
  {
    r.Floor
  }

  /** `std::ceil` of a real, as the integer the loop stops at. */
  function Ceil(r: real): (n: int)
    ensures r <= n as real < r + 1.0
  {
    -((-r).Floor)
  }

  /** The inclusive integer pixel range a triangle's loops scan. */
  datatype Box = Box(xmin: int, xmax: int, ymin: int, ymax: int)

  /** The smallest integer box whose bounds enclose all three vertices. */
  function BoundingBox(tri: Triangle): (box: Box)
    ensures box.xmin <= box.xmax && box.ymin <= box.ymax
    ensures forall v :: v in [tri.v0, tri.v1, tri.v2] ==>
              box.xmin as real <= v.x <= box.xmax as real && box.ymin as real <= v.y <= box.ymax as real
    ensures exists v :: v in [tri.v0, tri.v1, tri.v2] && v.x < box.xmin as real + 1.0
    ensures exists v :: v in [tri.v0, tri.v1, tri.v2] && v.x > box.xmax as real - 1.0
    ensures exists v :: v in [tri.v0, tri.v1, tri.v2] && v.y < box.ymin as real + 1.0
    ensures exists v :: v in [tri.v0, tri.v1, tri.v2] && v.y > box.ymax as real - 1.0
  {
    Box(Floor(Min3(tri.v0.x, tri.v1.x, tri.v2.x)), Ceil(Max3(tri.v0.x, tri.v1.x, tri.v2.x)),
        Floor(Min3(tri.v0.y, tri.v1.y, tri.v2.y)), Ceil(Max3(tri.v0.y, tri.v1.y, tri.v2.y)))
  }

  predicate InBox(tri: Triangle, x: int, y: int) {
    var box := BoundingBox(tri);
    box.xmin <= x <= box.xmax && box.ymin <= y <= box.ymax
  }

  /** The sample point of pixel (x, y): its centre. */
  function Centre(x: int, y: int): Vec3 {
    Vec3(x as real + 0.5, y as real + 0.5, 0.0)
  }

  /** The interpolated depth of the triangle at the centre of (x, y), when
      the centre passes the inclusive coverage test; None otherwise
      (including every pixel of a degenerate triangle). */
  function Sample(tri: Triangle, x: int, y: int): (r: Option<real>)
    ensures r.Some? ==> Area2(tri.v0, tri.v1, tri.v2) != 0.0
  {
    match Barycentric(tri.v0, tri.v1, tri.v2, Centre(x, y))
    case None => None
    case Some(w) => if Inside(w) then Some(Interpolate(w, tri)) else None
  }

  /** The bounding box is conservative: every pixel whose centre the
      triangle covers lies in the floor/ceil box the program scans. */
  lemma CoveredIsInBox(tri: Triangle, x: int, y: int)
    requires Sample(tri, x, y).Some?
    ensures InBox(tri, x, y)
  {
    var a, b, c, p := tri.v0, tri.v1, tri.v2, Centre(x, y);
    BarycentricReconstructs(a, b, c, p);
    var w := Barycentric(a, b, c, p).value;
    assert Inside(w);
    InsideIsInBox(tri, x, y, w);
  }

  lemma InsideIsInBox(tri: Triangle, x: int, y: int, w: Weights)
    requires Inside(w) && w.alpha + w.beta + w.gamma == 1.0
    requires Reconstructs(w, tri.v0, tri.v1, tri.v2, Centre(x, y))
    ensures InBox(tri, x, y)
  {
    var a, b, c := tri.v0, tri.v1, tri.v2;
    AxisInRange(w.alpha, w.beta, w.gamma, a.x, b.x, c.x, x);
    AxisInRange(w.alpha, w.beta, w.gamma, a.y, b.y, c.y, y);
  }

  /** On one axis: a pixel whose centre is a convex combination of the
      vertex coordinates lies between their floor/ceil bounds. */
  lemma AxisInRange(alpha: real, beta: real, gamma: real, s: real, t: real, u: real, x: int)
    requires alpha >= 0.0 && beta >= 0.0 && gamma >= 0.0
    requires alpha + beta + gamma == 1.0
    requires alpha * s + beta * t + gamma * u == x as real + 0.5
    ensures Floor(Min3(s, t, u)) <= x <= Ceil(Max3(s, t, u))
  {
    ConvexCombinationBounds(alpha, beta, gamma, s, t, u);
    CentreInRange(x, Min3(s, t, u), Max3(s, t, u));
  }

  /** A pixel whose centre lies in [lo, hi] lies in [floor lo, ceil hi]. */
  lemma CentreInRange(x: int, lo: real, hi: real)
    requires lo <= x as real + 0.5 <= hi
    ensures Floor(lo) <= x <= Ceil(hi)
  {
  }

  /** The effect of one triangle on the cell (x, y): a covered centre whose
      interpolated depth is strictly smaller overwrites depth and colour
      together; otherwise the cell is left alone. */
  function Shade(tri: Triangle, x: int, y: int, p: Pixel): (q: Pixel)
    ensures Sample(tri, x, y).None? ==> q == p
    ensures q == p || (Sample(tri, x, y).Some? && q == Pixel(White, Fin(Sample(tri, x, y).value)))
  {
    match Sample(tri, x, y)
    case Some(z) => if DepthBelow(z, p.depth) then Pixel(White, Fin(z)) else p
    case None => p
  }

  /** The cell after the triangles are drawn in list order. */
  function ShadeAll(tris: seq<Triangle>, x: int, y: int, p: Pixel): (q: Pixel)
    ensures q == p || (q.color == White && q.depth.Fin?)
    ensures q.depth.Fin? && q.depth != p.depth ==> exists t :: t in tris && Sample(t, x, y) == Some(q.depth.z)
    decreases |tris|
  {
    if |tris| == 0 then p
    else Shade(tris[|tris| - 1], x, y, ShadeAll(tris[..|tris| - 1], x, y, p))
  }

  /** A triangle leaves untouched every pixel outside its bounding box. */
  lemma OutsideBoxUnchanged(tri: Triangle, x: int, y: int, p: Pixel)
    requires !InBox(tri, x, y)
    ensures Shade(tri, x, y, p) == p
  {
    if Sample(tri, x, y).Some? {
      CoveredIsInBox(tri, x, y);
    }
  }

  /** `rasterize` for one triangle: the program's nested loops over the
      bounding box, skipping rows and columns outside the grid. */
  method RasterizeTriangle(f: Frame, tri: Triangle, nx: nat, ny: nat) returns (g: Frame)
    requires Shaped(f, nx, ny)
    ensures Shaped(g, nx, ny)
    ensures forall y, x :: 0 <= y < ny && 0 <= x < nx ==> At(g, x, y) == Shade(tri, x, y, At(f, x, y))
  {
    var box := BoundingBox(tri);
    forall r, c | 0 <= r < ny && 0 <= c < nx && !InBox(tri, c, r)
      ensures Shade(tri, c, r, At(f, c, r)) == At(f, c, r)
    {
      OutsideBoxUnchanged(tri, c, r, At(f, c, r));
    }
    g := f;
    var y := box.ymin;
    while y <= box.ymax
      invariant box.ymin <= y
      invariant y <= box.ymax + 1
      invariant Shaped(g, nx, ny)
      invariant forall r, c :: 0 <= r < ny && 0 <= c < nx ==>
                  At(g, c, r) == if r < y then Shade(tri, c, r, At(f, c, r)) else At(f, c, r)
    {
      if 0 <= y < ny {
        var x := box.xmin;
        while x <= box.xmax
          invariant box.xmin <= x
          invariant x <= box.xmax + 1
          invariant Shaped(g, nx, ny)
          invariant forall r, c :: 0 <= r < ny && 0 <= c < nx ==>
                      At(g, c, r) == if r < y || (r == y && c < x) then Shade(tri, c, r, At(f, c, r)) else At(f, c, r)
        {
          if 0 <= x < nx {
            var bary := Barycentric(tri.v0, tri.v1, tri.v2, Centre(x, y));
            if bary.Some? && Inside(bary.value) {
              var z := Interpolate(bary.value, tri);
              if DepthBelow(z, g.depth[y][x]) {
                g := Put(g, x, y, Pixel(White, Fin(z)), nx, ny);
              }
            }
          }
          x := x + 1;
        }
      }
      y := y + 1;
    }
  }
}
