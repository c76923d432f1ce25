/** What the z-buffer guarantees about one cell after a list of triangles
    has been drawn: depth never rises, colour follows depth, and the final
    depth is the least of the initial depth and every covering sample, so
    it does not depend on the order the triangles are drawn in. */
module Visibility {
  import opened Geometry
  import opened Coverage
  import opened FrameStore
  import opened Raster

  /** d is the minimum of d0 and every depth the triangles sample at (x, y). */
  predicate IsLeast(d: Depth, tris: seq<Triangle>, x: int, y: int, d0: Depth) {
    && DepthLe(d, d0)
    && (forall t :: t in tris && Sample(t, x, y).Some? ==> DepthLe(d, Fin(Sample(t, x, y).value)))
    && (d == d0 || (d.Fin? && exists t :: t in tris && Sample(t, x, y) == Some(d.z)))
  }

  /** Drawing one more triangle never raises a cell's depth; a changed
      depth is strictly smaller and comes with white. */
  lemma ShadeStep(tri: Triangle, x: int, y: int, p: Pixel)
    ensures DepthLe(Shade(tri, x, y, p).depth, p.depth)
    ensures Shade(tri, x, y, p) != p ==>
              Shade(tri, x, y, p).color == White && Shade(tri, x, y, p).depth.Fin? &&
              DepthBelow(Shade(tri, x, y, p).depth.z, p.depth)
  {
  }

  /** Across a whole pass a cell's depth never rises. */
  lemma {:induction false} ShadeAllNeverRaises(tris: seq<Triangle>, x: int, y: int, p: Pixel)
    ensures DepthLe(ShadeAll(tris, x, y, p).depth, p.depth)
    decreases |tris|
  {
    if |tris| > 0 {
      var q := ShadeAll(tris[..|tris| - 1], x, y, p);
      ShadeAllNeverRaises(tris[..|tris| - 1], x, y, p);
      ShadeStep(tris[|tris| - 1], x, y, q);
      DepthLeTransitive(ShadeAll(tris, x, y, p).depth, q.depth, p.depth);
    }
  }

  /** Colour is a function of depth: a cell whose depth was lowered is white,
      any other cell keeps its initial colour. */
  lemma {:induction false} ShadeAllColour(tris: seq<Triangle>, x: int, y: int, p: Pixel)
    ensures ShadeAll(tris, x, y, p).color ==
              if ShadeAll(tris, x, y, p).depth == p.depth then p.color else White
    decreases |tris|
  {
    if |tris| > 0 {
      var pre := tris[..|tris| - 1];
      var q := ShadeAll(pre, x, y, p);
      ShadeAllColour(pre, x, y, p);
      ShadeAllNeverRaises(pre, x, y, p);
      ShadeStep(tris[|tris| - 1], x, y, q);
    }
  }

  /** Colour and depth stay in step across a pass: from cleared buffers a
      cell is white exactly when it holds a finite depth. */
  lemma ShadeAllKeepsInStep(tris: seq<Triangle>, x: int, y: int, p: Pixel)
    requires InStep(p)
    ensures InStep(ShadeAll(tris, x, y, p))
  {
    ShadeAllColour(tris, x, y, p);
    ShadeAllNeverRaises(tris, x, y, p);
  }

  /** The final depth is the least of the initial depth and the depths of
      all triangles covering the cell's centre. */
  lemma {:induction false} ShadeAllIsLeast(tris: seq<Triangle>, x: int, y: int, p: Pixel)
    ensures IsLeast(ShadeAll(tris, x, y, p).depth, tris, x, y, p.depth)
    decreases |tris|
  {
    if |tris| > 0 {
      var pre, last := tris[..|tris| - 1], tris[|tris| - 1];
      assert tris == pre + [last];
      var q := ShadeAll(pre, x, y, p);
      ShadeAllIsLeast(pre, x, y, p);
      var d := Shade(last, x, y, q).depth;
      ShadeStep(last, x, y, q);
      DepthLeTransitive(d, q.depth, p.depth);
      forall t | t in tris && Sample(t, x, y).Some?
        ensures DepthLe(d, Fin(Sample(t, x, y).value))
      {
        if t in pre {
          DepthLeTransitive(d, q.depth, Fin(Sample(t, x, y).value));
        }
      }
      if d != q.depth {
        assert Sample(last, x, y) == Some(d.z);
      }
    }
  }

  /** Only one depth satisfies the least-depth characterisation. */
  lemma LeastUnique(d1: Depth, d2: Depth, ts1: seq<Triangle>, ts2: seq<Triangle>, x: int, y: int, d0: Depth)
    requires forall t :: t in ts1 <==> t in ts2
    requires IsLeast(d1, ts1, x, y, d0) && IsLeast(d2, ts2, x, y, d0)
    ensures d1 == d2
  {
    if d2 != d0 {
      var t :| t in ts2 && Sample(t, x, y) == Some(d2.z);
      assert t in ts1;
    }
    if d1 != d0 {
      var t :| t in ts1 && Sample(t, x, y) == Some(d1.z);
      assert t in ts2;
    }
    DepthLeAntisymmetric(d1, d2);
  }

  /** The drawing order does not matter: two lists with the same triangles
      (in any order, with any repetition) leave every cell in the same
      state, colour included. */
  lemma ShadeAllOrderIndependent(ts1: seq<Triangle>, ts2: seq<Triangle>, x: int, y: int, p: Pixel)
    requires forall t :: t in ts1 <==> t in ts2
    ensures ShadeAll(ts1, x, y, p) == ShadeAll(ts2, x, y, p)
  {
    ShadeAllIsLeast(ts1, x, y, p);
    ShadeAllIsLeast(ts2, x, y, p);
    LeastUnique(ShadeAll(ts1, x, y, p).depth, ShadeAll(ts2, x, y, p).depth, ts1, ts2, x, y, p.depth);
    ShadeAllColour(ts1, x, y, p);
    ShadeAllColour(ts2, x, y, p);
  }

  /** Two overlapping triangles give the same cell in either order; when
      both cover the centre of a cleared cell the smaller depth wins. */
  lemma TwoTrianglesCommute(t1: Triangle, t2: Triangle, x: int, y: int, p: Pixel)
    ensures ShadeAll([t1, t2], x, y, p) == ShadeAll([t2, t1], x, y, p)
    ensures p == Cleared && Sample(t1, x, y).Some? && Sample(t2, x, y).Some? &&
            Sample(t1, x, y).value < Sample(t2, x, y).value ==>
              ShadeAll([t2, t1], x, y, p) == Pixel(White, Fin(Sample(t1, x, y).value))
  {
    ShadeAllOrderIndependent([t1, t2], [t2, t1], x, y, p);
    if p == Cleared && Sample(t1, x, y).Some? && Sample(t2, x, y).Some? &&
       Sample(t1, x, y).value < Sample(t2, x, y).value {
      var z1, z2 := Sample(t1, x, y).value, Sample(t2, x, y).value;
      assert [t2, t1][..1] == [t2];
      assert [t2][..0] == [];
      var q := Shade(t2, x, y, p);
      assert q == Pixel(White, Fin(z2));
      assert ShadeAll([t2], x, y, p) == q;
      assert Shade(t1, x, y, q) == Pixel(White, Fin(z1));
    }
  }

  /** A cell no triangle covers keeps its colour and depth. */
  lemma UncoveredUnchanged(tris: seq<Triangle>, x: int, y: int, p: Pixel)
    requires forall t :: t in tris ==> Sample(t, x, y).None?
    ensures ShadeAll(tris, x, y, p) == p
  {
    ShadeAllIsLeast(tris, x, y, p);
    ShadeAllColour(tris, x, y, p);
  }

  /** A cell outside every triangle's bounding box keeps its colour and depth. */
  lemma OutsideAllBoxesUnchanged(tris: seq<Triangle>, x: int, y: int, p: Pixel)
    requires forall t :: t in tris ==> !InBox(t, x, y)
    ensures ShadeAll(tris, x, y, p) == p
  {
    forall t | t in tris ensures Sample(t, x, y).None? {
      if Sample(t, x, y).Some? {
        CoveredIsInBox(t, x, y);
      }
    }
    UncoveredUnchanged(tris, x, y, p);
  }

  /** A degenerate (collinear) triangle draws nothing. */
  lemma DegenerateDrawsNothing(tri: Triangle, x: int, y: int, p: Pixel)
    requires Area2(tri.v0, tri.v1, tri.v2) == 0.0
    ensures Shade(tri, x, y, p) == p
  {
  }

  /** `rasterize`: every triangle in list order. */
  method Rasterize(f: Frame, tris: seq<Triangle>, nx: nat, ny: nat) returns (g: Frame)
    requires Shaped(f, nx, ny)
    ensures Shaped(g, nx, ny)
    ensures forall y, x :: 0 <= y < ny && 0 <= x < nx ==> At(g, x, y) == ShadeAll(tris, x, y, At(f, x, y))
    ensures forall y, x :: 0 <= y < ny && 0 <= x < nx ==> IsLeast(At(g, x, y).depth, tris, x, y, At(f, x, y).depth)
    ensures forall y, x :: 0 <= y < ny && 0 <= x < nx ==> DepthLe(At(g, x, y).depth, At(f, x, y).depth)
    ensures forall y, x :: 0 <= y < ny && 0 <= x < nx && At(g, x, y) != At(f, x, y) ==>
              At(g, x, y).color == White && At(g, x, y).depth.Fin? && DepthBelow(At(g, x, y).depth.z, At(f, x, y).depth)
    ensures forall y, x :: 0 <= y < ny && 0 <= x < nx && (forall t :: t in tris ==> !InBox(t, x, y)) ==>
              At(g, x, y) == At(f, x, y)
    ensures FrameInStep(f, nx, ny) ==> FrameInStep(g, nx, ny)
  {
    g := f;
    var i := 0;
    while i < |tris|
      invariant 0 <= i <= |tris|
      invariant Shaped(g, nx, ny)
      invariant forall y, x :: 0 <= y < ny && 0 <= x < nx ==> At(g, x, y) == ShadeAll(tris[..i], x, y, At(f, x, y))
    {
      assert tris[..i + 1][..i] == tris[..i];
      g := RasterizeTriangle(g, tris[i], nx, ny);
      i := i + 1;
    }
    assert tris[..|tris|] == tris;
    forall y, x | 0 <= y < ny && 0 <= x < nx
      ensures IsLeast(At(g, x, y).depth, tris, x, y, At(f, x, y).depth)
      ensures DepthLe(At(g, x, y).depth, At(f, x, y).depth)
      ensures At(g, x, y) != At(f, x, y) ==>
                At(g, x, y).color == White && At(g, x, y).depth.Fin? && DepthBelow(At(g, x, y).depth.z, At(f, x, y).depth)
      ensures (forall t :: t in tris ==> !InBox(t, x, y)) ==> At(g, x, y) == At(f, x, y)
      ensures InStep(At(f, x, y)) ==> InStep(At(g, x, y))
    {
      var p := At(f, x, y);
      ShadeAllIsLeast(tris, x, y, p);
      ShadeAllColour(tris, x, y, p);
      if forall t :: t in tris ==> !InBox(t, x, y) {
        OutsideAllBoxesUnchanged(tris, x, y, p);
      }
      if InStep(p) {
        ShadeAllKeepsInStep(tris, x, y, p);
      }
    }
  }
}
