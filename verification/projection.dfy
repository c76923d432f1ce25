/** `applyTransformations`: perspective divide onto the near plane followed
    by a linear viewport map of x and y into pixel space; z is carried
    through unchanged as the depth key. */
module Projection {
  import opened Geometry

  /** The frustum bounds at the near plane and the near-plane value `n`.
      The program's far-plane value is never used and is not modelled. */
  datatype Camera = Camera(l: real, r: real, b: real, t: real, n: real)

  /** The program's fixed camera. */
  const ProgramCamera: Camera := Camera(-0.1, 0.1, -0.1, 0.1, -0.1)

  /** The viewport map divides by `r - l` and `t - b`; undoing the
      perspective divide also needs `n != 0`. */
  predicate ValidCamera(cam: Camera) {
    cam.r != cam.l && cam.t != cam.b && cam.n != 0.0
  }

  /** The program divides by `-z`; a vertex on the camera plane has no image. */
  predicate Projectable(tri: Triangle) {
    tri.v0.z != 0.0 && tri.v1.z != 0.0 && tri.v2.z != 0.0
  }

  /** Perspective divide of one coordinate onto the near plane. */
  function Perspective(c: real, z: real, n: real): (p: real)
    requires z != 0.0
    ensures p * -z == c * n
  {
    (c / -z) * n
  }

  /** Linear map of [lo, hi] onto [0, size]. */
  function Viewport(p: real, lo: real, hi: real, size: nat): (w: real)
    requires lo != hi
    ensures w * (hi - lo) == (p - lo) * size as real
  {
    ((p - lo) / (hi - lo)) * size as real
  }

  function Unperspective(p: real, z: real, n: real): real
    requires n != 0.0
  {
    p * -z / n
  }

  function Unviewport(w: real, lo: real, hi: real, size: nat): real
    requires size > 0
  {
    (w / size as real) * (hi - lo) + lo
  }

  /** One vertex through the projection: x and y become pixel coordinates,
      z is untouched. */
  function ProjectVertex(cam: Camera, nx: nat, ny: nat, v: Vec3): (w: Vec3)
    requires ValidCamera(cam) && v.z != 0.0
    ensures w.z == v.z
  {
    Vec3(Viewport(Perspective(v.x, v.z, cam.n), cam.l, cam.r, nx),
         Viewport(Perspective(v.y, v.z, cam.n), cam.b, cam.t, ny),
         v.z)
  }

  /** The inverse mapping: from a pixel-space position and its depth back to
      the camera-space vertex. */
  function UnprojectVertex(cam: Camera, nx: nat, ny: nat, w: Vec3): Vec3
    requires ValidCamera(cam) && nx > 0 && ny > 0
  {
    Vec3(Unperspective(Unviewport(w.x, cam.l, cam.r, nx), w.z, cam.n),
         Unperspective(Unviewport(w.y, cam.b, cam.t, ny), w.z, cam.n),
         w.z)
  }

  /** Each part of the projection is undone by the matching part of the
      inverse, in both directions. */
  lemma PerspectiveRoundTrip(c: real, z: real, n: real)
    requires z != 0.0 && n != 0.0
    ensures Unperspective(Perspective(c, z, n), z, n) == c
    ensures Perspective(Unperspective(c, z, n), z, n) == c
  {
    var q := c / -z;
    assert q * -z == c;
    assert (q * n) * -z / n == q * -z;
    var u := c * -z / n;
    assert u * n == c * -z;
    assert (u / -z) * n == (u * n) / -z;
  }

  lemma ViewportRoundTrip(p: real, lo: real, hi: real, size: nat)
    requires lo != hi && size > 0
    ensures Unviewport(Viewport(p, lo, hi, size), lo, hi, size) == p
    ensures Viewport(Unviewport(p, lo, hi, size), lo, hi, size) == p
  {
    var s := size as real;
    var q := (p - lo) / (hi - lo);
    assert q * s / s == q;
    assert q * (hi - lo) == p - lo;
    var u := p / s;
    assert (u * (hi - lo) + lo) - lo == u * (hi - lo);
    assert u * (hi - lo) / (hi - lo) == u;
    assert u * s == p;
  }

  /** Projection loses nothing: unprojecting the image gives back the vertex. */
  lemma ProjectRoundTrip(cam: Camera, nx: nat, ny: nat, v: Vec3)
    requires ValidCamera(cam) && nx > 0 && ny > 0 && v.z != 0.0
    ensures UnprojectVertex(cam, nx, ny, ProjectVertex(cam, nx, ny, v)) == v
  {
    ViewportRoundTrip(Perspective(v.x, v.z, cam.n), cam.l, cam.r, nx);
    ViewportRoundTrip(Perspective(v.y, v.z, cam.n), cam.b, cam.t, ny);
    PerspectiveRoundTrip(v.x, v.z, cam.n);
    PerspectiveRoundTrip(v.y, v.z, cam.n);
  }

  /** And every pixel-space position with a non-zero depth is the image of
      the vertex UnprojectVertex gives. */
  lemma UnprojectRoundTrip(cam: Camera, nx: nat, ny: nat, w: Vec3)
    requires ValidCamera(cam) && nx > 0 && ny > 0 && w.z != 0.0
    ensures ProjectVertex(cam, nx, ny, UnprojectVertex(cam, nx, ny, w)) == w
  {
    PerspectiveRoundTrip(Unviewport(w.x, cam.l, cam.r, nx), w.z, cam.n);
    PerspectiveRoundTrip(Unviewport(w.y, cam.b, cam.t, ny), w.z, cam.n);
    ViewportRoundTrip(w.x, cam.l, cam.r, nx);
    ViewportRoundTrip(w.y, cam.b, cam.t, ny);
  }

  /** With a symmetric frustum the centre of the near plane (x = y = 0, any
      depth) lands on the centre of the viewport. */
  lemma CentreMapsToMiddle(cam: Camera, nx: nat, ny: nat, z: real)
    requires ValidCamera(cam) && cam.l == -cam.r && cam.b == -cam.t && z != 0.0
    ensures ProjectVertex(cam, nx, ny, Vec3(0.0, 0.0, z)) == Vec3(nx as real / 2.0, ny as real / 2.0, z)
  {
    assert (0.0 - cam.l) / (cam.r - cam.l) == 0.5;
    assert (0.0 - cam.b) / (cam.t - cam.b) == 0.5;
  }

  /** The frustum edges map to the viewport edges: a vertex whose perspective
      image is at `l` (`b`) lands on pixel column (row) 0, one at `r` (`t`)
      on column `nx` (row `ny`). */
  lemma FrustumEdgesMapToViewportEdges(cam: Camera, nx: nat, ny: nat, z: real)
    requires ValidCamera(cam) && z != 0.0
    ensures var lo := ProjectVertex(cam, nx, ny, Vec3(Unperspective(cam.l, z, cam.n), Unperspective(cam.b, z, cam.n), z));
            lo.x == 0.0 && lo.y == 0.0
    ensures var hi := ProjectVertex(cam, nx, ny, Vec3(Unperspective(cam.r, z, cam.n), Unperspective(cam.t, z, cam.n), z));
            hi.x == nx as real && hi.y == ny as real
  {
    PerspectiveRoundTrip(cam.l, z, cam.n);
    PerspectiveRoundTrip(cam.b, z, cam.n);
    PerspectiveRoundTrip(cam.r, z, cam.n);
    PerspectiveRoundTrip(cam.t, z, cam.n);
  }

  /** The program's camera is valid and symmetric. */
  lemma ProgramCameraSymmetric()
    ensures ValidCamera(ProgramCamera)
    ensures ProgramCamera.l == -ProgramCamera.r && ProgramCamera.b == -ProgramCamera.t
  {
  }

  function ProjectTriangle(cam: Camera, nx: nat, ny: nat, tri: Triangle): Triangle
    requires ValidCamera(cam) && Projectable(tri)
  {
    Triangle(ProjectVertex(cam, nx, ny, tri.v0), ProjectVertex(cam, nx, ny, tri.v1), ProjectVertex(cam, nx, ny, tri.v2))
  }

  /** `applyTransformations`: projects every vertex of every triangle. No
      triangle is dropped or reordered and every depth is kept. */
  method ApplyTransformations(cam: Camera, nx: nat, ny: nat, tris: seq<Triangle>) returns (out: seq<Triangle>)
    requires ValidCamera(cam)
    requires forall i :: 0 <= i < |tris| ==> Projectable(tris[i])
    ensures |out| == |tris|
    ensures forall i :: 0 <= i < |tris| ==> out[i] == ProjectTriangle(cam, nx, ny, tris[i])
    ensures forall i :: 0 <= i < |tris| ==>
              out[i].v0.z == tris[i].v0.z && out[i].v1.z == tris[i].v1.z && out[i].v2.z == tris[i].v2.z
    ensures nx > 0 && ny > 0 ==> forall i :: 0 <= i < |tris| ==>
              && UnprojectVertex(cam, nx, ny, out[i].v0) == tris[i].v0
              && UnprojectVertex(cam, nx, ny, out[i].v1) == tris[i].v1
              && UnprojectVertex(cam, nx, ny, out[i].v2) == tris[i].v2
  {
    out := [];
    var i := 0;
    while i < |tris|
      invariant 0 <= i <= |tris|
      invariant |out| == i
      invariant forall k :: 0 <= k < i ==> out[k] == ProjectTriangle(cam, nx, ny, tris[k])
    {
      out := out + [ProjectTriangle(cam, nx, ny, tris[i])];
      i := i + 1;
    }
    if nx > 0 && ny > 0 {
      forall i | 0 <= i < |tris|
        ensures && UnprojectVertex(cam, nx, ny, out[i].v0) == tris[i].v0
                && UnprojectVertex(cam, nx, ny, out[i].v1) == tris[i].v1
                && UnprojectVertex(cam, nx, ny, out[i].v2) == tris[i].v2
      {
        ProjectRoundTrip(cam, nx, ny, tris[i].v0);
        ProjectRoundTrip(cam, nx, ny, tris[i].v1);
        ProjectRoundTrip(cam, nx, ny, tris[i].v2);
      }
    }
  }
}
