/** The program's render pass, in the order `main` runs it: clear the
    buffers, tessellate the sphere, project it, rasterize it. */
module Pipeline {
  import opened Geometry
  import opened FrameStore
  import opened Raster
  import opened Visibility
  import opened Projection
  import opened Sphere

  /** The buffers as the program allocates them: zero-initialised static
      storage, so every depth is 0 and every colour black before the first
      clear. */
  function Allocated(nx: nat, ny: nat): (f: Frame)
    ensures Shaped(f, nx, ny)
    ensures forall y, x :: 0 <= y < ny && 0 <= x < nx ==> At(f, x, y) == Pixel(Black, Fin(0.0))
  {
    Frame(seq(ny, _ => seq(nx, _ => Black)), seq(ny, _ => seq(nx, _ => Fin(0.0))))
  }

  /** One render pass over the 512 by 512 frame store with the program's
      camera and tessellation. The result is the projected mesh and the
      frame it was drawn into: every cell holds what drawing the mesh onto
      a cleared cell gives, and colour and depth are in step everywhere. */
  method Render(point: (int, int) -> Vec3) returns (mesh: seq<Triangle>, f: Frame)
    requires forall i, j :: point(i, j).z != 0.0
    ensures |mesh| == 2 * Stacks * Slices
    ensures forall i: nat, j: nat :: i < Stacks && j < Slices ==>
              && mesh[2 * (i * Slices + j)] == ProjectTriangle(ProgramCamera, NX, NY, Patch(point, i, j)[0])
              && mesh[2 * (i * Slices + j) + 1] == ProjectTriangle(ProgramCamera, NX, NY, Patch(point, i, j)[1])
    ensures Shaped(f, NX, NY)
    ensures forall y, x :: 0 <= y < NY && 0 <= x < NX ==> At(f, x, y) == ShadeAll(mesh, x, y, Cleared)
    ensures FrameInStep(f, NX, NY)
  {
    var g := ClearBuffers(Allocated(NX, NY), NX, NY);
    var sphere := CreateUnitSphere(Stacks, Slices, point, []);
    ProgramCameraSymmetric();
    mesh := ApplyTransformations(ProgramCamera, NX, NY, sphere);
    ClearedInStep(g, NX, NY);
    f := Rasterize(g, mesh, NX, NY);
    forall i: nat, j: nat | i < Stacks && j < Slices
      ensures && mesh[2 * (i * Slices + j)] == ProjectTriangle(ProgramCamera, NX, NY, Patch(point, i, j)[0])
              && mesh[2 * (i * Slices + j) + 1] == ProjectTriangle(ProgramCamera, NX, NY, Patch(point, i, j)[1])
    {
      assert HasPatch(sphere, 0, Slices, point, i, j);
      PatchIndexClosedForm(Slices, i, j);
      var k := 2 * (i * Slices + j);
      assert sphere[k] == sphere[k..k + 2][0] && sphere[k + 1] == sphere[k..k + 2][1];
    }
  }
}
