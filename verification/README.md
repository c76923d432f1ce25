# Z-buffer triangle rasterizer — Dafny model

This project models the rendering core of `CGassignment5.cpp`, a small
software rasterizer. The core does four things:

- It tessellates a UV sphere into triangles.
- It projects the vertices into pixel space: a perspective divide, then a
  linear viewport map. The z coordinate is kept as the depth key.
- It rasterizes every triangle. It scans the triangle's floor/ceil bounding
  box, skips cells outside the `nx` by `ny` grid, and tests each pixel centre
  `(x + 0.5, y + 0.5)` with inclusive barycentric weights. For a covered
  centre it interpolates the depth and applies a strict less-than depth test.
  A passing test writes depth and white colour together.
- It clears a colour framebuffer to black and a depth buffer to +infinity.

Single-precision floats are modelled as reals. A depth entry is
`Depth = Inf | Fin(z)`, with `Inf` standing for +infinity. The frame store is
a value `Frame(color, depth)` made of two `ny` by `nx` grids (`seq<seq<_>>`).
Each operation is a method whose loops follow the program's loops and which
returns the new frame. The cell-level functions `Raster.Sample`,
`Raster.Shade` and `Raster.ShadeAll` state what the loops do to a single cell.
The rasterizer is stated against these functions.

Modules, one per component: `Geometry` (vertices, triangles, colours,
depths), `FrameStore` (buffers and `clearBuffers`), `Coverage`
(`barycentric`, the coverage test, depth interpolation), `Raster`
(bounding box and one triangle), `Visibility` (the whole `rasterize` and
its z-buffer guarantees), `Projection` (`applyTransformations`), `Sphere`
(`createUnitSphere`) and `Pipeline` (the order `main` runs the stages in).

Modelling decisions:

- **Degenerate triangles.** When `den == 0` the model's `Barycentric`
  returns `None`, and such a triangle covers no cell. Under IEEE arithmetic
  the program computes `alpha` and `beta` as ±infinity or NaN there. All
  three tests `>= 0` pass only when neither is NaN and both are +infinity.
  But then `gamma = 1 - alpha - beta` is -infinity. So the program also
  covers nothing, and the two agree.
- **Bounding box.** The per-cell specification does not mention the box.
  `Raster.CoveredIsInBox` proves that every covered centre lies inside the
  floor/ceil box. So the program's box scan loses no covered cell, and every
  cell outside the box stays unchanged.
- **Which depth wins.** The smallest z wins the depth test. Geometry in
  front of the camera has z < 0, so the surface that wins is the one farther
  from the viewer. With the negative near value `n = -0.1`, the perspective
  divide also mirrors both x and y. For a uniformly white sphere neither
  effect is visible. The model keeps both exactly as written.
- **Drawing order.** With a strict less-than test, the first of two
  equal-depth triangles keeps the cell. Because the fill colour is constant, a cell's final
  state does not depend on drawing order at all
  (`Visibility.ShadeAllOrderIndependent`). The final depth is also fully
  determined (`Visibility.ShadeAllIsLeast`).

## Model

| member | source | states |
|---|---|---|
| FrameStore.ClearBuffers | CGassignment5.cpp:28-34 | after the clear every one of the `nx*ny` cells is black with depth +infinity, whatever the buffers held; the buffer dimensions are unchanged |
| FrameStore.ClearedInStep | CGassignment5.cpp:28-34 | a cleared frame satisfies the colour/depth invariant "white exactly when the depth is finite" |
| Pipeline.Allocated | CGassignment5.cpp:24-25 | the zero-initialised global buffers have the full `ny` by `nx` shape (depth 0, colour black) |
| Coverage.Barycentric | CGassignment5.cpp:36-42 | weights exist exactly when the triangle is not collinear (signed area non-zero), and then they sum to exactly 1 |
| Coverage.BarycentricReconstructs | CGassignment5.cpp:36-42 | the returned weights are affine coordinates of the point: `alpha a + beta b + gamma c = p` in x and y |
| Coverage.BarycentricUnique | CGassignment5.cpp:36-42 | conversely, any weights that sum to 1 and reconstruct `p` are the returned ones |
| Coverage.BarycentricAtVertices | CGassignment5.cpp:36-42 | at vertex a the weights are (1,0,0), at b (0,1,0), at c (0,0,1) |
| Coverage.BarycentricWindingSwap | CGassignment5.cpp:36-42 | swapping the first two vertices negates the signed area and swaps alpha and beta, so the coverage test ignores winding |
| Coverage.InterpolateBounds | CGassignment5.cpp:59 | with weights inside the triangle, the interpolated depth lies between the least and greatest vertex depth |
| Coverage.RightTriangleExample | CGassignment5.cpp:36-42 | the triangle (0,0), (10,0), (0,10) gives (2,2) the weights (0.6, 0.2, 0.2), which pass the coverage test |
| Coverage.CollinearExample | CGassignment5.cpp:37-39 | the collinear triangle (0,0), (1,0), (2,0) has no weights at any point |
| Raster.BoundingBox | CGassignment5.cpp:46-49 | the box is the smallest integer box enclosing all three vertices: every vertex lies within it, and each bound is less than one pixel away from some vertex |
| Raster.Sample | CGassignment5.cpp:55-59 | a cell centre yields a depth only for a non-degenerate triangle |
| Raster.CoveredIsInBox | CGassignment5.cpp:46-58 | a cell whose centre passes the inclusive coverage test lies inside the floor/ceil bounding box |
| Raster.OutsideBoxUnchanged | CGassignment5.cpp:46-58 | a triangle does not change any cell outside its bounding box |
| Raster.Shade | CGassignment5.cpp:58-63 | one triangle's effect on one cell: an uncovered cell is unchanged; otherwise the cell is unchanged or becomes white with the triangle's interpolated depth |
| Raster.ShadeAll | CGassignment5.cpp:45 | the triangle loop's effect on one cell: the cell is unchanged or white with a finite depth, and a changed finite depth is the sample of some triangle in the list |
| Raster.RasterizeTriangle | CGassignment5.cpp:46-66 | the bounding-box scan with grid clamping touches only in-grid cells and leaves each of them exactly as `Shade` prescribes: written only when covered and the interpolated z is strictly smaller than the stored depth |
| Visibility.ShadeStep | CGassignment5.cpp:58-63 | one triangle never raises a cell's depth; a changed cell is white and got a depth strictly below the old one |
| Visibility.ShadeAllNeverRaises | CGassignment5.cpp:45-63 | a cell's depth is non-increasing across the whole pass |
| Visibility.ShadeAllColour | CGassignment5.cpp:45-63 | after the pass a cell is white if its depth was lowered, and otherwise has its initial colour |
| Visibility.ShadeAllKeepsInStep | CGassignment5.cpp:58-63 | starting from colour/depth in step (as after the clear), a cell stays white exactly when its depth is finite |
| Visibility.ShadeAllIsLeast | CGassignment5.cpp:45-61 | the final depth is the minimum of the initial depth and the interpolated depths of all triangles covering the cell centre |
| Visibility.LeastUnique | CGassignment5.cpp:59-61 | that minimum is the same for any two triangle lists that contain the same triangles |
| Visibility.ShadeAllOrderIndependent | CGassignment5.cpp:45-63 | two triangle lists with the same members, in any order and with any repetition, leave every cell in the same state, colour included |
| Visibility.TwoTrianglesCommute | CGassignment5.cpp:45-63 | two triangles give the same cell in either order; if both cover a cleared cell, the smaller depth is stored with white |
| Visibility.UncoveredUnchanged | CGassignment5.cpp:58-63 | a cell that no triangle covers keeps its colour and depth |
| Visibility.OutsideAllBoxesUnchanged | CGassignment5.cpp:46-54 | a cell outside every triangle's bounding box keeps its colour and depth |
| Visibility.DegenerateDrawsNothing | CGassignment5.cpp:37-39 | a collinear triangle leaves every cell unchanged |
| Visibility.Rasterize | CGassignment5.cpp:44-68 | the frame keeps its shape; each cell's depth is the minimum described above and never rises; a changed cell is white with a strictly smaller depth; cells outside all boxes are unchanged; the colour/depth invariant is preserved |
| Projection.Perspective | CGassignment5.cpp:95-96 | the perspective image `p` of coordinate `c` at depth `z` satisfies `p * -z = c * n`: the point (p, -n) lies on the line through the eye and the vertex; with the program's n < 0 it is on the far side of the eye, so x and y are mirrored |
| Projection.Viewport | CGassignment5.cpp:98-99 | the viewport image `w` satisfies `w * (hi - lo) = (p - lo) * size`: the linear map sending `lo` to 0 and `hi` to `size` |
| Projection.ProjectVertex | CGassignment5.cpp:95-99 | projecting a vertex keeps its z |
| Projection.PerspectiveRoundTrip | CGassignment5.cpp:95-96 | the perspective divide `(c / -z) * n` is undone by `c' * -z / n`, in both directions |
| Projection.ViewportRoundTrip | CGassignment5.cpp:98-99 | the viewport map from `[lo, hi]` to `[0, size]` is undone by its inverse, in both directions |
| Projection.ProjectRoundTrip | CGassignment5.cpp:94-99 | unprojecting a projected vertex gives back the camera-space vertex |
| Projection.UnprojectRoundTrip | CGassignment5.cpp:94-99 | every pixel-space position with non-zero depth is the image of its unprojection, so the projection is a bijection |
| Projection.CentreMapsToMiddle | CGassignment5.cpp:92-99 | with `l = -r` and `b = -t`, the vertex (0, 0, z) maps to pixel (nx/2, ny/2) with z kept |
| Projection.FrustumEdgesMapToViewportEdges | CGassignment5.cpp:95-99 | points whose perspective image lies on the frustum bounds l, b (r, t) map to pixel 0 (nx, ny) |
| Projection.ProgramCameraSymmetric | CGassignment5.cpp:92 | the program's camera (l=-0.1, r=0.1, b=-0.1, t=0.1, n=-0.1) is valid and symmetric |
| Projection.ApplyTransformations | CGassignment5.cpp:91-102 | the list keeps its length and order; every vertex keeps its z; each projected vertex unprojects to the original |
| Sphere.Patch | CGassignment5.cpp:80-86 | the two triangles of a patch share vertex `point(i, j)` and the diagonal's far end `point(i+1, j+1)`; their remaining vertices are the other two corners `point(i+1, j)` and `point(i, j+1)` |
| Sphere.PatchIndexClosedForm | CGassignment5.cpp:73-76 | patch (i, j) is the `(i*slices + j)`-th patch emitted |
| Sphere.EmitBand | CGassignment5.cpp:76-87 | one band appends `slices` patches after the existing list, leaving earlier entries in place |
| Sphere.CreateUnitSphere | CGassignment5.cpp:70-89 | it appends exactly `2*stacks*slices` triangles and keeps existing entries; patch (i, j) is `(v0,v1,v2), (v0,v2,v3)` at position `2*(i*slices+j)`; if every sample point has non-zero depth, every new triangle can be projected |
| Pipeline.Render | CGassignment5.cpp:118-121 | clear, tessellate, project and rasterize: the mesh holds 1600 triangles, positions `2*(i*40+j)` and `2*(i*40+j)+1` being the projections of patch (i, j) of the sphere with the program's camera; the 512x512 frame holds in each cell what that mesh draws onto a cleared cell, and colour and depth are in step |

## Left out

- `createUnitSphere` vertex positions: they come from `sinf`, `cosf` and `M_PI`. The model takes the sample point `point(i, j)` as a parameter and models only the loop structure, the count and the vertex order.
- `display` and `main`: window creation, the GLUT event loop and `glDrawPixels` are foreign I/O. Only the stage order of `main` is modelled (`Pipeline.Render`).
- IEEE-754 float behaviour: rounding (the constants 0.1f and 0.5f are exact reals here), NaN and infinity propagation, and the float-to-int cast of huge or NaN bounds.
- Projection.ProjectVertex: requires `z != 0`. The program divides by `-z` there and gets non-finite pixel coordinates; the model does not represent those. It also requires a valid camera (`r != l`, `t != b`, `n != 0`). The program's camera satisfies this.
- Projection.ApplyTransformations: requires every vertex to have `z != 0`, for the same reason.
- Pipeline.Render: requires every sphere sample to have `z != 0`. The program's sphere lies between z = -9 and z = -5, so it satisfies this.
- The far-plane value `f` is declared but never used.
- The two separate writes per cell in `clearBuffers` and in the depth test are one combined step here. Nothing can observe the state between them.
- The buffers and the triangle list are explicit values passed through the stages, not globals updated in place. `createUnitSphere` appends to the global list with `push_back` and `applyTransformations` rewrites its vertices in place; the model returns new sequences instead. The grid size is a parameter; the program's value is 512 by 512 (`FrameStore.NX`, `FrameStore.NY`).
- Rendering a concrete scene, such as a two-triangle quad drawn into a 64 by 64 frame, is not evaluated cell by cell. That would need coverage computed over the whole grid. The properties it depends on are proved separately: coverage, clamping, and where the centre of the view lands.
