/** The frame store: a colour framebuffer and a depth buffer of identical
    dimensions, indexed `[y][x]` (row-major), and `clearBuffers`. */
module FrameStore {
  import opened Geometry

  /** Output resolution of the program. */
  const NX: nat := 512
  const NY: nat := 512

  datatype Frame = Frame(color: seq<seq<Color>>, depth: seq<seq<Depth>>)

  /** Both buffers are `ny` rows of `nx` cells. */
  predicate Shaped(f: Frame, nx: nat, ny: nat) {
    && |f.color| == ny
    && |f.depth| == ny
    && forall y :: 0 <= y < ny ==> |f.color[y]| == nx && |f.depth[y]| == nx
  }

  /** The cell at column x of row y. */
  function At(f: Frame, x: int, y: int): Pixel
    requires 0 <= y < |f.color| && 0 <= y < |f.depth|
    requires 0 <= x < |f.color[y]| && 0 <= x < |f.depth[y]|
  {
    Pixel(f.color[y][x], f.depth[y][x])
  }

  /** Overwrites one cell, colour and depth together. */
  function Put(f: Frame, x: int, y: int, p: Pixel, nx: nat, ny: nat): (g: Frame)
    requires Shaped(f, nx, ny)
    requires 0 <= x < nx && 0 <= y < ny
    ensures Shaped(g, nx, ny)
    ensures At(g, x, y) == p
    ensures forall r, c :: 0 <= r < ny && 0 <= c < nx && (r, c) != (y, x) ==> At(g, c, r) == At(f, c, r)
  {
    Frame(f.color[y := f.color[y][x := p.color]], f.depth[y := f.depth[y][x := p.depth]])
  }

  /** Every cell of an `nx` by `ny` frame satisfies `InStep`. */
  predicate FrameInStep(f: Frame, nx: nat, ny: nat)
    requires Shaped(f, nx, ny)
  {
    forall y, x :: 0 <= y < ny && 0 <= x < nx ==> InStep(At(f, x, y))
  }

  /** `clearBuffers`: visits every cell of the (already allocated) buffers,
      row by row, and resets it to black and +infinity. */
  method ClearBuffers(f: Frame, nx: nat, ny: nat) returns (g: Frame)
    requires Shaped(f, nx, ny)
    ensures Shaped(g, nx, ny)
    ensures forall y, x :: 0 <= y < ny && 0 <= x < nx ==> At(g, x, y) == Cleared
  {
    g := f;
    var y := 0;
    while y < ny
      invariant 0 <= y <= ny
      invariant Shaped(g, nx, ny)
      invariant forall r, c :: 0 <= r < y && 0 <= c < nx ==> At(g, c, r) == Cleared
    {
      var x := 0;
      while x < nx
        invariant 0 <= x <= nx
        invariant Shaped(g, nx, ny)
        invariant forall r, c :: 0 <= r < y && 0 <= c < nx ==> At(g, c, r) == Cleared
        invariant forall c :: 0 <= c < x ==> At(g, c, y) == Cleared
      {
        g := Put(g, x, y, Cleared, nx, ny);
        x := x + 1;
      }
      y := y + 1;
    }
  }

  /** A cleared frame has colour and depth in step. */
  lemma ClearedInStep(f: Frame, nx: nat, ny: nat)
    requires Shaped(f, nx, ny)
    requires forall y, x :: 0 <= y < ny && 0 <= x < nx ==> At(f, x, y) == Cleared
    ensures FrameInStep(f, nx, ny)
  {
  }
}
