/** Value types shared by every stage of the rasterizer: camera/screen-space
    vertices, triangles, 8-bit colours and the depth key with its +infinity
    sentinel. Single-precision floats are modelled as mathematical reals. */
module Geometry {

  datatype Option<+T> = None | Some(value: T)

  /** A vertex. Before projection it is in camera space (viewer at the
      origin looking down -z); after projection x and y are continuous pixel
      coordinates and z is the untouched camera-space depth. */
  datatype Vec3 = Vec3(x: real, y: real, z: real)

  /** Three vertices; their order only fixes the sign of the signed area. */
  datatype Triangle = Triangle(v0: Vec3, v1: Vec3, v2: Vec3)

  type Byte = n: int | 0 <= n < 256

  datatype Color = Color(r: Byte, g: Byte, b: Byte)

  const Black: Color := Color(0, 0, 0)
  const White: Color := Color(255, 255, 255)

  /** A depth-buffer entry: +infinity ("nothing drawn yet") or a finite depth. */
  datatype Depth = Inf | Fin(z: real)

  /** The rasterizer's strict depth test `z < depth`; every finite depth is
      below +infinity. The smaller z passes: for geometry in front of the
      camera (z < 0) that is the surface farther from the viewer. */
  predicate DepthBelow(z: real, d: Depth) {
    d.Inf? || z < d.z
  }

  /** The order on depth entries induced by reading Inf as +infinity. */
  predicate DepthLe(a: Depth, b: Depth) {
    b.Inf? || (a.Fin? && a.z <= b.z)
  }

  lemma DepthLeAntisymmetric(a: Depth, b: Depth)
    requires DepthLe(a, b) && DepthLe(b, a)
    ensures a == b
  {
  }

  lemma DepthLeTransitive(a: Depth, b: Depth, c: Depth)
    requires DepthLe(a, b) && DepthLe(b, c)
    ensures DepthLe(a, c)
  {
  }

  /** One cell of the frame store seen as a whole: its colour and its depth. */
  datatype Pixel = Pixel(color: Color, depth: Depth)

  /** The state `clearBuffers` leaves in every cell. */
  const Cleared: Pixel := Pixel(Black, Inf)

  /** Colour and depth in step: a cell is white exactly when a finite depth
      has been recorded for it. */
  predicate InStep(p: Pixel) {
    p.color == White <==> p.depth.Fin?
  }
}
