/** Barycentric coordinates of a screen-space point with respect to a
    triangle, the coverage test built on them and depth interpolation. */
module Coverage {
  import opened Geometry

  datatype Weights = Weights(alpha: real, beta: real, gamma: real)

  /** Twice the signed area of the screen-space triangle (a, b, c); the
      denominator `den` of the barycentric ratios. It is zero exactly when the
      three points are collinear. */
  function Area2(a: Vec3, b: Vec3, c: Vec3): real {
    (b.y - c.y) * (a.x - c.x) + (c.x - b.x) * (a.y - c.y)
  }

  /** `barycentric`: the signed-area weights of p with respect to (a, b, c),
      with gamma defined as 1 - alpha - beta. A degenerate triangle has no
      weights (see README: under IEEE arithmetic its weights never pass the
      coverage test either). */
  function Barycentric(a: Vec3, b: Vec3, c: Vec3, p: Vec3): (r: Option<Weights>)
    ensures r.None? <==> Area2(a, b, c) == 0.0
    ensures r.Some? ==> r.value.alpha + r.value.beta + r.value.gamma == 1.0
  {
    var den := Area2(a, b, c);
    if den == 0.0 then None
    else
      var alpha := ((b.y - c.y) * (p.x - c.x) + (c.x - b.x) * (p.y - c.y)) / den;
      var beta := ((c.y - a.y) * (p.x - c.x) + (a.x - c.x) * (p.y - c.y)) / den;
      Some(Weights(alpha, beta, 1.0 - alpha - beta))
  }

  /** The weights combine the vertices into the point: p = alpha a + beta b + gamma c. */
  predicate Reconstructs(w: Weights, a: Vec3, b: Vec3, c: Vec3, p: Vec3) {
    && w.alpha * a.x + w.beta * b.x + w.gamma * c.x == p.x
    && w.alpha * a.y + w.beta * b.y + w.gamma * c.y == p.y
  }

  /** The inclusive containment test `alpha >= 0 && beta >= 0 && gamma >= 0`. */
  predicate Inside(w: Weights) {
    w.alpha >= 0.0 && w.beta >= 0.0 && w.gamma >= 0.0
  }

  /** The weights Barycentric returns are affine coordinates of p. */
  lemma BarycentricReconstructs(a: Vec3, b: Vec3, c: Vec3, p: Vec3)
    requires Area2(a, b, c) != 0.0
    ensures Barycentric(a, b, c, p).Some?
    ensures Reconstructs(Barycentric(a, b, c, p).value, a, b, c, p)
  {
    var den := Area2(a, b, c);
    var w := Barycentric(a, b, c, p).value;
    var dax, day, dbx, dby := a.x - c.x, a.y - c.y, b.x - c.x, b.y - c.y;
    var u, v := p.x - c.x, p.y - c.y;
    var na := dby * u - dbx * v;
    var nb := dax * v - day * u;
    assert w.alpha * den == na;
    assert w.beta * den == nb;
    assert den == dax * dby - day * dbx;
    assert na * dax + nb * dbx == u * den;
    assert na * day + nb * dby == v * den;
    assert (w.alpha * dax + w.beta * dbx) * den == u * den;
    assert (w.alpha * day + w.beta * dby) * den == v * den;
    assert w.alpha * dax + w.beta * dbx == u;
    assert w.alpha * day + w.beta * dby == v;
  }

  /** Conversely, affine coordinates of p are unique: any weights summing to
      one that reconstruct p are the ones Barycentric returns. */
  lemma BarycentricUnique(a: Vec3, b: Vec3, c: Vec3, p: Vec3, w: Weights)
    requires Area2(a, b, c) != 0.0
    requires w.alpha + w.beta + w.gamma == 1.0
    requires Reconstructs(w, a, b, c, p)
    ensures Barycentric(a, b, c, p) == Some(w)
  {
    BarycentricReconstructs(a, b, c, p);
    var v := Barycentric(a, b, c, p).value;
    var dax, day, dbx, dby := a.x - c.x, a.y - c.y, b.x - c.x, b.y - c.y;
    var da, db := w.alpha - v.alpha, w.beta - v.beta;
    assert w.alpha * dax + w.beta * dbx == p.x - c.x;
    assert v.alpha * dax + v.beta * dbx == p.x - c.x;
    assert w.alpha * day + w.beta * dby == p.y - c.y;
    assert v.alpha * day + v.beta * dby == p.y - c.y;
    assert da * dax + db * dbx == 0.0;
    assert da * day + db * dby == 0.0;
    assert da * (dax * dby - day * dbx) == (da * dax + db * dbx) * dby - (da * day + db * dby) * dbx;
    assert da * (dax * dby - day * dbx) == 0.0;
    assert Area2(a, b, c) == dax * dby - day * dbx;
    assert da == 0.0;
    assert db * (dax * dby - day * dbx) == (da * day + db * dby) * dax - (da * dax + db * dbx) * day;
    assert db * (dax * dby - day * dbx) == 0.0;
    assert db == 0.0;
  }

  /** At the vertices the weights are the unit triples. */
  lemma BarycentricAtVertices(a: Vec3, b: Vec3, c: Vec3)
    requires Area2(a, b, c) != 0.0
    ensures Barycentric(a, b, c, a) == Some(Weights(1.0, 0.0, 0.0))
    ensures Barycentric(a, b, c, b) == Some(Weights(0.0, 1.0, 0.0))
    ensures Barycentric(a, b, c, c) == Some(Weights(0.0, 0.0, 1.0))
  {
    BarycentricUnique(a, b, c, a, Weights(1.0, 0.0, 0.0));
    BarycentricUnique(a, b, c, b, Weights(0.0, 1.0, 0.0));
    BarycentricUnique(a, b, c, c, Weights(0.0, 0.0, 1.0));
  }

  /** Listing the vertices in the other winding swaps alpha and beta; the
      coverage test does not depend on the triangle's orientation. */
  lemma BarycentricWindingSwap(a: Vec3, b: Vec3, c: Vec3, p: Vec3)
    requires Area2(a, b, c) != 0.0
    ensures Area2(b, a, c) == -Area2(a, b, c)
    ensures Barycentric(a, b, c, p).Some? && Barycentric(b, a, c, p).Some?
    ensures var w := Barycentric(a, b, c, p).value;
            Barycentric(b, a, c, p).value == Weights(w.beta, w.alpha, w.gamma)
    ensures Inside(Barycentric(a, b, c, p).value) <==> Inside(Barycentric(b, a, c, p).value)
  {
    BarycentricReconstructs(a, b, c, p);
    var w := Barycentric(a, b, c, p).value;
    BarycentricUnique(b, a, c, p, Weights(w.beta, w.alpha, w.gamma));
  }

  /** A point with non-negative weights is a convex combination of the
      vertices, so it lies between their least and greatest coordinates. */
  lemma ConvexCombinationBounds(alpha: real, beta: real, gamma: real, s: real, t: real, u: real)
    requires alpha >= 0.0 && beta >= 0.0 && gamma >= 0.0
    requires alpha + beta + gamma == 1.0
    ensures Min3(s, t, u) <= alpha * s + beta * t + gamma * u <= Max3(s, t, u)
  {
    var m, mm := Min3(s, t, u), Max3(s, t, u);
    MulNonNegative(alpha, s - m);
    MulNonNegative(beta, t - m);
    MulNonNegative(gamma, u - m);
    MulNonNegative(alpha, mm - s);
    MulNonNegative(beta, mm - t);
    MulNonNegative(gamma, mm - u);
    assert alpha * s + beta * t + gamma * u - m == alpha * (s - m) + beta * (t - m) + gamma * (u - m);
    assert mm - (alpha * s + beta * t + gamma * u) == alpha * (mm - s) + beta * (mm - t) + gamma * (mm - u);
  }

  lemma MulNonNegative(p: real, q: real)
    requires p >= 0.0 && q >= 0.0
    ensures p * q >= 0.0
  {
  }

  function Min3(s: real, t: real, u: real): (m: real)
    ensures m <= s && m <= t && m <= u
    ensures m == s || m == t || m == u
  {
    if s <= t && s <= u then s else if t <= u then t else u
  }

  function Max3(s: real, t: real, u: real): (m: real)
    ensures m >= s && m >= t && m >= u
    ensures m == s || m == t || m == u
  {
    if s >= t && s >= u then s else if t >= u then t else u
  }

  /** `alpha * z0 + beta * z1 + gamma * z2`: the depth at weights w. */
  function Interpolate(w: Weights, tri: Triangle): real {
    w.alpha * tri.v0.z + w.beta * tri.v1.z + w.gamma * tri.v2.z
  }

  /** Interpolated depth stays between the least and greatest vertex depth. */
  lemma InterpolateBounds(w: Weights, tri: Triangle)
    requires Inside(w) && w.alpha + w.beta + w.gamma == 1.0
    ensures Min3(tri.v0.z, tri.v1.z, tri.v2.z) <= Interpolate(w, tri) <= Max3(tri.v0.z, tri.v1.z, tri.v2.z)
  {
    ConvexCombinationBounds(w.alpha, w.beta, w.gamma, tri.v0.z, tri.v1.z, tri.v2.z);
  }

  /** The right triangle (0,0), (10,0), (0,10) contains (2, 2) with weights
      (0.6, 0.2, 0.2), each in [0, 1]. */
  lemma RightTriangleExample(z0: real, z1: real, z2: real)
    ensures var w := Barycentric(Vec3(0.0, 0.0, z0), Vec3(10.0, 0.0, z1), Vec3(0.0, 10.0, z2), Vec3(2.0, 2.0, 0.0));
            w == Some(Weights(0.6, 0.2, 0.2)) && Inside(w.value)
  {
  }

  /** The collinear triangle (0,0), (1,0), (2,0) has no weights at any point. */
  lemma CollinearExample(p: Vec3)
    ensures Barycentric(Vec3(0.0, 0.0, 1.0), Vec3(1.0, 0.0, 1.0), Vec3(2.0, 0.0, 1.0), p).None?
  {
  }
}
