/** `createUnitSphere`: the UV-sphere tessellation, modelled structurally.
    The vertex positions come from sines and cosines of the latitude and
    longitude angles; here they are the parameter `point`, where `point(i, j)`
    is the sphere point at latitude index i (angle pi * i / stacks) and
    longitude index j (angle 2 pi * j / slices). */
module Sphere {
  import opened Geometry

  /** The program's tessellation: 20 latitude bands, 40 longitude wedges. */
  const Stacks: nat := 20
  const Slices: nat := 40

  /** The two triangles emitted for band i and wedge j: (v0, v1, v2) and
      (v0, v2, v3), where v0 = point(i, j), v1 = point(i+1, j),
      v2 = point(i+1, j+1) and v3 = point(i, j+1). */
  function Patch(point: (int, int) -> Vec3, i: int, j: int): (quad: seq<Triangle>)
    ensures |quad| == 2
    ensures quad[0].v0 == quad[1].v0 == point(i, j) && quad[0].v2 == quad[1].v1 == point(i + 1, j + 1)
    ensures {quad[0].v1, quad[1].v2} == {point(i + 1, j), point(i, j + 1)}
  {
    var v0, v1, v2, v3 := point(i, j), point(i + 1, j), point(i + 1, j + 1), point(i, j + 1);
    [Triangle(v0, v1, v2), Triangle(v0, v2, v3)]
  }

  /** Position of patch (i, j) among the emitted patches: bands outer,
      wedges inner, so i full bands of `slices` patches come first. */
  function PatchIndex(slices: nat, i: nat, j: nat): nat {
    if i == 0 then j else PatchIndex(slices, i - 1, j) + slices
  }

  /** Closed form of PatchIndex. */
  lemma {:induction false} PatchIndexClosedForm(slices: nat, i: nat, j: nat)
    ensures PatchIndex(slices, i, j) == i * slices + j
  {
    if i > 0 {
      PatchIndexClosedForm(slices, i - 1, j);
    }
  }

  /** Within one band the position grows with the wedge index. */
  lemma {:induction false} PatchIndexShift(slices: nat, i: nat, j1: nat, j2: nat)
    ensures PatchIndex(slices, i, j2) - PatchIndex(slices, i, j1) == j2 - j1
  {
    if i > 0 {
      PatchIndexShift(slices, i - 1, j1, j2);
    }
  }

  /** The list holds patch (i, j) at its place behind the first `base` triangles. */
  predicate HasPatch(out: seq<Triangle>, base: nat, slices: nat, point: (int, int) -> Vec3, i: nat, j: nat) {
    var k := base + 2 * PatchIndex(slices, i, j);
    k + 2 <= |out| && out[k..k + 2] == Patch(point, i, j)
  }

  /** Every vertex of every triangle from position `base` on has a non-zero depth. */
  predicate ProjectableFrom(out: seq<Triangle>, base: nat) {
    forall k :: base <= k < |out| ==> out[k].v0.z != 0.0 && out[k].v1.z != 0.0 && out[k].v2.z != 0.0
  }

  lemma HasPatchAppend(out: seq<Triangle>, extra: seq<Triangle>, base: nat, slices: nat, point: (int, int) -> Vec3, i: nat, j: nat)
    requires HasPatch(out, base, slices, point, i, j)
    ensures HasPatch(out + extra, base, slices, point, i, j)
  {
    var k := base + 2 * PatchIndex(slices, i, j);
    assert (out + extra)[k..k + 2] == out[k..k + 2];
  }

  /** The inner loop of `createUnitSphere`: appends the patches of band i,
      wedge by wedge, behind the earlier bands. */
  method EmitBand(slices: nat, point: (int, int) -> Vec3, tris: seq<Triangle>, i: nat, start: seq<Triangle>)
    returns (out: seq<Triangle>)
    requires |start| == |tris| + 2 * PatchIndex(slices, i, 0)
    ensures |out| == |tris| + 2 * PatchIndex(slices, i + 1, 0)
    ensures out[..|start|] == start
    ensures forall j: nat :: j < slices ==> HasPatch(out, |tris|, slices, point, i, j)
    ensures forall i': nat, j': nat :: HasPatch(start, |tris|, slices, point, i', j') ==>
              HasPatch(out, |tris|, slices, point, i', j')
    ensures (forall i, j :: point(i, j).z != 0.0) ==> ProjectableFrom(out, |start|)
  {
    out := start;
    var j := 0;
    while j < slices
      invariant 0 <= j <= slices
      invariant |out| == |start| + 2 * j
      invariant out[..|start|] == start
      invariant forall j': nat :: j' < j ==> HasPatch(out, |tris|, slices, point, i, j')
      invariant forall i': nat, j': nat :: HasPatch(start, |tris|, slices, point, i', j') ==>
                  HasPatch(out, |tris|, slices, point, i', j')
      invariant (forall i, j :: point(i, j).z != 0.0) ==> ProjectableFrom(out, |start|)
    {
      var prev := out;
      out := out + Patch(point, i, j);
      PatchIndexShift(slices, i, 0, j);
      assert out[|prev|..|prev| + 2] == Patch(point, i, j);
      assert out[..|start|] == prev[..|start|];
      forall i': nat, j': nat | HasPatch(prev, |tris|, slices, point, i', j')
        ensures HasPatch(out, |tris|, slices, point, i', j')
      {
        HasPatchAppend(prev, Patch(point, i, j), |tris|, slices, point, i', j');
      }
      j := j + 1;
    }
  }

  /** `createUnitSphere`: appends two triangles per (band, wedge) pair to the
      list, bands in the outer loop, wedges in the inner one. */
  method CreateUnitSphere(stacks: nat, slices: nat, point: (int, int) -> Vec3, tris: seq<Triangle>)
    returns (out: seq<Triangle>)
    ensures |out| == |tris| + 2 * stacks * slices
    ensures out[..|tris|] == tris
    ensures forall i: nat, j: nat :: i < stacks && j < slices ==> HasPatch(out, |tris|, slices, point, i, j)
    ensures (forall i, j :: point(i, j).z != 0.0) ==> ProjectableFrom(out, |tris|)
  {
    out := tris;
    var i := 0;
    while i < stacks
      invariant 0 <= i <= stacks
      invariant |out| == |tris| + 2 * PatchIndex(slices, i, 0)
      invariant out[..|tris|] == tris
      invariant forall i': nat, j': nat :: i' < i && j' < slices ==> HasPatch(out, |tris|, slices, point, i', j')
      invariant (forall i, j :: point(i, j).z != 0.0) ==> ProjectableFrom(out, |tris|)
    {
      var prev := out;
      out := EmitBand(slices, point, tris, i, out);
      assert out[..|tris|] == out[..|prev|][..|tris|];
      i := i + 1;
    }
    PatchIndexClosedForm(slices, stacks, 0);
  }
}
