/** A triangle mesh sharing an index and a vertex buffer (src/shapes/mesh.cpp):
    the per-primitive ray test, bounds and centroid, the area accumulated when
    the mesh is built, and the rectangle area sampler. */
module Mesh {
  import opened Geometry
  import opened Kernel
  import opened Records

  datatype Vertex = Vertex(position: Vec3, uv: Vec2, normal: Vec3)

  /** The three vertex indices of one triangle. */
  datatype Triangle = Triangle(i0: int, i1: int, i2: int)

  predicate IndicesValid(triangles: seq<Triangle>, vertexCount: nat) {
    forall i :: 0 <= i < |triangles| ==>
      0 <= triangles[i].i0 < vertexCount && 0 <= triangles[i].i1 < vertexCount && 0 <= triangles[i].i2 < vertexCount
  }

  /** `Vertex::interpolate` with barycentrics `(u, v)`: weights `1-u-v`, `u`, `v`. */
  function Interpolate(u: real, v: real, v0: Vertex, v1: Vertex, v2: Vertex): Vertex {
    var w := 1.0 - u - v;
    Vertex(v0.position.Times(w).Plus(v1.position.Times(u)).Plus(v2.position.Times(v)),
           Vec2(v0.uv.x * w + v1.uv.x * u + v2.uv.x * v, v0.uv.y * w + v1.uv.y * u + v2.uv.y * v),
           v0.normal.Times(w).Plus(v1.normal.Times(u)).Plus(v2.normal.Times(v)))
  }

  /** The determinant of the Moller-Trumbore system for a ray direction. */
  function Determinant(p0: Vec3, p1: Vec3, p2: Vec3, dir: Vec3): real {
    p1.Minus(p0).Dot(dir.Cross(p2.Minus(p0)))
  }

  /** The degenerate-determinant guard as the source writes it: `fabs(det) < 0`. */
  predicate DegenerateGuardAsWritten(det: real) { Abs(det) < 0.0 }

  /** The guard the test evidently intends: a zero determinant (a ray parallel to
      the triangle's plane) is a miss rather than a division by zero. */
  predicate DegenerateGuard(det: real) { det == 0.0 }

  /** The barycentric coordinates and distance Moller-Trumbore computes for a
      non-degenerate system. */
  datatype Solution = Solution(u: real, v: real, t: real)

  function Solve(p0: Vec3, p1: Vec3, p2: Vec3, ray: Ray): Solution
    requires !DegenerateGuard(Determinant(p0, p1, p2, ray.direction))
  {
    var e1 := p1.Minus(p0);
    var e2 := p2.Minus(p0);
    var pvec := ray.direction.Cross(e2);
    var invDet := 1.0 / e1.Dot(pvec);
    var tvec := ray.origin.Minus(p0);
    var qvec := tvec.Cross(e1);
    Solution(tvec.Dot(pvec) * invDet, ray.direction.Dot(qvec) * invDet, e2.Dot(qvec) * invDet)
  }

  /** The surface fields the test writes for an accepted solution. */
  function HitSurface(k: Kernel, v0: Vertex, v1: Vertex, v2: Vertex, smooth: bool, ray: Ray, s: Solution): Surface {
    var interpolated := Interpolate(s.u, s.v, v0, v1, v2);
    var geometryNormal := k.Normalized(v1.position.Minus(v0.position).Cross(v2.position.Minus(v0.position)));
    var shadingNormal := if smooth then k.Normalized(interpolated.normal) else geometryNormal;
    Surface(ray.At(s.t), interpolated.uv, shadingNormal, geometryNormal, k.basisTangent(shadingNormal), 0.0)
  }

  /** What the per-primitive `intersect` does to a record whose best distance is
      `tMax`: `None` leaves it untouched, `Some(h)` is what it writes. */
  function TriangleTest(k: Kernel, v0: Vertex, v1: Vertex, v2: Vertex, smooth: bool, ray: Ray, tMax: Ext): Option<Hit> {
    if DegenerateGuard(Determinant(v0.position, v1.position, v2.position, ray.direction)) then None
    else
      var s := Solve(v0.position, v1.position, v2.position, ray);
      if s.u < 0.0 || s.u > 1.0 then None
      else if s.v < 0.0 || s.u + s.v > 1.0 then None
      else if s.t < Epsilon || !tMax.AtLeast(s.t) then None
      else Some(Hit(s.t, HitSurface(k, v0, v1, v2, smooth, ray, s)))
  }

  /** An accepted hit has barycentrics inside the triangle, a distance in
      `[Epsilon, tMax]`, lies at `ray(t)`, has pdf 0, and without smooth normals
      its shading normal is its geometric normal. A rejected call writes nothing. */
  lemma TriangleTestAccepts(k: Kernel, v0: Vertex, v1: Vertex, v2: Vertex, smooth: bool, ray: Ray, tMax: Ext)
    ensures match TriangleTest(k, v0, v1, v2, smooth, ray, tMax)
      case None => true
      case Some(h) =>
        var s := Solve(v0.position, v1.position, v2.position, ray);
        0.0 <= s.u <= 1.0 && 0.0 <= s.v && s.u + s.v <= 1.0 &&
        h.t == s.t && Epsilon <= h.t && tMax.AtLeast(h.t) &&
        h.surface.position == ray.At(h.t) && h.surface.pdf == 0.0 &&
        (!smooth ==> h.surface.shadingNormal == h.surface.geometryNormal)
  {
  }

  /** `fabs(det) < 0` never holds, so the source's guard lets every
      determinant through, zero included. */
  lemma DegenerateGuardNeverFires(det: real)
    ensures !DegenerateGuardAsWritten(det)
  {
  }

  /** A ray lying in the plane of the triangle (0,0,0), (1,0,0), (0,1,0) has a zero
      determinant, which the source's guard lets through to `1 / det`; the
      corrected guard reports it as a miss. */
  lemma InPlaneRayPassesGuard(k: Kernel)
    ensures Determinant(InPlaneTriangle[0].position, InPlaneTriangle[1].position,
                        InPlaneTriangle[2].position, InPlaneRay.direction) == 0.0
    ensures !DegenerateGuardAsWritten(0.0)
    ensures TriangleTest(k, InPlaneTriangle[0], InPlaneTriangle[1], InPlaneTriangle[2], false,
                         InPlaneRay, Infinity).None?
  {
    InPlaneDeterminant();
    DegenerateMisses(k, InPlaneTriangle[0], InPlaneTriangle[1], InPlaneTriangle[2], false, InPlaneRay, Infinity);
  }

  lemma InPlaneDeterminant()
    ensures Determinant(InPlaneTriangle[0].position, InPlaneTriangle[1].position,
                        InPlaneTriangle[2].position, InPlaneRay.direction) == 0.0
  {
    var p0, p1, p2 := InPlaneTriangle[0].position, InPlaneTriangle[1].position, InPlaneTriangle[2].position;
    var dir := InPlaneRay.direction;
    assert p2.Minus(p0) == Vec3(0.0, 1.0, 0.0) && p1.Minus(p0) == Vec3(1.0, 0.0, 0.0);
    assert dir.Cross(p2.Minus(p0)) == Vec3(0.0, 0.0, 1.0);
  }

  /** A determinant the guard rejects is a miss, whatever the rest of the data. */
  lemma DegenerateMisses(k: Kernel, v0: Vertex, v1: Vertex, v2: Vertex, smooth: bool, ray: Ray, tMax: Ext)
    requires DegenerateGuard(Determinant(v0.position, v1.position, v2.position, ray.direction))
    ensures TriangleTest(k, v0, v1, v2, smooth, ray, tMax).None?
  {
  }

  /** The triangle (0,0,0), (1,0,0), (0,1,0) and a ray lying in its plane. */
  const InPlaneTriangle := [Vertex(Vec3(0.0, 0.0, 0.0), Vec2(0.0, 0.0), Zero),
                           Vertex(Vec3(1.0, 0.0, 0.0), Vec2(0.0, 0.0), Zero),
                           Vertex(Vec3(0.0, 1.0, 0.0), Vec2(0.0, 0.0), Zero)]
  const InPlaneRay := Ray(Vec3(-1.0, 0.2, 0.0), Vec3(1.0, 0.0, 0.0))

  /** With the corrected guard, a ray is rejected as degenerate exactly when its
      direction is orthogonal to the triangle's (unnormalised) geometric normal. */
  lemma {:induction false} DegenerateIffParallel(p0: Vec3, p1: Vec3, p2: Vec3, dir: Vec3)
    ensures DegenerateGuard(Determinant(p0, p1, p2, dir)) <==>
            dir.Dot(p1.Minus(p0).Cross(p2.Minus(p0))) == 0.0
  {
    TripleProductSwap(p1.Minus(p0), dir, p2.Minus(p0));
  }

  /** Swapping the first two factors of a scalar triple product negates it. */
  lemma TripleProductSwap(a: Vec3, b: Vec3, c: Vec3)
    ensures a.Dot(b.Cross(c)) == -b.Dot(a.Cross(c))
  {
    assert a.Dot(b.Cross(c)) == a.x * (b.y * c.z) - a.x * (b.z * c.y) + a.y * (b.z * c.x) - a.y * (b.x * c.z)
                                + a.z * (b.x * c.y) - a.z * (b.y * c.x);
    assert b.Dot(a.Cross(c)) == b.x * (a.y * c.z) - b.x * (a.z * c.y) + b.y * (a.z * c.x) - b.y * (a.x * c.z)
                                + b.z * (a.x * c.y) - b.z * (a.y * c.x);
  }

  /** `getBoundingBox(primitive)`: the componentwise minimum and maximum. */
  function PrimitiveBounds(p0: Vec3, p1: Vec3, p2: Vec3): Bounds {
    Box(Vec3(Min(p0.x, Min(p1.x, p2.x)), Min(p0.y, Min(p1.y, p2.y)), Min(p0.z, Min(p1.z, p2.z))),
        Vec3(Max(p0.x, Max(p1.x, p2.x)), Max(p0.y, Max(p1.y, p2.y)), Max(p0.z, Max(p1.z, p2.z))))
  }

  /** `getCentroid(primitive)`: the mean of the three vertices, so three times
      the centroid is their sum. */
  function PrimitiveCentroid(p0: Vec3, p1: Vec3, p2: Vec3): (r: Vec3)
    ensures r.Times(3.0) == p0.Plus(p1).Plus(p2)
  {
    p0.Plus(p1).Plus(p2).Times(1.0 / 3.0)
  }

  /** The primitive box contains the three vertices and the centroid, and every
      coordinate of the box is one of the vertices' coordinates. */
  lemma PrimitiveBoundsEnclose(p0: Vec3, p1: Vec3, p2: Vec3)
    ensures var b := PrimitiveBounds(p0, p1, p2);
      b.Contains(p0) && b.Contains(p1) && b.Contains(p2) &&
      b.Contains(PrimitiveCentroid(p0, p1, p2)) &&
      b.lo.x in {p0.x, p1.x, p2.x} && b.hi.x in {p0.x, p1.x, p2.x} &&
      b.lo.y in {p0.y, p1.y, p2.y} && b.hi.y in {p0.y, p1.y, p2.y} &&
      b.lo.z in {p0.z, p1.z, p2.z} && b.hi.z in {p0.z, p1.z, p2.z}
  {
  }

  /** The area of one triangle, half the length of its edge cross product. */
  function TriangleArea(k: Kernel, p0: Vec3, p1: Vec3, p2: Vec3): real {
    0.5 * k.Length(p1.Minus(p0).Cross(p2.Minus(p0)))
  }

  /** The sum of the areas of the first `n` triangles. */
  function AreaSum(k: Kernel, triangles: seq<Triangle>, vertices: seq<Vertex>, n: nat): real
    requires n <= |triangles| && IndicesValid(triangles, |vertices|)
  {
    if n == 0 then 0.0
    else
      var tri := triangles[n - 1];
      AreaSum(k, triangles, vertices, n - 1) +
      TriangleArea(k, vertices[tri.i0].position, vertices[tri.i1].position, vertices[tri.i2].position)
  }

  /** With a sound `sqrt` the accumulated area is never negative. */
  lemma {:induction false} AreaSumNonNegative(k: Kernel, triangles: seq<Triangle>, vertices: seq<Vertex>, n: nat)
    requires k.SqrtSound()
    requires n <= |triangles| && IndicesValid(triangles, |vertices|)
    ensures AreaSum(k, triangles, vertices, n) >= 0.0
  {
    if n > 0 {
      AreaSumNonNegative(k, triangles, vertices, n - 1);
      var tri := triangles[n - 1];
      var p0, p1, p2 := vertices[tri.i0].position, vertices[tri.i1].position, vertices[tri.i2].position;
      LengthFacts(k, p1.Minus(p0).Cross(p2.Minus(p0)));
    }
  }

  /** `sampleArea` for a random point `rnd`: the square `[-1,1]^2` in the plane
      z = 0, sampled uniformly over the mesh's area. */
  function SampleRectangle(area: real, rnd: Vec2): Surface
    requires area != 0.0
  {
    var position := Vec3(2.0 * rnd.x - 1.0, 2.0 * rnd.y - 1.0, 0.0);
    Surface(position, Vec2(position.x, position.y), Vec3(0.0, 0.0, 1.0), Vec3(0.0, 0.0, 1.0),
            Vec3(1.0, 0.0, 0.0), 1.0 / area)
  }

  /** For `rnd` in the unit square the sample lies in `[-1,1]^2 x {0}`, its uv are
      its x and y, its frame is (x, z) and its pdf is the inverse area. */
  lemma SampleRectangleFacts(area: real, rnd: Vec2)
    requires area != 0.0
    requires 0.0 <= rnd.x <= 1.0 && 0.0 <= rnd.y <= 1.0
    ensures var s := SampleRectangle(area, rnd);
      s.position.z == 0.0 && -1.0 <= s.position.x <= 1.0 && -1.0 <= s.position.y <= 1.0 &&
      s.uv == Vec2(s.position.x, s.position.y) &&
      s.shadingNormal == s.geometryNormal == Vec3(0.0, 0.0, 1.0) && s.tangent == Vec3(1.0, 0.0, 0.0) &&
      s.pdf * area == 1.0
  {
  }

  class TriangleMesh {
    const triangles: seq<Triangle>
    const vertices: seq<Vertex>
    const smoothNormals: bool
    var area: real

    ghost predicate Valid(k: Kernel) reads this {
      IndicesValid(triangles, |vertices|) && area == AreaSum(k, triangles, vertices, |triangles|)
    }

    /** Builds the mesh from the buffers the PLY reader fills and accumulates its
        surface area triangle by triangle. */
    constructor (k: Kernel, triangles: seq<Triangle>, vertices: seq<Vertex>, smooth: bool)
      requires IndicesValid(triangles, |vertices|)
      ensures Valid(k)
      ensures this.triangles == triangles && this.vertices == vertices && smoothNormals == smooth
    {
      this.triangles := triangles;
      this.vertices := vertices;
      smoothNormals := smooth;
      new;
      area := 0.0;
      var i := 0;
      while i < |triangles|
        invariant 0 <= i <= |triangles|
        invariant area == AreaSum(k, triangles, vertices, i)
      {
        var indices := triangles[i];
        var v0, v1, v2 := vertices[indices.i0], vertices[indices.i1], vertices[indices.i2];
        var v0v1 := v1.position.Minus(v0.position);
        var v0v2 := v2.position.Minus(v0.position);
        area := area + 0.5 * k.Length(v0v1.Cross(v0v2));
        i := i + 1;
      }
    }

    /** The per-primitive `intersect`: writes the caller's record in place on an
        accepted hit and leaves it untouched otherwise. */
    method Intersect(k: Kernel, primitive: nat, ray: Ray, its: Intersection) returns (hit: bool)
      requires IndicesValid(triangles, |vertices|) && primitive < |triangles|
      modifies its
      ensures var tri := triangles[primitive];
        var r := TriangleTest(k, vertices[tri.i0], vertices[tri.i1], vertices[tri.i2], smoothNormals, ray, old(its.t));
        hit == r.Some? &&
        (hit ==> its.State() == Record(Fin(r.value.t), r.value.surface, old(its.instance))) &&
        (!hit ==> its.State() == old(its.State()))
    {
      var indices := triangles[primitive];
      var v0, v1, v2 := vertices[indices.i0], vertices[indices.i1], vertices[indices.i2];
      if DegenerateGuard(Determinant(v0.position, v1.position, v2.position, ray.direction)) {
        return false;
      }
      var s := Solve(v0.position, v1.position, v2.position, ray);
      var u, v, t := s.u, s.v, s.t;
      if u < 0.0 || u > 1.0 {
        return false;
      }
      if v < 0.0 || u + v > 1.0 {
        return false;
      }
      if t < Epsilon || !its.t.AtLeast(t) {
        return false;
      }
      var v0v1 := v1.position.Minus(v0.position);
      var v0v2 := v2.position.Minus(v0.position);
      its.t := Fin(t);
      its.position := ray.At(t);
      var interpolated := Interpolate(u, v, v0, v1, v2);
      its.uv := interpolated.uv;
      its.geometryNormal := k.Normalized(v0v1.Cross(v0v2));
      if smoothNormals {
        its.shadingNormal := k.Normalized(interpolated.normal);
      } else {
        its.shadingNormal := its.geometryNormal;
      }
      its.tangent := k.basisTangent(its.shadingNormal);
      its.pdf := 0.0;
      hit := true;
    }

    /** `sampleArea` */
    function SampleArea(rnd: Vec2): Surface
      reads this
      requires area != 0.0
    {
      SampleRectangle(area, rnd)
    }
  }
}
