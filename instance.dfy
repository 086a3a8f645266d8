/** A shape placed in the scene with an optional transform (src/core/instance.cpp):
    the closest-hit protocol across object and world space, frame reprojection,
    validation, the transformed bounding box and centroid, and area sampling. */
module Instances {
  import opened Geometry
  import opened Kernel
  import opened Records
  import Sphere
  import Mesh
  import opened Emissions

  /** The shape interface an instance delegates to. `intersect` maps a ray and the
      caller's current best distance to what the shape writes (`None`: nothing);
      `sampleArea` is `None` where the shape does not implement it. */
  datatype Shape = Shape(
    intersect: (Ray, Ext) -> Option<Hit>,
    bounds: Bounds,
    centroid: Vec3,
    sampleArea: Vec2 -> Option<Surface>)
  {
    /** Every accepted hit lies in `[Epsilon, tMax]`. */
    ghost predicate Sound() {
      forall r, tMax :: intersect(r, tMax).Some? ==>
        Epsilon <= intersect(r, tMax).value.t && tMax.AtLeast(intersect(r, tMax).value.t)
    }
    /** Every accepted hit is reported at `ray(t)`. */
    ghost predicate PlacesHits() {
      forall r, tMax :: intersect(r, tMax).Some? ==>
        intersect(r, tMax).value.surface.position == r.At(intersect(r, tMax).value.t)
    }
  }

  /** The unit sphere as a shape; it has no area sampler. */
  function SphereShape(k: Kernel): Shape {
    Shape((r, tMax) => Sphere.Test(k, r, tMax), Sphere.Bounds, Sphere.Centroid, rnd => None)
  }

  lemma SphereShapeSound(k: Kernel)
    ensures SphereShape(k).Sound() && SphereShape(k).PlacesHits()
    ensures forall rnd :: SphereShape(k).sampleArea(rnd).None?
  {
    forall r, tMax ensures SphereShape(k).intersect(r, tMax) == Sphere.Test(k, r, tMax) {}
    forall r, tMax ensures var h := Sphere.Test(k, r, tMax);
      h.Some? ==> Epsilon <= h.value.t && tMax.AtLeast(h.value.t) && h.value.surface.position == r.At(h.value.t)
    {
      Sphere.AcceptanceWindow(k, r, tMax);
    }
  }

  /** A triangle mesh as a shape: the traversal of its acceleration structure is
      given (`traverse`), its area sampler is the rectangle sampler. */
  function MeshShape(traverse: (Ray, Ext) -> Option<Hit>, bounds: Bounds, centroid: Vec3, area: real): Shape
    requires area != 0.0
  {
    Shape(traverse, bounds, centroid, rnd => Some(Mesh.SampleRectangle(area, rnd)))
  }

  datatype Instance = Instance(id: nat, shape: Shape, transform: Option<Transform>, emission: Option<Emission>)

  /** `validateIntersection`: the distance is finite and at least Epsilon. */
  predicate ValidIntersection(t: Ext) { t.Fin? && t.val >= Epsilon }

  /** The object-space ray: inverse-transformed, direction normalised. */
  function LocalRay(k: Kernel, tf: Transform, worldRay: Ray): Ray {
    NormalizedRay(k, tf.InverseRay(worldRay))
  }

  /** `transformFrame`: tangent normalised, geometric normal mapped as a normal and
      normalised, shading normal set to the geometric normal. */
  function FrameToWorld(k: Kernel, tf: Transform, s: Surface): (r: Surface)
    ensures r.shadingNormal == r.geometryNormal
    ensures r.position == s.position && r.uv == s.uv && r.pdf == s.pdf
  {
    var frame := s.ShadingFrame();
    var geometryNormal := k.Normalized(tf.applyNormal(frame.normal));
    s.(tangent := k.Normalized(frame.tangent), geometryNormal := geometryNormal, shadingNormal := geometryNormal)
  }

  /** The reprojected tangent is normalised: normalising it again changes nothing,
      and a non-zero tangent comes out with unit length. */
  lemma FrameToWorldTangent(k: Kernel, tf: Transform, s: Surface)
    requires k.SqrtSound()
    ensures k.Normalized(FrameToWorld(k, tf, s).tangent) == FrameToWorld(k, tf, s).tangent
    ensures s.tangent != Zero ==> FrameToWorld(k, tf, s).tangent.Dot(FrameToWorld(k, tf, s).tangent) == 1.0
  {
    NormalizedIdempotent(k, s.tangent);
    if s.tangent != Zero {
      NormalizedUnit(k, s.tangent);
    }
  }

  /** `transformFrame` on the caller's record, in place. */
  method TransformFrame(k: Kernel, tf: Transform, its: Intersection)
    modifies its
    ensures its.State() == old(its.State()).(surface := FrameToWorld(k, tf, old(its.SurfaceFields())))
  {
    var shadingFrame := its.SurfaceFields().ShadingFrame();
    its.tangent := k.Normalized(shadingFrame.tangent);
    its.geometryNormal := k.Normalized(tf.applyNormal(shadingFrame.normal));
    its.shadingNormal := its.geometryNormal;
  }

  /** What `Instance::intersect` does to the caller's record. */
  datatype Outcome = Miss | Accepted(record: Record, valid: bool)

  /** The distance bound handed to the shape: with a transform and an existing
      hit, the object-space distance from the local ray origin to the old hit point. */
  function LocalBound(k: Kernel, tf: Transform, local: Ray, rec: Record): Ext {
    if rec.instance.Some? then Fin(k.Length(local.origin.Minus(tf.inverse(rec.surface.position)))) else rec.t
  }

  function Intersect(k: Kernel, inst: Instance, worldRay: Ray, rec: Record): Outcome {
    match inst.transform
    case None =>
      (match inst.shape.intersect(worldRay, rec.t)
       case None => Miss
       case Some(h) => Accepted(Record(Fin(h.t), h.surface, Some(inst.id)), ValidIntersection(Fin(h.t))))
    case Some(tf) =>
      var local := LocalRay(k, tf, worldRay);
      (match inst.shape.intersect(local, LocalBound(k, tf, local, rec))
       case None => Miss
       case Some(h) =>
         var position := tf.apply(h.surface.position);
         Accepted(Record(Fin(k.Length(position.Minus(worldRay.origin))),
                         FrameToWorld(k, tf, h.surface.(position := position)), Some(inst.id)),
                  ValidIntersection(Fin(h.t))))
  }

  /** `Instance::intersect`: delegates to the shape (in object space when there is
      a transform), stamps the instance and validates an accepted hit, and maps it
      back to world space. `valid` is the outcome of `validateIntersection`. */
  method IntersectInPlace(k: Kernel, inst: Instance, worldRay: Ray, its: Intersection) returns (hit: bool, valid: bool)
    modifies its
    ensures match Intersect(k, inst, worldRay, old(its.State()))
      case Miss => !hit && its.State() == old(its.State())
      case Accepted(r, ok) => hit && its.State() == r && valid == ok
  {
    valid := true;
    if inst.transform.None? {
      var localRay := worldRay;
      var shapeHit := inst.shape.intersect(localRay, its.t);
      hit := shapeHit.Some?;
      if hit {
        its.t := Fin(shapeHit.value.t);
        its.SetSurface(shapeHit.value.surface);
        its.instance := Some(inst.id);
        valid := ValidIntersection(its.t);
      }
      return;
    }
    var tf := inst.transform.value;
    var previousT := its.t;
    var localRay := LocalRay(k, tf, worldRay);
    if its.IsHit() {
      its.t := Fin(k.Length(localRay.origin.Minus(tf.inverse(its.position))));
    }
    var shapeHit := inst.shape.intersect(localRay, its.t);
    if shapeHit.None? {
      its.t := previousT;
      return false, true;
    }
    its.t := Fin(shapeHit.value.t);
    its.SetSurface(shapeHit.value.surface);
    its.instance := Some(inst.id);
    valid := ValidIntersection(its.t);
    its.position := tf.apply(its.position);
    its.t := Fin(k.Length(its.position.Minus(worldRay.origin)));
    TransformFrame(k, tf, its);
    hit := true;
  }

  /** Validation never fails behind a sound shape, with or without a transform:
      the check runs on the shape's own distance. */
  lemma AcceptedHitsValidate(k: Kernel, inst: Instance, worldRay: Ray, rec: Record)
    requires inst.shape.Sound()
    ensures Intersect(k, inst, worldRay, rec).Accepted? ==> Intersect(k, inst, worldRay, rec).valid
  {
    if inst.transform.Some? {
      var local := LocalRay(k, inst.transform.value, worldRay);
      var bound := LocalBound(k, inst.transform.value, local, rec);
      assert inst.shape.intersect(local, bound).Some? ==> Epsilon <= inst.shape.intersect(local, bound).value.t;
    } else {
      assert inst.shape.intersect(worldRay, rec.t).Some? ==> Epsilon <= inst.shape.intersect(worldRay, rec.t).value.t;
    }
  }

  /** Without a transform the ray and the caller's bound reach the shape
      unchanged, and the instance is stamped only on a hit; a sound shape then
      only ever shortens the caller's distance. */
  lemma UntransformedForwards(k: Kernel, inst: Instance, worldRay: Ray, rec: Record)
    requires inst.transform.None? && inst.shape.Sound()
    ensures Intersect(k, inst, worldRay, rec).Miss? <==> inst.shape.intersect(worldRay, rec.t).None?
    ensures Intersect(k, inst, worldRay, rec).Accepted? ==>
      var r := Intersect(k, inst, worldRay, rec).record;
      r.instance == Some(inst.id) && r.t == Fin(inst.shape.intersect(worldRay, rec.t).value.t) &&
      rec.t.AtLeast(r.t.val)
  {
    var h := inst.shape.intersect(worldRay, rec.t);
    assert h.Some? ==> Epsilon <= h.value.t && rec.t.AtLeast(h.value.t);
  }

  /** With a transform, an accepted hit is reported at the transformed shape
      position, at its world-space distance from the ray origin, with a
      reprojected frame whose shading normal is the geometric normal. */
  lemma TransformedHitInWorldSpace(k: Kernel, inst: Instance, worldRay: Ray, rec: Record)
    requires inst.transform.Some?
    requires Intersect(k, inst, worldRay, rec).Accepted?
    ensures var tf := inst.transform.value;
      var local := LocalRay(k, tf, worldRay);
      var h := inst.shape.intersect(local, LocalBound(k, tf, local, rec)).value;
      var r := Intersect(k, inst, worldRay, rec).record;
      r.surface.position == tf.apply(h.surface.position) &&
      r.t == Fin(k.Length(r.surface.position.Minus(worldRay.origin))) &&
      r.surface.shadingNormal == r.surface.geometryNormal &&
      r.instance == Some(inst.id)
  {
  }

  /** The identity round trip: an identity transform over a shape that reports its
      hits at `ray(t)`, a unit-length ray and a record whose hit lies on that ray
      give the same hit decision and the same distance as the bare shape. */
  lemma {:induction false} IdentityRoundTrip(k: Kernel, inst: Instance, worldRay: Ray, rec: Record)
    requires k.SqrtSound() && inst.shape.Sound() && inst.shape.PlacesHits()
    requires inst.transform.Some? && IsIdentity(inst.transform.value)
    requires worldRay.direction.Dot(worldRay.direction) == 1.0
    requires rec.instance.Some? ==> rec.t.Fin? && rec.t.val >= 0.0 && rec.surface.position == worldRay.At(rec.t.val)
    ensures Intersect(k, inst, worldRay, rec).Miss? <==> inst.shape.intersect(worldRay, rec.t).None?
    ensures Intersect(k, inst, worldRay, rec).Accepted? ==>
      Intersect(k, inst, worldRay, rec).record.t == Fin(inst.shape.intersect(worldRay, rec.t).value.t)
  {
    var tf := inst.transform.value;
    UnitNormalized(k, worldRay.direction);
    var local := LocalRay(k, tf, worldRay);
    assert local == worldRay;
    if rec.instance.Some? {
      DistanceAlongRay(k, worldRay, rec.t.val);
    }
    assert LocalBound(k, tf, local, rec) == rec.t;
    var h := inst.shape.intersect(worldRay, rec.t);
    if h.Some? {
      assert h.value.surface.position == worldRay.At(h.value.t);
      assert Epsilon <= h.value.t;
      DistanceAlongRayAbs(k, worldRay, h.value.t);
    }
  }

  ghost predicate IsIdentity(tf: Transform) {
    (forall p :: tf.apply(p) == p) && (forall p :: tf.inverse(p) == p) && (forall v :: tf.inverseVector(v) == v)
  }

  /** The distance from a ray's origin to `ray(t)` is `t` for a unit direction and `t >= 0`. */
  lemma DistanceAlongRay(k: Kernel, ray: Ray, t: real)
    requires k.SqrtSound() && ray.direction.Dot(ray.direction) == 1.0 && t >= 0.0
    ensures k.Length(ray.origin.Minus(ray.At(t))) == t
    ensures k.Length(ray.At(t).Minus(ray.origin)) == t
  {
    var d := ray.direction;
    var a := ray.origin.Minus(ray.At(t));
    var b := ray.At(t).Minus(ray.origin);
    assert a == d.Times(-t) && b == d.Times(t);
    ScaledSquare(d, -t);
    ScaledSquare(d, t);
    assert a.Dot(a) == t * t;
    assert b.Dot(b) == t * t;
    SqrtOfSquare(k, t);
    assert k.Length(a) == k.sqrt(t * t);
  }

  /** As above for any `t`, measured from the origin to the hit point: `|t|`. */
  lemma DistanceAlongRayAbs(k: Kernel, ray: Ray, t: real)
    requires k.SqrtSound() && ray.direction.Dot(ray.direction) == 1.0
    ensures k.Length(ray.At(t).Minus(ray.origin)) == Abs(t)
  {
    var d := ray.direction;
    var b := ray.At(t).Minus(ray.origin);
    assert b == d.Times(t);
    ScaledSquare(d, t);
    var at := Abs(t);
    assert b.Dot(b) == at * at by {
      assert t * t == at * at;
    }
    SqrtOfSquare(k, at);
    assert k.sqrt(at * at) == at;
    assert k.Length(b) == k.sqrt(at * at);
  }

  lemma ScaledSquare(d: Vec3, s: real)
    requires d.Dot(d) == 1.0
    ensures d.Times(s).Dot(d.Times(s)) == s * s
  {
    assert d.Times(s).Dot(d.Times(s)) == s * s * d.Dot(d);
  }

  lemma SqrtOfSquare(k: Kernel, t: real)
    requires k.SqrtSound() && t >= 0.0
    ensures k.sqrt(t * t) == t
  {
    SquareNonNegative(t);
    var s := k.sqrt(t * t);
    assert s >= 0.0 && s * s == t * t;
    assert (s - t) * (s + t) == s * s - t * t;
    if s + t == 0.0 {
      assert s == 0.0 && t == 0.0;
    } else {
      ProductZero(s - t, s + t);
    }
  }

  /** Bit `dim` of `point`: `(point >> dim) & 1`. */
  function ShiftRight(point: nat, dim: nat): nat { if dim == 0 then point else ShiftRight(point / 2, dim - 1) }
  predicate Bit(point: nat, dim: nat) { ShiftRight(point, dim) % 2 == 1 }

  /** Corner `point` of a box: `max[d]` where bit `d` is set, `min[d]` elsewhere. */
  function Corner(lo: Vec3, hi: Vec3, point: nat): Vec3 {
    Vec3(if Bit(point, 0) then hi.x else lo.x,
         if Bit(point, 1) then hi.y else lo.y,
         if Bit(point, 2) then hi.z else lo.z)
  }

  /** The bits of the eight corner numbers, packed back: every min/max choice
      per axis is the corner of exactly one `point < 8`. */
  function CornerIndex(xHi: bool, yHi: bool, zHi: bool): nat {
    (if xHi then 1 else 0) + (if yHi then 2 else 0) + (if zHi then 4 else 0)
  }

  lemma {:induction false} CornerEnumeration(xHi: bool, yHi: bool, zHi: bool, point: nat)
    requires point < 8
    ensures CornerIndex(xHi, yHi, zHi) < 8
    ensures (Bit(point, 0) == xHi && Bit(point, 1) == yHi && Bit(point, 2) == zHi) <==> point == CornerIndex(xHi, yHi, zHi)
  {
    assert ShiftRight(point, 1) == point / 2;
    assert ShiftRight(point, 2) == point / 4 by {
      assert ShiftRight(point, 2) == ShiftRight(point / 2, 1) == (point / 2) / 2;
    }
  }

  /** The box accumulated over the first `n` transformed corners. */
  function CornerFold(tf: Transform, lo: Vec3, hi: Vec3, n: nat): Bounds {
    if n == 0 then Empty else CornerFold(tf, lo, hi, n - 1).Extend(tf.apply(Corner(lo, hi, n - 1)))
  }

  /** `Instance::getBoundingBox` as a value. */
  function BoundingBox(inst: Instance): Bounds
    requires inst.transform.Some? ==> !inst.shape.bounds.Empty?
  {
    match inst.transform
    case None => inst.shape.bounds
    case Some(tf) =>
      if inst.shape.bounds.IsUnbounded() then Full
      else CornerFold(tf, inst.shape.bounds.lo, inst.shape.bounds.hi, 8)
  }

  /** The accumulated box contains every corner folded into it. */
  lemma {:induction false} CornerFoldContains(tf: Transform, lo: Vec3, hi: Vec3, n: nat, i: nat)
    requires i < n
    ensures CornerFold(tf, lo, hi, n).Contains(tf.apply(Corner(lo, hi, i)))
  {
    if i < n - 1 {
      CornerFoldContains(tf, lo, hi, n - 1, i);
    }
  }

  /** `Instance::getBoundingBox`: the shape's box unchanged without a transform,
      the full box for an unbounded shape, and otherwise the box extended by the
      eight transformed corners, each built bit by bit. */
  method GetBoundingBox(inst: Instance) returns (result: Bounds)
    requires inst.transform.Some? ==> !inst.shape.bounds.Empty?
    ensures result == BoundingBox(inst)
    ensures inst.transform.None? ==> result == inst.shape.bounds
    ensures inst.transform.Some? && inst.shape.bounds.Box? ==>
      forall point :: 0 <= point < 8 ==>
        result.Contains(inst.transform.value.apply(Corner(inst.shape.bounds.lo, inst.shape.bounds.hi, point)))
  {
    if inst.transform.None? {
      return inst.shape.bounds;
    }
    var tf := inst.transform.value;
    var untransformed := inst.shape.bounds;
    if untransformed.IsUnbounded() {
      return Full;
    }
    result := Empty;
    for point := 0 to 8
      invariant result == CornerFold(tf, untransformed.lo, untransformed.hi, point)
    {
      var p := untransformed.lo;
      for dim := 0 to 3
        invariant forall d :: 0 <= d < 3 ==>
          p.Get(d) == if d < dim && Bit(point, d) then untransformed.hi.Get(d) else untransformed.lo.Get(d)
      {
        if Bit(point, dim) {
          p := p.With(dim, untransformed.hi.Get(dim));
        }
      }
      assert p == Corner(untransformed.lo, untransformed.hi, point) by {
        assert p.Get(0) == p.x && p.Get(1) == p.y && p.Get(2) == p.z;
      }
      p := tf.apply(p);
      result := result.Extend(p);
    }
    forall point | 0 <= point < 8
      ensures result.Contains(tf.apply(Corner(untransformed.lo, untransformed.hi, point)))
    {
      CornerFoldContains(tf, untransformed.lo, untransformed.hi, 8, point);
    }
  }

  /** `Instance::getCentroid`: the shape's centroid, carried into world space
      when the instance has a transform. */
  function Centroid(inst: Instance): (r: Vec3)
    ensures inst.transform.None? ==> r == inst.shape.centroid
    ensures inst.transform.Some? ==> r == inst.transform.value.apply(inst.shape.centroid)
  {
    match inst.transform
    case None => inst.shape.centroid
    case Some(tf) => tf.apply(inst.shape.centroid)
  }

  /** Why `Instance::sampleArea` yields no sample. */
  datatype Fault = Unsupported | NullTransform

  datatype SampleOutcome = Sampled(sample: Surface) | Failed(fault: Fault)

  /** `Instance::sampleArea`: the shape's sample with its frame reprojected. The
      frame reprojection dereferences the transform unconditionally. */
  function SampleArea(k: Kernel, inst: Instance, rnd: Vec2): (r: SampleOutcome)
    ensures inst.shape.sampleArea(rnd).None? ==> r == Failed(Unsupported)
    ensures inst.shape.sampleArea(rnd).Some? && inst.transform.None? ==> r == Failed(NullTransform)
    ensures r.Sampled? ==> r.sample.position == inst.shape.sampleArea(rnd).value.position &&
                           r.sample.pdf == inst.shape.sampleArea(rnd).value.pdf &&
                           r.sample.shadingNormal == r.sample.geometryNormal
  {
    match inst.shape.sampleArea(rnd)
    case None => Failed(Unsupported)
    case Some(s) =>
      match inst.transform
      case None => Failed(NullTransform)
      case Some(tf) => Sampled(FrameToWorld(k, tf, s))
  }
}
