/** The records that flow between shapes, instances, materials, lights and
    integrators, and the two collaborators every component consumes through a
    narrow interface: textures and affine transforms. */
module Records {
  import opened Geometry
  import opened Kernel

  /** The fields of a `SurfaceEvent` (an `AreaSample` is exactly this). */
  datatype Surface = Surface(
    position: Vec3,
    uv: Vec2,
    shadingNormal: Vec3,
    geometryNormal: Vec3,
    tangent: Vec3,
    pdf: real)
  {
    /** `shadingFrame()`: tangent, bitangent `normal x tangent`, shading normal. */
    function ShadingFrame(): Frame { Frame(tangent, shadingNormal.Cross(tangent), shadingNormal) }
  }

  /** A value snapshot of an `Intersection`: distance, surface fields and the hit
      instance (`None` is the null instance pointer, i.e. "no hit"). */
  datatype Record = Record(t: Ext, surface: Surface, instance: Option<nat>)

  /** What a shape writes into the caller's record when it accepts a hit. */
  datatype Hit = Hit(t: real, surface: Surface)

  const DefaultSurface := Surface(Zero, Vec2(0.0, 0.0), Zero, Zero, Zero, 0.0)

  /** The caller-owned closest-hit record that shapes and instances update in place. */
  class Intersection {
    var t: Ext
    var position: Vec3
    var uv: Vec2
    var shadingNormal: Vec3
    var geometryNormal: Vec3
    var tangent: Vec3
    var pdf: real
    var instance: Option<nat>

    /** A fresh record: no hit yet, so every hit distance is acceptable. */
    constructor ()
      ensures State() == Record(Infinity, DefaultSurface, None)
    {
      t := Infinity;
      position, uv := Zero, Vec2(0.0, 0.0);
      shadingNormal, geometryNormal, tangent := Zero, Zero, Zero;
      pdf := 0.0;
      instance := None;
    }

    function SurfaceFields(): Surface reads this {
      Surface(position, uv, shadingNormal, geometryNormal, tangent, pdf)
    }

    function State(): Record reads this { Record(t, SurfaceFields(), instance) }

    /** `operator bool`: the record holds a hit. */
    predicate IsHit() reads this { instance.Some? }

    /** Overwrites the surface fields, leaving `t` and `instance` alone. */
    method SetSurface(s: Surface)
      modifies this
      ensures State() == Record(old(t), s, old(instance))
    {
      position, uv := s.position, s.uv;
      shadingNormal, geometryNormal, tangent := s.shadingNormal, s.geometryNormal, s.tangent;
      pdf := s.pdf;
    }
  }

  /** `BsdfEval`; the invalid evaluation carries the zero colour. */
  datatype BsdfEval = BsdfEval(value: Color) {
    predicate IsInvalid() { value == Black }
  }
  const InvalidEval := BsdfEval(Black)

  /** `BsdfSample`; `pdf` is `None` where the material leaves it unset. The invalid
      sample carries the zero weight. */
  datatype BsdfSample = BsdfSample(wi: Vec3, weight: Color, pdf: Option<real>) {
    predicate IsInvalid() { weight == Black }
  }

  /** `EmissionEval`; the invalid evaluation carries the zero colour. */
  datatype EmissionEval = EmissionEval(value: Color) {
    predicate IsInvalid() { value == Black }
  }

  /** `DirectLightSample`; `pdf` is `None` where the light leaves it unset. */
  datatype DirectLightSample = DirectLightSample(wi: Vec3, weight: Color, distance: Ext, pdf: Option<Ext>)

  /** `Texture`: a colour and a scalar per texture coordinate. */
  datatype Texture = Texture(evaluate: Vec2 -> Color, scalar: Vec2 -> real)

  /** `Transform`: an affine map on points, vectors and normals, and its inverse. */
  datatype Transform = Transform(
    apply: Vec3 -> Vec3,
    applyVector: Vec3 -> Vec3,
    applyNormal: Vec3 -> Vec3,
    inverse: Vec3 -> Vec3,
    inverseVector: Vec3 -> Vec3)
  {
    function ApplyRay(r: Ray): Ray { Ray(apply(r.origin), applyVector(r.direction)) }
    function InverseRay(r: Ray): Ray { Ray(inverse(r.origin), inverseVector(r.direction)) }
  }

  /** `ray.normalized()`: same origin, unit direction. */
  function NormalizedRay(k: Kernel, r: Ray): Ray { Ray(r.origin, k.Normalized(r.direction)) }
}
