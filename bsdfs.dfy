/** The BSDF family (the classes under src/bsdfs) as one sum type, with the
    virtual `evaluate` and `sample` calls as dispatch over it. A sample call
    is given both kinds of draw the family uses: `dec` for a discrete choice
    and `rnd` for a direction. */
module Bsdfs {
  import opened Geometry
  import opened Kernel
  import opened Records
  import Diffuse
  import Dielectric
  import RoughConductor
  import RoughDielectric
  import Principled

  datatype Bsdf =
    | DiffuseBsdf(diffuse: Diffuse.Diffuse)
    | DielectricBsdf(dielectric: Dielectric.Dielectric)
    | RoughConductorBsdf(conductor: RoughConductor.RoughConductor)
    | RoughDielectricBsdf(roughDielectric: RoughDielectric.RoughDielectric)
    | PrincipledBsdf(principled: Principled.Principled)

  /** The microfacet evaluations divide by `|cos wo|`; the diffuse and the smooth
      dielectric ones do not divide at all. */
  predicate CanEvaluate(b: Bsdf, wo: Vec3) {
    b.DiffuseBsdf? || b.DielectricBsdf? || wo.z != 0.0
  }

  /** The dielectrics divide by their index of refraction; the principled choice
      takes a draw in [0,1). */
  predicate CanSample(b: Bsdf, uv: Vec2, dec: real) {
    match b
    case DielectricBsdf(d) => d.ior.scalar(uv) != 0.0
    case RoughDielectricBsdf(d) => d.ior.scalar(uv) != 0.0
    case PrincipledBsdf(_) => 0.0 <= dec < 1.0
    case _ => true
  }

  /** `bsdf->evaluate(uv, wo, wi)`: the smooth dielectric, a delta BSDF, never
      evaluates to anything, and the diffuse BSDF evaluates to nothing across
      hemispheres. */
  function Evaluate(k: Kernel, b: Bsdf, uv: Vec2, wo: Vec3, wi: Vec3): (r: BsdfEval)
    requires CanEvaluate(b, wo)
    ensures b.DielectricBsdf? ==> r.IsInvalid()
    ensures b.DiffuseBsdf? && !SameHemisphere(wo, wi) ==> r.IsInvalid()
  {
    match b
    case DiffuseBsdf(d) =>
      Diffuse.EvaluateGate(k, d, uv, wo, wi);
      Diffuse.Evaluate(k, d, uv, wo, wi)
    case DielectricBsdf(d) => Dielectric.Evaluate(d, uv, wo, wi)
    case RoughConductorBsdf(c) => RoughConductor.Evaluate(k, c, uv, wo, wi)
    case RoughDielectricBsdf(d) => RoughDielectric.Evaluate(k, d, uv, wo, wi)
    case PrincipledBsdf(p) => Principled.Evaluate(k, p, uv, wo, wi)
  }

  /** `bsdf->sample(uv, wo, rng)`: only the rough dielectric reports a density,
      and the diffuse weight is the albedo. */
  function Sample(k: Kernel, b: Bsdf, uv: Vec2, wo: Vec3, dec: real, rnd: Vec2): (r: BsdfSample)
    requires CanSample(b, uv, dec)
    ensures r.pdf.Some? <==> b.RoughDielectricBsdf?
    ensures b.DiffuseBsdf? ==> r.weight == Diffuse.Albedo(b.diffuse, uv)
  {
    match b
    case DiffuseBsdf(d) => Diffuse.Sample(k, d, uv, wo, rnd)
    case DielectricBsdf(d) => Dielectric.Sample(k, d, uv, wo, dec)
    case RoughConductorBsdf(c) => RoughConductor.Sample(k, c, uv, wo, rnd)
    case RoughDielectricBsdf(d) => RoughDielectric.Sample(k, d, uv, wo, rnd, dec)
    case PrincipledBsdf(p) => Principled.Sample(k, p, uv, wo, dec, rnd)
  }

  /** The diffuse BSDF and both dielectrics return a normalised direction; the
      rough conductor and the principled BSDF return their warped or reflected
      direction as it comes. */
  lemma SampleNormalized(k: Kernel, b: Bsdf, uv: Vec2, wo: Vec3, dec: real, rnd: Vec2)
    requires k.SqrtSound() && CanSample(b, uv, dec)
    requires b.DiffuseBsdf? || b.DielectricBsdf? || b.RoughDielectricBsdf?
    ensures var wi := Sample(k, b, uv, wo, dec, rnd).wi;
      k.Normalized(wi) == wi
  {
    match b
    case DiffuseBsdf(d) =>
      NormalizedIdempotent(k, Diffuse.FlipIntoHemisphere(wo, k.squareToCosineHemisphere(rnd)));
    case DielectricBsdf(d) => Dielectric.SampleNormalized(k, d, uv, wo, dec);
    case RoughDielectricBsdf(d) => RoughDielectric.SampleNormalized(k, d, uv, wo, rnd, dec);
  }
}
