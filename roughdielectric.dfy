/** The rough dielectric (src/bsdfs/roughdielectric.cpp): a GGX microfacet
    dielectric that splits its sample density between reflection and
    refraction by the Fresnel reflectance. */
module RoughDielectric {
  import opened Geometry
  import opened Kernel
  import opened Records
  import RoughConductor
  import opened Dielectric

  datatype RoughDielectric = RoughDielectric(ior: Texture, reflectance: Texture, transmittance: Texture, roughness: Texture)

  function AlphaAt(b: RoughDielectric, uv: Vec2): real { RoughConductor.Alpha(b.roughness.scalar(uv)) }

  /** The reflection term: Fresnel-weighted reflectance on `h = (wi + wo).normalized()`. */
  function ReflectionTerm(k: Kernel, b: RoughDielectric, uv: Vec2, wo: Vec3, wi: Vec3): Color
    requires wo.z != 0.0
  {
    var h := RoughConductor.HalfVector(k, wo, wi);
    var f := k.fresnelDielectric(wi.Dot(h), b.ior.scalar(uv));
    RoughConductor.MicrofacetTerm(k, AlphaAt(b, uv), b.reflectance.evaluate(uv).Scale(f), h, wo, wi)
  }

  /** The transmission term as written: `(1 - F)`-weighted transmittance on
      `h = (wo + ior wi).normalized()`. */
  function TransmissionTerm(k: Kernel, b: RoughDielectric, uv: Vec2, wo: Vec3, wi: Vec3): Color
    requires wo.z != 0.0
  {
    var ior := b.ior.scalar(uv);
    var h := k.Normalized(wo.Plus(wi.Times(ior)));
    var f := k.fresnelDielectric(wi.Dot(h), ior);
    RoughConductor.MicrofacetTerm(k, AlphaAt(b, uv), b.transmittance.evaluate(uv).Scale(1.0 - f), h, wo, wi)
  }

  /** `RoughDielectric::evaluate`: the sum of both terms, with no hemisphere gate. */
  function Evaluate(k: Kernel, b: RoughDielectric, uv: Vec2, wo: Vec3, wi: Vec3): BsdfEval
    requires wo.z != 0.0
  {
    BsdfEval(ReflectionTerm(k, b, uv, wo, wi).Plus(TransmissionTerm(k, b, uv, wo, wi)))
  }

  /** Without transmittance the rough dielectric evaluates like a rough conductor
      whose reflectance is scaled by the Fresnel term of the half vector. */
  lemma OpaqueIsConductor(k: Kernel, b: RoughDielectric, uv: Vec2, wo: Vec3, wi: Vec3)
    requires wo.z != 0.0 && b.transmittance.evaluate(uv) == Black
    ensures var h := RoughConductor.HalfVector(k, wo, wi);
      var f := k.fresnelDielectric(wi.Dot(h), b.ior.scalar(uv));
      Evaluate(k, b, uv, wo, wi).value ==
        RoughConductor.MicrofacetValue(k, AlphaAt(b, uv), b.reflectance.evaluate(uv).Scale(f), wo, wi).value
  {
    var ior := b.ior.scalar(uv);
    var h := k.Normalized(wo.Plus(wi.Times(ior)));
    var f := k.fresnelDielectric(wi.Dot(h), ior);
    assert Black.Scale(1.0 - f) == Black;
    assert TransmissionTerm(k, b, uv, wo, wi) == Black;
  }

  /** The orientation after the flip, around the sampled microfacet normal. */
  function Oriented(k: Kernel, b: RoughDielectric, uv: Vec2, wo: Vec3, rnd: Vec2): Orientation
    requires b.ior.scalar(uv) != 0.0
  {
    Orient(b.ior.scalar(uv), k.sampleGGXVNDF(AlphaAt(b, uv), wo, rnd), CosTheta(wo))
  }

  /** The density reported for a lobe: `detReflection * F` for reflection and
      `detReflection * (1 - F)` for refraction. */
  function LobePdf(det: real, fresnel: real, lobe: Lobe): real {
    if lobe == Reflection then det * fresnel else det * (1.0 - fresnel)
  }

  /** `RoughDielectric::sample` for the sampler values `rnd` (microfacet normal)
      and `dec` (lobe choice). */
  function Sample(k: Kernel, b: RoughDielectric, uv: Vec2, wo: Vec3, rnd: Vec2, dec: real): BsdfSample
    requires b.ior.scalar(uv) != 0.0
  {
    var o := Oriented(k, b, uv, wo, rnd);
    OrientFacts(b.ior.scalar(uv), k.sampleGGXVNDF(AlphaAt(b, uv), wo, rnd), CosTheta(wo));
    assert Sqr(o.ior) != 0.0 by { ProductNonZero(o.ior, o.ior); }
    var fresnel := k.fresnelDielectric(o.cosTheta, o.ior);
    var wi := k.refract(wo, o.normal, o.ior);
    var det := k.detReflection(o.normal, wo);
    var lobe := Choose(dec, fresnel, wi);
    if lobe == Reflection then
      BsdfSample(k.Normalized(k.reflect(wo, o.normal)), b.reflectance.evaluate(uv), Some(LobePdf(det, fresnel, lobe)))
    else
      BsdfSample(k.Normalized(wi), b.transmittance.evaluate(uv).Div(Sqr(o.ior)), Some(LobePdf(det, fresnel, lobe)))
  }

  /** The outcome follows the lobe choice, with the Fresnel term taken at the
      macro-surface cosine `|cos wo|` and the reported density that lobe's share. */
  lemma {:induction false} SampleFollowsChoice(k: Kernel, b: RoughDielectric, uv: Vec2, wo: Vec3, rnd: Vec2, dec: real)
    requires b.ior.scalar(uv) != 0.0
    ensures var o := Oriented(k, b, uv, wo, rnd);
      var fresnel := k.fresnelDielectric(Abs(CosTheta(wo)), o.ior);
      var refracted := k.refract(wo, o.normal, o.ior);
      var det := k.detReflection(o.normal, wo);
      var lobe := Choose(dec, fresnel, refracted);
      var s := Sample(k, b, uv, wo, rnd, dec);
      AlphaAt(b, uv) >= 0.001 &&
      s.pdf == Some(LobePdf(det, fresnel, lobe)) &&
      (lobe == Reflection ==> s.wi == k.Normalized(k.reflect(wo, o.normal)) && s.weight == b.reflectance.evaluate(uv)) &&
      (lobe == Refraction ==> s.wi == k.Normalized(refracted) && s.weight == b.transmittance.evaluate(uv).Div(o.ior * o.ior))
  {
    OrientFacts(b.ior.scalar(uv), k.sampleGGXVNDF(AlphaAt(b, uv), wo, rnd), CosTheta(wo));
    var o := Oriented(k, b, uv, wo, rnd);
    assert o.cosTheta == Abs(CosTheta(wo));
  }

  /** The two lobe densities split `detReflection` by the Fresnel reflectance. */
  lemma PdfSplit(det: real, fresnel: real)
    ensures LobePdf(det, fresnel, Reflection) + LobePdf(det, fresnel, Refraction) == det
  {
  }

  /** Below the surface the microfacet normal is negated along with the inverted index. */
  lemma FlipBelow(k: Kernel, b: RoughDielectric, uv: Vec2, wo: Vec3, rnd: Vec2)
    requires b.ior.scalar(uv) != 0.0 && wo.z < 0.0
    ensures var o := Oriented(k, b, uv, wo, rnd);
      o.normal == k.sampleGGXVNDF(AlphaAt(b, uv), wo, rnd).Neg() && o.ior * b.ior.scalar(uv) == 1.0 && o.cosTheta == -wo.z
  {
    OrientFacts(b.ior.scalar(uv), k.sampleGGXVNDF(AlphaAt(b, uv), wo, rnd), CosTheta(wo));
  }

  /** The returned direction is normalised. */
  lemma SampleNormalized(k: Kernel, b: RoughDielectric, uv: Vec2, wo: Vec3, rnd: Vec2, dec: real)
    requires k.SqrtSound() && b.ior.scalar(uv) != 0.0
    ensures k.Normalized(Sample(k, b, uv, wo, rnd, dec).wi) == Sample(k, b, uv, wo, rnd, dec).wi
  {
    var o := Oriented(k, b, uv, wo, rnd);
    NormalizedIdempotent(k, k.reflect(wo, o.normal));
    NormalizedIdempotent(k, k.refract(wo, o.normal, o.ior));
  }
}
