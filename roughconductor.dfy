/** The rough conductor (src/bsdfs/roughconductor.cpp): a GGX microfacet
    reflection whose value and sample weight are shared with the principled
    metallic lobe and the rough dielectric. */
module RoughConductor {
  import opened Geometry
  import opened Kernel
  import opened Records

  datatype RoughConductor = RoughConductor(reflectance: Texture, roughness: Texture)

  /** `max(1e-3, sqr(roughness))`: squared roughness, kept away from the
      extremely specular end. */
  function Alpha(roughness: real): (alpha: real)
    ensures alpha >= 0.001 && alpha >= roughness * roughness
    ensures alpha == 0.001 || alpha == roughness * roughness
  {
    Max(0.001, Sqr(roughness))
  }

  /** `(color * D(h) * G1(h, wi) * G1(h, wo)) / (4 |cos wo|)` for a given half vector `h`. */
  function MicrofacetTerm(k: Kernel, alpha: real, color: Color, h: Vec3, wo: Vec3, wi: Vec3): Color
    requires wo.z != 0.0
  {
    color.Scale(k.evaluateGGX(alpha, h)).Scale(k.smithG1(alpha, h, wi)).Scale(k.smithG1(alpha, h, wo))
         .Div(4.0 * AbsCosTheta(wo))
  }

  /** The reflection half vector `(wi + wo).normalized()`. */
  function HalfVector(k: Kernel, wo: Vec3, wi: Vec3): Vec3 { k.Normalized(wi.Plus(wo)) }

  /** The value of the microfacet reflection of colour `color`; there is no
      hemisphere gate. */
  function MicrofacetValue(k: Kernel, alpha: real, color: Color, wo: Vec3, wi: Vec3): BsdfEval
    requires wo.z != 0.0
  {
    BsdfEval(MicrofacetTerm(k, alpha, color, HalfVector(k, wo, wi), wo, wi))
  }

  /** Reflection about the VNDF-sampled microfacet normal, weighted by
      `color * G1(h, wi)`. */
  function MicrofacetSample(k: Kernel, alpha: real, color: Color, wo: Vec3, rnd: Vec2): BsdfSample {
    var n := k.sampleGGXVNDF(alpha, wo, rnd);
    var wi := k.reflect(wo, n);
    BsdfSample(wi, color.Scale(k.smithG1(alpha, HalfVector(k, wo, wi), wi)), None)
  }

  /** `RoughConductor::evaluate` */
  function Evaluate(k: Kernel, b: RoughConductor, uv: Vec2, wo: Vec3, wi: Vec3): BsdfEval
    requires wo.z != 0.0
  {
    MicrofacetValue(k, Alpha(b.roughness.scalar(uv)), b.reflectance.evaluate(uv), wo, wi)
  }

  /** `RoughConductor::sample` for the sampler value `rnd` */
  function Sample(k: Kernel, b: RoughConductor, uv: Vec2, wo: Vec3, rnd: Vec2): BsdfSample {
    MicrofacetSample(k, Alpha(b.roughness.scalar(uv)), b.reflectance.evaluate(uv), wo, rnd)
  }

  /** The sampled direction is `wo` reflected about the microfacet normal drawn
      from the visible-normal distribution at the clamped roughness. */
  lemma SampleReflects(k: Kernel, b: RoughConductor, uv: Vec2, wo: Vec3, rnd: Vec2)
    ensures var alpha := Alpha(b.roughness.scalar(uv));
      Sample(k, b, uv, wo, rnd).wi == k.reflect(wo, k.sampleGGXVNDF(alpha, wo, rnd)) && alpha >= 0.001
  {
  }

  /** The two-factor weight is what remains of `evaluate / pdf` after
      cancelling: evaluating the sampled direction gives the weight times
      `D(h) G1(h, wo) / (4 |cos wo|)`, the density of a VNDF-sampled reflection. */
  lemma {:induction false} SampleWeightCancels(k: Kernel, alpha: real, color: Color, wo: Vec3, rnd: Vec2)
    requires wo.z != 0.0
    ensures var s := MicrofacetSample(k, alpha, color, wo, rnd);
      var h := HalfVector(k, wo, s.wi);
      MicrofacetValue(k, alpha, color, wo, s.wi).value ==
        s.weight.Scale(k.evaluateGGX(alpha, h)).Scale(k.smithG1(alpha, h, wo)).Div(4.0 * AbsCosTheta(wo))
  {
    var s := MicrofacetSample(k, alpha, color, wo, rnd);
    var h := HalfVector(k, wo, s.wi);
    var d := k.evaluateGGX(alpha, h);
    var gi := k.smithG1(alpha, h, s.wi);
    assert s.weight == color.Scale(gi);
    assert color.Scale(d).Scale(gi) == color.Scale(gi).Scale(d);
  }

  /** The same for the rough conductor itself, at the clamped roughness. */
  lemma EvaluateOverPdfIsWeight(k: Kernel, b: RoughConductor, uv: Vec2, wo: Vec3, rnd: Vec2)
    requires wo.z != 0.0
    ensures var s := Sample(k, b, uv, wo, rnd);
      var alpha := Alpha(b.roughness.scalar(uv));
      var h := HalfVector(k, wo, s.wi);
      Evaluate(k, b, uv, wo, s.wi).value ==
        s.weight.Scale(k.evaluateGGX(alpha, h)).Scale(k.smithG1(alpha, h, wo)).Div(4.0 * AbsCosTheta(wo))
  {
    SampleWeightCancels(k, Alpha(b.roughness.scalar(uv)), b.reflectance.evaluate(uv), wo, rnd);
  }
}
