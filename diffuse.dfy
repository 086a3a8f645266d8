/** The Lambertian diffuse BSDF (src/bsdfs/diffuse.cpp). Its hemisphere-gated
    cosine value and its hemisphere fix-up are shared with the principled
    diffuse lobe. */
module Diffuse {
  import opened Geometry
  import opened Kernel
  import opened Records

  datatype Diffuse = Diffuse(albedo: Texture)

  /** `color * InvPi * absCosTheta(wi.normalized())` between directions of one
      hemisphere, invalid across hemispheres. */
  function CosineValue(k: Kernel, color: Color, wo: Vec3, wi: Vec3): BsdfEval {
    if !SameHemisphere(wo, wi) then InvalidEval
    else BsdfEval(color.Scale(InvPi).Scale(AbsCosTheta(k.Normalized(wi))))
  }

  /** A warped direction that is not in `wo`'s hemisphere has its z negated. */
  function FlipIntoHemisphere(wo: Vec3, d: Vec3): Vec3 {
    if !SameHemisphere(wo, d) then d.(z := -d.z) else d
  }

  /** `cosineHemispherePdf(w)` as the source's comment states it. */
  function CosinePdf(w: Vec3): real { AbsCosTheta(w) * InvPi }

  /** The fix-up touches only z, leaves a direction of the right hemisphere
      alone, and lands in `wo`'s hemisphere unless one of the two is horizontal. */
  lemma FlipFacts(wo: Vec3, d: Vec3)
    ensures var r := FlipIntoHemisphere(wo, d);
      r.x == d.x && r.y == d.y && (r.z == d.z || r.z == -d.z) &&
      (SameHemisphere(wo, d) ==> r == d) &&
      (wo.z != 0.0 && d.z != 0.0 ==> SameHemisphere(wo, r))
  {
    if wo.z != 0.0 && d.z != 0.0 && !SameHemisphere(wo, d) {
      ProductNonZero(wo.z, d.z);
      assert wo.z * -d.z == -(wo.z * d.z);
    }
  }

  /** `Diffuse::evaluate` */
  function Evaluate(k: Kernel, b: Diffuse, uv: Vec2, wo: Vec3, wi: Vec3): BsdfEval {
    CosineValue(k, b.albedo.evaluate(uv), wo, wi)
  }

  /** `Diffuse::sample` for the sampler value `rnd`: the cosine-warped direction,
      fixed into `wo`'s hemisphere and normalised, weighted by the albedo. */
  function Sample(k: Kernel, b: Diffuse, uv: Vec2, wo: Vec3, rnd: Vec2): BsdfSample {
    BsdfSample(k.Normalized(FlipIntoHemisphere(wo, k.squareToCosineHemisphere(rnd))), b.albedo.evaluate(uv), None)
  }

  /** `Diffuse::albedo` */
  function Albedo(b: Diffuse, uv: Vec2): Color { b.albedo.evaluate(uv) }

  /** Across hemispheres the evaluation is invalid, whatever the albedo. */
  lemma EvaluateGate(k: Kernel, b: Diffuse, uv: Vec2, wo: Vec3, wi: Vec3)
    ensures !SameHemisphere(wo, wi) ==> Evaluate(k, b, uv, wo, wi).IsInvalid()
    ensures SameHemisphere(wo, wi) ==>
      Evaluate(k, b, uv, wo, wi).value == Albedo(b, uv).Scale(CosinePdf(k.Normalized(wi)))
  {
    if SameHemisphere(wo, wi) {
      ScaleReorder(Albedo(b, uv), InvPi, AbsCosTheta(k.Normalized(wi)));
    }
  }

  /** The sample weight is the albedo, independent of `wo` and the sampler. */
  lemma WeightIsAlbedo(k: Kernel, b: Diffuse, uv: Vec2, wo: Vec3, rnd: Vec2)
    ensures Sample(k, b, uv, wo, rnd).weight == Albedo(b, uv)
    ensures Sample(k, b, uv, wo, rnd).pdf.None?
  {
  }

  /** The cancellation the source's comment describes: the sampled direction lies
      in `wo`'s hemisphere, and evaluating it gives the weight times the cosine
      pdf, i.e. `evaluate / pdf == weight`. */
  lemma {:induction false} SampleMatchesEvaluate(k: Kernel, b: Diffuse, uv: Vec2, wo: Vec3, rnd: Vec2)
    requires k.SqrtSound()
    requires wo.z != 0.0 && k.squareToCosineHemisphere(rnd).z != 0.0
    ensures var s := Sample(k, b, uv, wo, rnd);
      SameHemisphere(wo, s.wi) &&
      Evaluate(k, b, uv, wo, s.wi).value == s.weight.Scale(CosinePdf(s.wi))
  {
    var wi := SampledDirectionInHemisphere(k, wo, k.squareToCosineHemisphere(rnd));
    CosineValueOfUnit(k, Albedo(b, uv), wo, wi);
  }

  /** The fixed-up, normalised direction lies in `wo`'s hemisphere and is left
      alone by a second normalisation. */
  lemma SampledDirectionInHemisphere(k: Kernel, wo: Vec3, raw: Vec3) returns (wi: Vec3)
    requires k.SqrtSound() && wo.z != 0.0 && raw.z != 0.0
    ensures wi == k.Normalized(FlipIntoHemisphere(wo, raw))
    ensures SameHemisphere(wo, wi) && k.Normalized(wi) == wi
  {
    var d := FlipIntoHemisphere(wo, raw);
    FlipFacts(wo, raw);
    var sc := NormalizedScales(k, d);
    wi := k.Normalized(d);
    assert wi.z == d.z * sc;
    assert wo.z * wi.z == (wo.z * d.z) * sc;
    PositiveFactor(wo.z * d.z, sc);
    NormalizedIdempotent(k, d);
  }

  /** For a direction that normalisation leaves alone, the cosine value is the
      colour times the cosine pdf. */
  lemma CosineValueOfUnit(k: Kernel, color: Color, wo: Vec3, wi: Vec3)
    requires SameHemisphere(wo, wi) && k.Normalized(wi) == wi
    ensures CosineValue(k, color, wo, wi).value == color.Scale(CosinePdf(wi))
  {
    var c := AbsCosTheta(wi);
    assert CosineValue(k, color, wo, wi).value == color.Scale(InvPi).Scale(c);
    ScaleReorder(color, InvPi, c);
  }

  lemma ScaleReorder(a: Color, s: real, c: real)
    ensures a.Scale(s).Scale(c) == a.Scale(c * s)
  {
    assert a.r * s * c == a.r * (c * s);
    assert a.g * s * c == a.g * (c * s);
    assert a.b * s * c == a.b * (c * s);
  }
}
