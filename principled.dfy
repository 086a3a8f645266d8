/** The principled BSDF (src/bsdfs/principled.cpp): a diffuse lobe and a GGX
    metallic lobe mixed by a Fresnel-Schlick split, one lobe sampled at a time
    with its selection probability. */
module Principled {
  import opened Geometry
  import opened Kernel
  import opened Records
  import Diffuse
  import RoughConductor

  /** `DiffuseLobe`: the diffuse BSDF with a fixed colour. */
  datatype DiffuseLobe = DiffuseLobe(color: Color)

  /** `MetallicLobe`: the rough conductor with a fixed alpha and colour. */
  datatype MetallicLobe = MetallicLobe(alpha: real, color: Color)

  /** `DiffuseLobe::evaluate` */
  function DiffuseLobeEvaluate(k: Kernel, lobe: DiffuseLobe, wo: Vec3, wi: Vec3): BsdfEval {
    Diffuse.CosineValue(k, lobe.color, wo, wi)
  }

  /** `DiffuseLobe::sample`: the hemisphere fix-up of the diffuse BSDF, without
      its normalisation. */
  function DiffuseLobeSample(k: Kernel, lobe: DiffuseLobe, wo: Vec3, rnd: Vec2): BsdfSample {
    BsdfSample(Diffuse.FlipIntoHemisphere(wo, k.squareToCosineHemisphere(rnd)), lobe.color, None)
  }

  /** `MetallicLobe::evaluate` */
  function MetallicLobeEvaluate(k: Kernel, lobe: MetallicLobe, wo: Vec3, wi: Vec3): BsdfEval
    requires wo.z != 0.0
  {
    RoughConductor.MicrofacetValue(k, lobe.alpha, lobe.color, wo, wi)
  }

  /** `MetallicLobe::sample` */
  function MetallicLobeSample(k: Kernel, lobe: MetallicLobe, wo: Vec3, rnd: Vec2): BsdfSample {
    RoughConductor.MicrofacetSample(k, lobe.alpha, lobe.color, wo, rnd)
  }

  datatype Principled = Principled(baseColor: Texture, roughness: Texture, metallic: Texture, specular: Texture)

  datatype Combination = Combination(diffuseSelectionProb: real, diffuse: DiffuseLobe, metallic: MetallicLobe)

  /** The share of the diffuse albedo in the total, or 1 when the total is not positive. */
  function SelectionProb(diffuseAlbedo: real, totalAlbedo: real): real {
    if totalAlbedo > 0.0 then diffuseAlbedo / totalAlbedo else 1.0
  }

  /** The diffuse lobe colour `(1 - F)(1 - metallic) baseColor`. */
  function DiffuseColor(baseColor: Color, f: real, metallic: real): Color {
    baseColor.Scale((1.0 - f) * (1.0 - metallic))
  }

  /** The metallic lobe colour `F + (1 - F) metallic baseColor`. */
  function MetallicColor(baseColor: Color, f: real, metallic: real): Color {
    White.Scale(f).Plus(baseColor.Scale((1.0 - f) * metallic))
  }

  /** The Fresnel-Schlick split `F = specular * schlick((1 - metallic) 0.08, cos wo)`. */
  function FresnelSplit(k: Kernel, specular: real, metallic: real, wo: Vec3): real {
    specular * k.schlick((1.0 - metallic) * 0.08, CosTheta(wo))
  }

  /** `Principled::combine` */
  function Combine(k: Kernel, b: Principled, uv: Vec2, wo: Vec3): Combination {
    var baseColor := b.baseColor.evaluate(uv);
    var alpha := RoughConductor.Alpha(b.roughness.scalar(uv));
    var specular := b.specular.scalar(uv);
    var metallic := b.metallic.scalar(uv);
    var f := FresnelSplit(k, specular, metallic, wo);
    var diffuse := DiffuseLobe(DiffuseColor(baseColor, f, metallic));
    var metal := MetallicLobe(alpha, MetallicColor(baseColor, f, metallic));
    Combination(SelectionProb(diffuse.color.Mean(), diffuse.color.Mean() + metal.color.Mean()), diffuse, metal)
  }

  /** The selection probability is the diffuse share of the total albedo, and
      exactly 1 when the total is zero; with non-negative means it lies in [0,1]. */
  lemma {:induction false} SelectionProbRange(diffuseAlbedo: real, metallicAlbedo: real)
    requires diffuseAlbedo >= 0.0 && metallicAlbedo >= 0.0
    ensures var p := SelectionProb(diffuseAlbedo, diffuseAlbedo + metallicAlbedo);
      0.0 <= p <= 1.0 &&
      (diffuseAlbedo + metallicAlbedo == 0.0 ==> p == 1.0) &&
      (diffuseAlbedo + metallicAlbedo > 0.0 ==> p * (diffuseAlbedo + metallicAlbedo) == diffuseAlbedo)
  {
    var t := diffuseAlbedo + metallicAlbedo;
    if t > 0.0 {
      var p := diffuseAlbedo / t;
      var q := metallicAlbedo / t;
      assert p * t == diffuseAlbedo;
      assert q * t == metallicAlbedo;
      NonNegativeQuotient(diffuseAlbedo, t);
      NonNegativeQuotient(metallicAlbedo, t);
      assert (1.0 - p) * t == t - p * t;
      CancelFactor(1.0 - p, q, t);
    }
  }

  lemma NonNegativeQuotient(a: real, t: real)
    requires a >= 0.0 && t > 0.0
    ensures a / t >= 0.0
  {
  }

  lemma CancelFactor(a: real, b: real, t: real)
    requires t != 0.0 && a * t == b * t
    ensures a == b
  {
    assert (a - b) * t == 0.0;
  }

  /** The physically meaningful inputs (a non-negative base colour; metallic,
      specular and the Schlick term in [0,1]) give lobe colours with
      non-negative channels, so the selection probability lies in [0,1]. */
  lemma {:induction false} CombineInRange(k: Kernel, b: Principled, uv: Vec2, wo: Vec3)
    requires b.baseColor.evaluate(uv).NonNegative()
    requires 0.0 <= b.metallic.scalar(uv) <= 1.0 && 0.0 <= b.specular.scalar(uv) <= 1.0
    requires 0.0 <= k.schlick((1.0 - b.metallic.scalar(uv)) * 0.08, CosTheta(wo)) <= 1.0
    ensures var c := Combine(k, b, uv, wo);
      c.diffuse.color.NonNegative() && c.metallic.color.NonNegative() &&
      0.0 <= c.diffuseSelectionProb <= 1.0 && c.metallic.alpha >= 0.001
  {
    var base := b.baseColor.evaluate(uv);
    var metallic := b.metallic.scalar(uv);
    var f := FresnelSplit(k, b.specular.scalar(uv), metallic, wo);
    UnitProduct(b.specular.scalar(uv), k.schlick((1.0 - metallic) * 0.08, CosTheta(wo)));
    LobeColorsNonNegative(base, f, metallic);
    var c := Combine(k, b, uv, wo);
    SelectionProbRange(c.diffuse.color.Mean(), c.metallic.color.Mean());
  }

  lemma LobeColorsNonNegative(base: Color, f: real, metallic: real)
    requires base.NonNegative() && 0.0 <= f <= 1.0 && 0.0 <= metallic <= 1.0
    ensures DiffuseColor(base, f, metallic).NonNegative() && MetallicColor(base, f, metallic).NonNegative()
  {
    NonNegativeProduct(1.0 - f, 1.0 - metallic);
    NonNegativeProduct(1.0 - f, metallic);
    ScaleNonNegative(base, (1.0 - f) * (1.0 - metallic));
    ScaleNonNegative(base, (1.0 - f) * metallic);
    ScaleNonNegative(White, f);
  }

  /** A product of two numbers in [0,1] is in [0,1]. */
  lemma UnitProduct(a: real, b: real)
    requires 0.0 <= a <= 1.0 && 0.0 <= b <= 1.0
    ensures 0.0 <= a * b <= 1.0
  {
    NonNegativeProduct(a, b);
    NonNegativeProduct(1.0 - a, b);
    assert b - a * b == (1.0 - a) * b;
  }

  /** `Principled::evaluate`: the sum of both lobe values. */
  function Evaluate(k: Kernel, b: Principled, uv: Vec2, wo: Vec3, wi: Vec3): BsdfEval
    requires wo.z != 0.0
  {
    var c := Combine(k, b, uv, wo);
    BsdfEval(DiffuseLobeEvaluate(k, c.diffuse, wo, wi).value.Plus(MetallicLobeEvaluate(k, c.metallic, wo, wi).value))
  }

  /** Across hemispheres only the metallic lobe contributes; otherwise the
      diffuse lobe adds its cosine-weighted colour. */
  lemma EvaluateLobes(k: Kernel, b: Principled, uv: Vec2, wo: Vec3, wi: Vec3)
    requires wo.z != 0.0
    ensures var c := Combine(k, b, uv, wo);
      (!SameHemisphere(wo, wi) ==> Evaluate(k, b, uv, wo, wi) == MetallicLobeEvaluate(k, c.metallic, wo, wi)) &&
      (SameHemisphere(wo, wi) ==>
         (Evaluate(k, b, uv, wo, wi).value ==
          c.diffuse.color.Scale(InvPi).Scale(AbsCosTheta(k.Normalized(wi))).Plus(MetallicLobeEvaluate(k, c.metallic, wo, wi).value)))
  {
  }

  /** `Principled::sample` as written: the diffuse lobe when `dec <= p`,
      divided by `p`, else the metallic lobe divided by `1 - p`. The requires
      states the divisions the source performs; it is not met by every input
      (see `AsWrittenDividesByZero`). */
  function SampleAsWritten(k: Kernel, b: Principled, uv: Vec2, wo: Vec3, dec: real, rnd: Vec2): BsdfSample
    requires var p := Combine(k, b, uv, wo).diffuseSelectionProb;
      (dec <= p ==> p != 0.0) && (dec > p ==> p != 1.0)
  {
    var c := Combine(k, b, uv, wo);
    var p := c.diffuseSelectionProb;
    if dec <= p then
      var s := DiffuseLobeSample(k, c.diffuse, wo, rnd);
      BsdfSample(s.wi, s.weight.Div(p), None)
    else
      var s := MetallicLobeSample(k, c.metallic, wo, rnd);
      BsdfSample(s.wi, s.weight.Div(1.0 - p), None)
  }

  /** A constant texture. */
  function Constant(color: Color, scalar: real): Texture { Texture(uv => color, uv => scalar) }

  /** A fully metallic white material. */
  function FullMetal(specular: real, roughness: real): Principled {
    Principled(Constant(White, 0.0), Constant(White, roughness), Constant(White, 1.0), Constant(White, specular))
  }

  /** A fully metallic material has no diffuse albedo, so its selection
      probability is exactly 0, and the draw `dec = 0` (a value the sampler can
      return) takes the diffuse branch and divides by it: the precondition of
      `SampleAsWritten` fails for a reachable input. */
  lemma AsWrittenDividesByZero(k: Kernel, specular: real, roughness: real, uv: Vec2, wo: Vec3)
    ensures var p := Combine(k, FullMetal(specular, roughness), uv, wo).diffuseSelectionProb;
      p == 0.0 && 0.0 <= p && !(0.0 <= p ==> p != 0.0)
  {
    var f := FresnelSplit(k, specular, 1.0, wo);
    assert DiffuseColor(White, f, 1.0) == Black;
    assert MetallicColor(White, f, 1.0) == White;
  }

  /** Which lobe the corrected decision takes: the diffuse lobe only for draws
      strictly below its probability. */
  predicate TakesDiffuse(dec: real, p: real) { dec < p }

  /** With a draw in [0,1) the corrected decision never divides by zero: the
      diffuse branch has `p > 0` and the metallic branch `1 - p > 0`. */
  lemma CorrectedDivisors(dec: real, p: real)
    requires 0.0 <= dec < 1.0
    ensures TakesDiffuse(dec, p) ==> p > 0.0
    ensures !TakesDiffuse(dec, p) ==> 1.0 - p > 0.0
  {
  }

  /** `Principled::sample` with the corrected decision `dec < p`, for draws in
      [0,1): it needs no precondition on the material. */
  function Sample(k: Kernel, b: Principled, uv: Vec2, wo: Vec3, dec: real, rnd: Vec2): BsdfSample
    requires 0.0 <= dec < 1.0
  {
    var c := Combine(k, b, uv, wo);
    var p := c.diffuseSelectionProb;
    CorrectedDivisors(dec, p);
    if TakesDiffuse(dec, p) then
      var s := DiffuseLobeSample(k, c.diffuse, wo, rnd);
      BsdfSample(s.wi, s.weight.Div(p), None)
    else
      var s := MetallicLobeSample(k, c.metallic, wo, rnd);
      BsdfSample(s.wi, s.weight.Div(1.0 - p), None)
  }

  /** The sample is the chosen lobe's direction, with the lobe's weight divided
      by the probability of having chosen it. */
  lemma {:induction false} SampleIsChosenLobe(k: Kernel, b: Principled, uv: Vec2, wo: Vec3, dec: real, rnd: Vec2)
    requires 0.0 <= dec < 1.0
    ensures var c := Combine(k, b, uv, wo);
      var p := c.diffuseSelectionProb;
      var s := Sample(k, b, uv, wo, dec, rnd);
      (TakesDiffuse(dec, p) ==>
         (s.wi == DiffuseLobeSample(k, c.diffuse, wo, rnd).wi && s.weight.Scale(p) == c.diffuse.color)) &&
      (!TakesDiffuse(dec, p) ==>
         (s.wi == MetallicLobeSample(k, c.metallic, wo, rnd).wi &&
          s.weight.Scale(1.0 - p) == MetallicLobeSample(k, c.metallic, wo, rnd).weight))
  {
    var c := Combine(k, b, uv, wo);
    var p := c.diffuseSelectionProb;
    CorrectedDivisors(dec, p);
    if TakesDiffuse(dec, p) {
      DivThenScale(c.diffuse.color, p);
    } else {
      DivThenScale(MetallicLobeSample(k, c.metallic, wo, rnd).weight, 1.0 - p);
    }
  }

  /** Where the corrected and the as-written decision agree: everywhere except
      at a draw exactly equal to `p`; in particular the zero-albedo fallback
      `p = 1` takes the diffuse lobe for every draw below 1 in both. */
  lemma AgreesAwayFromP(k: Kernel, b: Principled, uv: Vec2, wo: Vec3, dec: real, rnd: Vec2)
    requires 0.0 <= dec < 1.0
    requires dec != Combine(k, b, uv, wo).diffuseSelectionProb
    ensures var p := Combine(k, b, uv, wo).diffuseSelectionProb;
      (dec <= p ==> p != 0.0) && (dec > p ==> p != 1.0) &&
      SampleAsWritten(k, b, uv, wo, dec, rnd) == Sample(k, b, uv, wo, dec, rnd)
    ensures Combine(k, b, uv, wo).diffuseSelectionProb == 1.0 ==> TakesDiffuse(dec, 1.0)
  {
  }
}
