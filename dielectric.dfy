/** The smooth dielectric (src/bsdfs/dielectric.cpp): a delta BSDF that either
    reflects or refracts. Its orientation flip and its reflect-or-refract
    decision are shared with the rough dielectric. */
module Dielectric {
  import opened Geometry
  import opened Kernel
  import opened Records

  datatype Dielectric = Dielectric(ior: Texture, reflectance: Texture, transmittance: Texture)

  /** `Dielectric::evaluate`: a delta lobe is never hit by a light sample. */
  function Evaluate(b: Dielectric, uv: Vec2, wo: Vec3, wi: Vec3): (r: BsdfEval)
    ensures r.IsInvalid()
  {
    InvalidEval
  }

  /** The relative index of refraction, normal and cosine Snell's law is applied with. */
  datatype Orientation = Orientation(ior: real, normal: Vec3, cosTheta: real)

  /** Seen from below (`cosTheta < 0`) the index is inverted and the normal and the
      cosine are negated. */
  function Orient(ior: real, normal: Vec3, cosTheta: real): Orientation
    requires cosTheta < 0.0 ==> ior != 0.0
  {
    if cosTheta < 0.0 then Orientation(1.0 / ior, normal.Neg(), -cosTheta)
    else Orientation(ior, normal, cosTheta)
  }

  lemma OrientFacts(ior: real, normal: Vec3, cosTheta: real)
    requires ior != 0.0
    ensures var o := Orient(ior, normal, cosTheta);
      o.cosTheta == Abs(cosTheta) && o.cosTheta >= 0.0 && o.ior != 0.0 &&
      (cosTheta < 0.0 ==> o.ior * ior == 1.0 && o.normal == normal.Neg()) &&
      (cosTheta >= 0.0 ==> o == Orientation(ior, normal, cosTheta))
  {
  }

  datatype Lobe = Reflection | Refraction

  /** Reflect when the draw is at most the Fresnel reflectance, and also when
      `refract` reports total internal reflection with the zero vector. */
  function Choose(dec: real, fresnel: real, refracted: Vec3): Lobe {
    if dec <= fresnel || refracted == Zero then Reflection else Refraction
  }

  /** The orientation the smooth dielectric uses: the macro normal `+z`. */
  function Oriented(b: Dielectric, uv: Vec2, wo: Vec3): Orientation
    requires b.ior.scalar(uv) != 0.0
  {
    Orient(b.ior.scalar(uv), Vec3(0.0, 0.0, 1.0), CosTheta(wo))
  }

  /** `Dielectric::sample` for the draw `dec`. */
  function Sample(k: Kernel, b: Dielectric, uv: Vec2, wo: Vec3, dec: real): BsdfSample
    requires b.ior.scalar(uv) != 0.0
  {
    var o := Oriented(b, uv, wo);
    OrientFacts(b.ior.scalar(uv), Vec3(0.0, 0.0, 1.0), CosTheta(wo));
    assert Sqr(o.ior) != 0.0 by { ProductNonZero(o.ior, o.ior); }
    var fresnel := k.fresnelDielectric(o.cosTheta, o.ior);
    if dec <= fresnel then
      BsdfSample(k.Normalized(k.reflect(wo, o.normal)), b.reflectance.evaluate(uv), None)
    else
      var refracted := k.refract(wo, o.normal, o.ior);
      if refracted == Zero then
        BsdfSample(k.Normalized(k.reflect(wo, o.normal)), b.reflectance.evaluate(uv), None)
      else
        BsdfSample(k.Normalized(refracted), b.transmittance.evaluate(uv).Div(Sqr(o.ior)), None)
  }

  /** The outcome follows the lobe choice: reflection (also as the total
      internal reflection fallback) gives the reflected direction with the
      reflectance as weight, refraction gives the refracted direction with the
      transmittance divided by the squared, possibly inverted, index. */
  lemma {:induction false} SampleFollowsChoice(k: Kernel, b: Dielectric, uv: Vec2, wo: Vec3, dec: real)
    requires b.ior.scalar(uv) != 0.0
    ensures var o := Oriented(b, uv, wo);
      var fresnel := k.fresnelDielectric(o.cosTheta, o.ior);
      var refracted := k.refract(wo, o.normal, o.ior);
      var s := Sample(k, b, uv, wo, dec);
      o.cosTheta >= 0.0 && o.ior != 0.0 &&
      (Choose(dec, fresnel, refracted) == Reflection ==>
         s.wi == k.Normalized(k.reflect(wo, o.normal)) && s.weight == b.reflectance.evaluate(uv)) &&
      (Choose(dec, fresnel, refracted) == Refraction ==>
         s.wi == k.Normalized(refracted) && s.weight == b.transmittance.evaluate(uv).Div(o.ior * o.ior))
  {
    OrientFacts(b.ior.scalar(uv), Vec3(0.0, 0.0, 1.0), CosTheta(wo));
  }

  /** The returned direction is normalised. */
  lemma SampleNormalized(k: Kernel, b: Dielectric, uv: Vec2, wo: Vec3, dec: real)
    requires k.SqrtSound() && b.ior.scalar(uv) != 0.0
    ensures k.Normalized(Sample(k, b, uv, wo, dec).wi) == Sample(k, b, uv, wo, dec).wi
  {
    var o := Oriented(b, uv, wo);
    NormalizedIdempotent(k, k.reflect(wo, o.normal));
    NormalizedIdempotent(k, k.refract(wo, o.normal, o.ior));
  }
}
