/** Lambertian emission (src/emissions/lambertian.cpp): front-side gating of a
    textured, scaled radiance. */
module Emissions {
  import opened Geometry
  import opened Records

  datatype Emission = Lambertian(emission: Texture, intensity: real)

  /** The constructor's property defaults: `intensity` is 1 unless given. */
  function MakeLambertian(emission: Texture, intensity: Option<real>): (e: Emission)
    ensures e.emission == emission
    ensures intensity.None? ==> e.intensity == 1.0
    ensures intensity.Some? ==> e.intensity == intensity.value
  {
    Lambertian(emission, if intensity.Some? then intensity.value else 1.0)
  }

  /** `Lambertian::evaluate`: nothing is emitted unless `wo` lies strictly on the
      front side; there the texture value is scaled by the intensity. */
  function Evaluate(e: Emission, uv: Vec2, wo: Vec3): (r: EmissionEval)
    ensures wo.z <= 0.0 ==> r.value == Black
    ensures wo.z > 0.0 ==> r.value == e.emission.evaluate(uv).Scale(e.intensity)
  {
    if wo.z <= 0.0 then EmissionEval(Black) else EmissionEval(e.emission.evaluate(uv).Scale(e.intensity))
  }

  /** The emitted value depends on the direction only through the side it lies on. */
  lemma SideOnly(e: Emission, uv: Vec2, wo: Vec3, wo': Vec3)
    requires (wo.z > 0.0) == (wo'.z > 0.0)
    ensures Evaluate(e, uv, wo) == Evaluate(e, uv, wo')
  {
  }

  /** With the default intensity the front side shows the texture itself. */
  lemma DefaultShowsTexture(t: Texture, uv: Vec2, wo: Vec3)
    requires wo.z > 0.0
    ensures Evaluate(MakeLambertian(t, None), uv, wo).value == t.evaluate(uv)
  {
  }
}
