/** The lights (the files under src/lights): each one answers `sampleDirect(origin)` with a
    `DirectLightSample`; the sampler's numbers are passed in as `rnd`. */
module Lights {
  import opened Geometry
  import opened Kernel
  import opened Records
  import Emissions
  import Instances

  datatype Light =
    | PointLight(position: Vec3, power: Color)
    | DirectionalLight(direction: Vec3, intensity: Color)
    /** `shape` is the emissive instance the light samples. */
    | AreaLight(shape: Instances.Instance)
    /** The optional transform is read but never used. */
    | EnvironmentMap(texture: Texture, transform: Option<Transform>)

  /** `canBeIntersected()` of the three lights that define it; the environment
      map inherits it from a base class that is not part of this model. */
  function CanBeIntersected(l: Light): (r: bool)
    requires !l.EnvironmentMap?
    ensures r <==> l.AreaLight?
  {
    match l
    case PointLight(_, _) => false
    case DirectionalLight(_, _) => false
    case AreaLight(_) => true
  }

  /** `PointLight::sampleDirect` */
  function SamplePoint(k: Kernel, position: Vec3, power: Color, origin: Vec3): DirectLightSample {
    var intensity := power.Div(4.0 * Pi);
    var dir := position.Minus(origin);
    DirectLightSample(k.Normalized(dir), intensity, Fin(k.Length(dir)), None)
  }

  /** `DirectionalLight::sampleDirect` */
  function SampleDirectional(k: Kernel, direction: Vec3, intensity: Color): DirectLightSample {
    DirectLightSample(k.Normalized(direction), intensity, Infinity, Some(Infinity))
  }

  /** `EnvironmentMap::evaluate`: the lookup coordinate is the constant (0,0). */
  function EvaluateEnvironment(texture: Texture, direction: Vec3): EmissionEval {
    EmissionEval(texture.evaluate(Vec2(0.0, 0.0)))
  }

  /** `EnvironmentMap::sampleDirect` */
  function SampleEnvironment(k: Kernel, texture: Texture, rnd: Vec2): DirectLightSample {
    var direction := k.squareToUniformSphere(rnd);
    var e := EvaluateEnvironment(texture, direction);
    DirectLightSample(direction, e.value.Scale(Inv4Pi), Infinity, None)
  }

  /** The vector from the shading point to the light sample, as `sampleDirect` uses it. */
  function ToSample(s: Surface, origin: Vec3): Vec3 { s.position.Minus(origin) }

  /** The direction from the light sample back to the shading point, in the
      sample's shading frame, normalised. */
  function SampleLocal(k: Kernel, s: Surface, origin: Vec3): Vec3 {
    k.Normalized(s.ShadingFrame().ToLocal(ToSample(s, origin).Neg()))
  }

  /** The divisions `sampleDirect` performs are defined: the sample is not at the
      shading point and has a non-zero density. */
  predicate AreaSampleUsable(k: Kernel, s: Surface, origin: Vec3) {
    k.Length(ToSample(s, origin)) != 0.0 && s.pdf != 0.0
  }

  /** `AreaLight::sampleDirect` for a sample `s` the instance produced. */
  function SampleAreaAt(k: Kernel, emission: Emissions.Emission, s: Surface, origin: Vec3): DirectLightSample
    requires AreaSampleUsable(k, s, origin)
  {
    var dir := ToSample(s, origin);
    var distance := k.Length(dir);
    var sampleLocal := SampleLocal(k, s, origin);
    DirectLightSample(dir, AreaWeight(emission, s.uv, sampleLocal, distance, s.pdf), Fin(distance), None)
  }

  /** The area light's weight for a sample seen along `local` (in the sample's
      frame, pointing back to the shading point) from `distance` away. */
  function AreaWeight(emission: Emissions.Emission, uv: Vec2, local: Vec3, distance: real, pdf: real): Color
    requires distance != 0.0 && pdf != 0.0
  {
    var e := Emissions.Evaluate(emission, uv, local);
    var cosine := CosTheta(local);
    var falloff := 1.0 / (distance * distance);
    e.value.Scale(cosine).Scale(falloff).Div(pdf)
  }

  /** What `sampleDirect` yields: a sample, or the reason the shape could not
      produce one (an unsupported `sampleArea`, a missing transform). */
  datatype LightOutcome = Sampled(sample: DirectLightSample) | Failed(fault: Instances.Fault)

  /** The area light's divisions are defined for the sample its shape produces. */
  predicate Usable(k: Kernel, l: Light, origin: Vec3, rnd: Vec2) {
    l.AreaLight? ==>
      l.shape.emission.Some? &&
      (Instances.SampleArea(k, l.shape, rnd).Sampled? ==>
         AreaSampleUsable(k, Instances.SampleArea(k, l.shape, rnd).sample, origin))
  }

  /** `Light::sampleDirect` */
  function SampleDirect(k: Kernel, l: Light, origin: Vec3, rnd: Vec2): (r: LightOutcome)
    requires Usable(k, l, origin, rnd)
    ensures !l.AreaLight? ==> r.Sampled?
    ensures l.AreaLight? ==> (r.Sampled? <==> Instances.SampleArea(k, l.shape, rnd).Sampled?)
  {
    match l
    case PointLight(position, power) => Sampled(SamplePoint(k, position, power, origin))
    case DirectionalLight(direction, intensity) => Sampled(SampleDirectional(k, direction, intensity))
    case EnvironmentMap(texture, _) => Sampled(SampleEnvironment(k, texture, rnd))
    case AreaLight(shape) =>
      match Instances.SampleArea(k, shape, rnd)
      case Failed(fault) => Failed(fault)
      case Sampled(s) => Sampled(SampleAreaAt(k, shape.emission.value, s, origin))
  }

  /** A point light has no distance falloff: its weight is `power / 4 Pi` wherever
      the shading point is; `wi` is the unit vector towards the light and
      `distance` how far away it is. */
  lemma PointLightFacts(k: Kernel, position: Vec3, power: Color, origin: Vec3, origin': Vec3)
    requires k.SqrtSound()
    ensures var s := SamplePoint(k, position, power, origin);
      s.weight == SamplePoint(k, position, power, origin').weight &&
      s.weight.Scale(4.0 * Pi) == power &&
      s.pdf.None? && s.distance.Fin? && s.distance.val >= 0.0 &&
      s.distance.val * s.distance.val == position.Minus(origin).Dot(position.Minus(origin)) &&
      s.wi.Times(s.distance.val) == position.Minus(origin) &&
      (position != origin ==> s.wi.Dot(s.wi) == 1.0)
  {
    var dir := position.Minus(origin);
    LengthFacts(k, dir);
    NormalizedTimesLength(k, dir);
    DivThenScale(power, 4.0 * Pi);
    if dir != Zero {
      NormalizedUnit(k, dir);
    }
  }

  /** A directional light ignores the shading point: unit `wi` along the
      configured direction, the configured intensity, and both distance and
      density infinite. */
  lemma DirectionalLightFacts(k: Kernel, direction: Vec3, intensity: Color)
    requires k.SqrtSound() && direction != Zero
    ensures var s := SampleDirectional(k, direction, intensity);
      s.wi.Dot(s.wi) == 1.0 && s.weight == intensity &&
      s.distance == Infinity && s.pdf == Some(Infinity) &&
      (exists c: real {:trigger direction.Times(c)} :: c > 0.0 && s.wi == direction.Times(c))
  {
    NormalizedUnit(k, direction);
    var c := NormalizedScales(k, direction);
  }

  /** The environment map looks its texture up at (0,0) whatever the direction,
      so every sample carries the same weight `texture(0,0) / 4 Pi` along the
      uniform-sphere direction of the two numbers. */
  lemma EnvironmentIsConstant(k: Kernel, texture: Texture, rnd: Vec2, rnd': Vec2, d: Vec3, d': Vec3)
    ensures EvaluateEnvironment(texture, d) == EvaluateEnvironment(texture, d')
    ensures var s := SampleEnvironment(k, texture, rnd);
      s.weight == SampleEnvironment(k, texture, rnd').weight &&
      s.weight == texture.evaluate(Vec2(0.0, 0.0)).Scale(Inv4Pi) &&
      s.wi == k.squareToUniformSphere(rnd) && s.distance == Infinity
  {
  }

  /** The area light's geometry: `wi` is the un-normalised vector to the sample,
      `distance` its (positive) length, and the density is left unset. */
  lemma AreaLightGeometry(k: Kernel, emission: Emissions.Emission, s: Surface, origin: Vec3)
    requires k.SqrtSound() && AreaSampleUsable(k, s, origin)
    ensures var r := SampleAreaAt(k, emission, s, origin);
      r.wi == s.position.Minus(origin) && r.pdf.None? &&
      r.distance.Fin? && r.distance.val > 0.0 &&
      r.distance.val * r.distance.val == r.wi.Dot(r.wi)
  {
    LengthFacts(k, ToSample(s, origin));
  }

  /** The area light converts area density to solid angle: the weight is zero
      when the sample faces away from the shading point, otherwise
      `emission * cos / (distance^2 pdf)`. */
  lemma {:induction false} AreaLightWeight(k: Kernel, emission: Emissions.Emission, s: Surface, origin: Vec3)
    requires k.SqrtSound() && AreaSampleUsable(k, s, origin)
    ensures var r := SampleAreaAt(k, emission, s, origin);
      var local := SampleLocal(k, s, origin);
      var dir := s.position.Minus(origin);
      (local.z <= 0.0 ==> r.weight == Black) &&
      (local.z > 0.0 ==> r.weight == emission.emission.evaluate(s.uv).Scale(emission.intensity)
                                       .Scale(local.z).Scale(1.0 / dir.Dot(dir)).Div(s.pdf))
  {
    var dir := ToSample(s, origin);
    var d := k.Length(dir);
    LengthFacts(k, dir);
    WeightCases(emission, s.uv, SampleLocal(k, s, origin), d, s.pdf);
  }

  lemma WeightCases(emission: Emissions.Emission, uv: Vec2, local: Vec3, distance: real, pdf: real)
    requires distance != 0.0 && pdf != 0.0
    ensures local.z <= 0.0 ==> AreaWeight(emission, uv, local, distance, pdf) == Black
    ensures local.z > 0.0 ==>
      (AreaWeight(emission, uv, local, distance, pdf) ==
       emission.emission.evaluate(uv).Scale(emission.intensity).Scale(local.z).Scale(1.0 / (distance * distance)).Div(pdf))
  {
  }

  /** A light whose emission texture and intensity are non-negative and whose
      sample has positive density never contributes a negative weight. */
  lemma {:induction false} AreaWeightNonNegative(k: Kernel, emission: Emissions.Emission, s: Surface, origin: Vec3)
    requires k.SqrtSound() && AreaSampleUsable(k, s, origin) && s.pdf > 0.0
    requires emission.emission.evaluate(s.uv).NonNegative() && emission.intensity >= 0.0
    ensures SampleAreaAt(k, emission, s, origin).weight.NonNegative()
  {
    var dir := ToSample(s, origin);
    var d := k.Length(dir);
    LengthFacts(k, dir);
    WeightNonNegative(emission, s.uv, SampleLocal(k, s, origin), d, s.pdf);
  }

  lemma {:induction false} WeightNonNegative(emission: Emissions.Emission, uv: Vec2, local: Vec3, distance: real, pdf: real)
    requires distance != 0.0 && pdf > 0.0
    requires emission.emission.evaluate(uv).NonNegative() && emission.intensity >= 0.0
    ensures AreaWeight(emission, uv, local, distance, pdf).NonNegative()
  {
    var e := Emissions.Evaluate(emission, uv, local).value;
    var falloff := 1.0 / (distance * distance);
    assert AreaWeight(emission, uv, local, distance, pdf) == e.Scale(local.z).Scale(falloff).Div(pdf);
    if local.z > 0.0 {
      ScaleNonNegative(emission.emission.evaluate(uv), emission.intensity);
      ScaleNonNegative(e, local.z);
      SquareNonNegative(distance);
      ScaleNonNegative(e.Scale(local.z), falloff);
      DivNonNegative(e.Scale(local.z).Scale(falloff), pdf);
    }
  }

  /** Through the instance: the area light reports exactly the instance's
      failures, and otherwise samples the position the instance produced. */
  lemma AreaLightSamplesInstance(k: Kernel, l: Light, origin: Vec3, rnd: Vec2)
    requires l.AreaLight? && Usable(k, l, origin, rnd)
    ensures var r := SampleDirect(k, l, origin, rnd);
      var a := Instances.SampleArea(k, l.shape, rnd);
      (a.Failed? ==> r == Failed(a.fault)) &&
      (a.Sampled? ==> r.Sampled? && r.sample.wi == a.sample.position.Minus(origin))
  {
  }
}
