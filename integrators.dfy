/** The integrators (the files under src/integrators) as control flow over an abstract
    scene. The scene answers ray queries with the part of an `Intersection` the
    integrators read; the sampler's numbers are fixed per path vertex, so every
    draw the integrators make at vertex `d` is a function of `d`. */
module Integrators {
  import opened Geometry
  import opened Kernel
  import opened Records

  /** What the integrators read from an `Intersection`. On a miss `emission` is
      the background's emission. */
  datatype Its = Its(
    hit: bool,
    t: Ext,
    position: Vec3,
    geometryNormal: Vec3,
    /** `evaluateEmission().value` */
    emission: Color,
    /** whether the hit instance has a BSDF and an emission */
    hasBsdf: bool,
    hasEmission: bool,
    /** the hit instance's `bsdf()->albedo(uv)` */
    albedo: Color)

  /** `LightSample`: a light (its `sampleDirect` at a given origin) and the
      probability with which it was chosen. */
  datatype LightChoice = LightChoice(sampleDirect: Vec3 -> DirectLightSample, probability: real)

  datatype Scene = Scene(
    hasLights: bool,
    intersect: Ray -> Its,
    /** `sampleLight`; `None` is the invalid light sample */
    sampleLight: nat -> Option<LightChoice>,
    /** `its.sampleBsdf(rng)` at vertex `d` */
    sampleBsdf: (Its, nat) -> BsdfSample,
    /** `its.evaluateBsdf(wi).value` */
    evaluateBsdf: (Its, Vec3) -> Color)
  {
    /** The light-selection probabilities the integrators divide by are non-zero. */
    ghost predicate ProbabilitiesNonZero() {
      forall d :: sampleLight(d).Some? ==> sampleLight(d).value.probability != 0.0
    }
  }

  /** `light_its.t < sample.distance` */
  predicate Occludes(t: Ext, distance: Ext) { t.Fin? && distance.Above(t.val) }

  /** `LiLightSample` (identical in the direct and the path-tracing integrator). */
  function LiLightSample(scene: Scene, its: Its, d: nat): Color
    requires scene.ProbabilitiesNonZero()
  {
    match scene.sampleLight(d)
    case None => Black
    case Some(light) =>
      var s := light.sampleDirect(its.position);
      var shadow := scene.intersect(Ray(its.position, s.wi));
      if shadow.hit && Occludes(shadow.t, s.distance) then Black
      else s.weight.Times(scene.evaluateBsdf(its, s.wi)).Div(light.probability)
  }

  /** The light term is black for an invalid light sample and for a shadow ray
      that hits something before the light; otherwise, multiplied by the
      selection probability, it is the light's weight times the BSDF value. */
  lemma LightSampleCases(scene: Scene, its: Its, d: nat)
    requires scene.ProbabilitiesNonZero()
    ensures var r := LiLightSample(scene, its, d);
      (scene.sampleLight(d).None? ==> r == Black) &&
      (scene.sampleLight(d).Some? ==>
         var s := scene.sampleLight(d).value.sampleDirect(its.position);
         var shadow := scene.intersect(Ray(its.position, s.wi));
         (shadow.hit && Occludes(shadow.t, s.distance) ==> r == Black) &&
         (!(shadow.hit && Occludes(shadow.t, s.distance)) ==>
            r.Scale(scene.sampleLight(d).value.probability) ==
            s.weight.Times(scene.evaluateBsdf(its, s.wi))))
  {
    if scene.sampleLight(d).Some? {
      var light := scene.sampleLight(d).value;
      var s := light.sampleDirect(its.position);
      DivThenScale(s.weight.Times(scene.evaluateBsdf(its, s.wi)), light.probability);
    }
  }

  /** The light term of vertex `d`; only a scene with lights samples one. */
  function LightTerm(scene: Scene, its: Its, d: nat): Color
    requires scene.ProbabilitiesNonZero()
  {
    if scene.hasLights then LiLightSample(scene, its, d) else Black
  }

  /** One completed bounce of the random walk: the light term of the vertex it
      leaves, the emission of the vertex it reaches, and the BSDF weight. */
  datatype Bounce = Bounce(light: Color, emission: Color, weight: Color)

  /** What a bounce adds before the throughput is applied: `cur_li`. */
  function Contribution(b: Bounce): Color { b.light.Plus(b.emission.Times(b.weight)) }

  /** The bounces the walk completes from vertex `d` of a path whose vertex limit
      is `depth`: it stops at the limit, at an invalid BSDF sample (dropping that
      vertex's light term), and after a bounce that leaves the scene. */
  function Path(k: Kernel, scene: Scene, its: Its, depth: int, d: nat): (p: seq<Bounce>)
    requires scene.ProbabilitiesNonZero()
    ensures |p| <= if d < depth then depth - d else 0
    decreases depth - d
  {
    if d >= depth then []
    else
      var bs := scene.sampleBsdf(its, d);
      if bs.IsInvalid() then []
      else
        var next := scene.intersect(Ray(its.position, k.Normalized(bs.wi)));
        var b := Bounce(LightTerm(scene, its, d), next.emission, bs.weight);
        if next.hit then [b] + Path(k, scene, next, depth, d + 1) else [b]
  }

  /** The throughput after the given bounces: the product of their BSDF weights. */
  function Throughput(p: seq<Bounce>): Color {
    if |p| == 0 then White else Throughput(p[..|p| - 1]).Times(p[|p| - 1].weight)
  }

  /** The estimate of a path: the first hit's emission plus every bounce's
      contribution weighted by the throughput before that bounce. */
  function Radiance(first: Color, p: seq<Bounce>): Color {
    if |p| == 0 then first
    else Radiance(first, p[..|p| - 1]).Plus(Contribution(p[|p| - 1]).Times(Throughput(p[..|p| - 1])))
  }

  /** The path tracer's estimate for a camera ray: a primary miss returns the
      background's emission; otherwise the walk starts at vertex 1. */
  function PathTrace(k: Kernel, scene: Scene, depth: int, ray: Ray): Color
    requires scene.ProbabilitiesNonZero()
  {
    var its := scene.intersect(ray);
    if !its.hit then its.emission else Radiance(its.emission, Path(k, scene, its, depth, 1))
  }

  /** `PathtracerIntegrator::Li`: the bounded random walk with its multiplicative
      throughput, as one loop. */
  method PathTracerLi(k: Kernel, scene: Scene, depth: int, ray: Ray) returns (li: Color)
    requires scene.ProbabilitiesNonZero()
    ensures li == PathTrace(k, scene, depth, ray)
  {
    var its := scene.intersect(ray);
    li := its.emission;
    if !its.hit {
      return;
    }
    var curIts := its;
    var curWeight := White;
    ghost var done: seq<Bounce> := [];
    var curDepth: nat := 1;
    while curDepth < depth
      invariant Path(k, scene, its, depth, 1) == done + Path(k, scene, curIts, depth, curDepth)
      invariant li == Radiance(its.emission, done)
      invariant curWeight == Throughput(done)
      decreases depth - curDepth
    {
      var stop;
      ghost var added;
      stop, li, curWeight, curIts, added := Vertex(k, scene, its, depth, done, curIts, curDepth, li, curWeight);
      done := done + added;
      if stop {
        break;
      }
      curDepth := curDepth + 1;
    }
    Finished(k, scene, Path(k, scene, its, depth, 1), done, curIts, depth, curDepth);
  }

  /** One pass of the loop body of `Li` at vertex `d`: the light term, the BSDF
      sample, the bounce ray and the updates of `li` and the throughput. It
      stops the walk at an invalid sample (adding no bounce) and after a miss;
      otherwise the walk continues from the new intersection at vertex `d + 1`. */
  method Vertex(k: Kernel, scene: Scene, its: Its, depth: int, ghost done: seq<Bounce>, curIts: Its, d: nat,
                li: Color, curWeight: Color)
    returns (stop: bool, li': Color, curWeight': Color, nextIts: Its, ghost added: seq<Bounce>)
    requires scene.ProbabilitiesNonZero() && d < depth
    requires Path(k, scene, its, depth, 1) == done + Path(k, scene, curIts, depth, d)
    requires li == Radiance(its.emission, done) && curWeight == Throughput(done)
    ensures stop ==> Path(k, scene, its, depth, 1) == done + added
    ensures !stop ==> Path(k, scene, its, depth, 1) == (done + added) + Path(k, scene, nextIts, depth, d + 1)
    ensures li' == Radiance(its.emission, done + added) && curWeight' == Throughput(done + added)
  {
    var curLi := Black;
    if scene.hasLights {
      curLi := curLi.Plus(LiLightSample(scene, curIts, d));
    }
    var bsdfSample := scene.sampleBsdf(curIts, d);
    if bsdfSample.IsInvalid() {
      Finished(k, scene, Path(k, scene, its, depth, 1), done, curIts, depth, d);
      assert done + [] == done;
      return true, li, curWeight, curIts, [];
    }
    ghost var lightLi := curLi;
    var bsdfRay := Ray(curIts.position, k.Normalized(bsdfSample.wi));
    nextIts := scene.intersect(bsdfRay);
    curLi := curLi.Plus(nextIts.emission.Times(bsdfSample.weight));
    Step(k, scene, its, depth, done, curIts, d, li, curWeight, lightLi, bsdfSample, nextIts, curLi);
    li' := li.Plus(curLi.Times(curWeight));
    curWeight' := curWeight.Times(bsdfSample.weight);
    added := [Bounce(LightTerm(scene, curIts, d), nextIts.emission, bsdfSample.weight)];
    stop := !nextIts.hit;
  }

  /** The walk completes no bounce past the vertex limit or from an invalid sample. */
  lemma PathEnds(k: Kernel, scene: Scene, its: Its, depth: int, d: nat)
    requires scene.ProbabilitiesNonZero()
    ensures d >= depth || scene.sampleBsdf(its, d).IsInvalid() ==> Path(k, scene, its, depth, d) == []
  {
  }

  /** When the walk stops at the vertex limit or at an invalid sample, the bounces
      done so far are the whole path. */
  lemma Finished(k: Kernel, scene: Scene, full: seq<Bounce>, done: seq<Bounce>, its: Its, depth: int, d: nat)
    requires scene.ProbabilitiesNonZero()
    ensures full == done + Path(k, scene, its, depth, d) && (d >= depth || scene.sampleBsdf(its, d).IsInvalid()) ==>
      full == done
  {
    PathEnds(k, scene, its, depth, d);
    assert done + [] == done;
  }

  /** One iteration of the loop from a valid BSDF sample: the bounce it completes
      extends the bounces done, `li` and the throughput accordingly, and a miss
      ends the path there. */
  lemma Step(k: Kernel, scene: Scene, its: Its, depth: int, done: seq<Bounce>, curIts: Its, d: nat,
             li: Color, curWeight: Color, lightLi: Color, bs: BsdfSample, next: Its, curLi: Color)
    requires scene.ProbabilitiesNonZero() && d < depth
    requires Path(k, scene, its, depth, 1) == done + Path(k, scene, curIts, depth, d)
    requires li == Radiance(its.emission, done) && curWeight == Throughput(done)
    requires bs == scene.sampleBsdf(curIts, d) && !bs.IsInvalid()
    requires next == scene.intersect(Ray(curIts.position, k.Normalized(bs.wi)))
    requires lightLi == if scene.hasLights then Black.Plus(LiLightSample(scene, curIts, d)) else Black
    requires curLi == lightLi.Plus(next.emission.Times(bs.weight))
    ensures var b := Bounce(LightTerm(scene, curIts, d), next.emission, bs.weight);
      (next.hit ==> Path(k, scene, its, depth, 1) == (done + [b]) + Path(k, scene, next, depth, d + 1)) &&
      (!next.hit ==> Path(k, scene, its, depth, 1) == done + [b]) &&
      li.Plus(curLi.Times(curWeight)) == Radiance(its.emission, done + [b]) &&
      curWeight.Times(bs.weight) == Throughput(done + [b])
  {
    var b := Bounce(LightTerm(scene, curIts, d), next.emission, bs.weight);
    assert curLi == Contribution(b) by {
      assert scene.hasLights ==> Black.Plus(b.light) == b.light;
    }
    Advance(k, scene, Path(k, scene, its, depth, 1), done, curIts, depth, d);
    Extend(its.emission, done, b, li, curWeight, curLi);
    assert (done + [b]) + [] == done + [b];
  }

  /** One step of `Path` from a vertex whose BSDF sample is valid. */
  lemma PathStep(k: Kernel, scene: Scene, its: Its, depth: int, d: nat)
    requires scene.ProbabilitiesNonZero() && d < depth && !scene.sampleBsdf(its, d).IsInvalid()
    ensures var bs := scene.sampleBsdf(its, d);
      var next := scene.intersect(Ray(its.position, k.Normalized(bs.wi)));
      var b := Bounce(LightTerm(scene, its, d), next.emission, bs.weight);
      Path(k, scene, its, depth, d) == if next.hit then [b] + Path(k, scene, next, depth, d + 1) else [b]
  {
  }

  /** The bounces done so far followed by those still to come, one bounce later. */
  lemma Advance(k: Kernel, scene: Scene, full: seq<Bounce>, done: seq<Bounce>, its: Its, depth: int, d: nat)
    requires scene.ProbabilitiesNonZero() && d < depth && !scene.sampleBsdf(its, d).IsInvalid()
    requires full == done + Path(k, scene, its, depth, d)
    ensures var bs := scene.sampleBsdf(its, d);
      var next := scene.intersect(Ray(its.position, k.Normalized(bs.wi)));
      var b := Bounce(LightTerm(scene, its, d), next.emission, bs.weight);
      full == (done + [b]) + (if next.hit then Path(k, scene, next, depth, d + 1) else [])
  {
    PathStep(k, scene, its, depth, d);
    var bs := scene.sampleBsdf(its, d);
    var next := scene.intersect(Ray(its.position, k.Normalized(bs.wi)));
    var b := Bounce(LightTerm(scene, its, d), next.emission, bs.weight);
    var rest := if next.hit then Path(k, scene, next, depth, d + 1) else [];
    assert done + ([b] + rest) == (done + [b]) + rest;
  }

  /** Appending a bounce adds its contribution under the current throughput and
      multiplies the throughput by its weight. */
  lemma Extend(first: Color, p: seq<Bounce>, b: Bounce, li: Color, throughput: Color, curLi: Color)
    requires li == Radiance(first, p) && throughput == Throughput(p) && curLi == Contribution(b)
    ensures Throughput(p + [b]) == throughput.Times(b.weight)
    ensures Radiance(first, p + [b]) == li.Plus(curLi.Times(throughput))
  {
    assert (p + [b])[..|p|] == p;
  }

  /** A vertex limit of at most 1 never bounces: only the first hit's emission
      (or the background's) is returned. */
  lemma ShallowDepth(k: Kernel, scene: Scene, depth: int, ray: Ray)
    requires scene.ProbabilitiesNonZero() && depth <= 1
    ensures PathTrace(k, scene, depth, ray) == scene.intersect(ray).emission
  {
    var its := scene.intersect(ray);
    if its.hit {
      assert Path(k, scene, its, depth, 1) == [];
    }
  }

  /** An invalid first BSDF sample ends the walk before its light term is added,
      however bright the light. */
  lemma InvalidFirstSampleDropsLight(k: Kernel, scene: Scene, depth: int, ray: Ray)
    requires scene.ProbabilitiesNonZero()
    requires scene.intersect(ray).hit && scene.sampleBsdf(scene.intersect(ray), 1).IsInvalid()
    ensures PathTrace(k, scene, depth, ray) == scene.intersect(ray).emission
  {
    assert Path(k, scene, scene.intersect(ray), depth, 1) == [];
  }

  /** `DirectIntegrator::Li`: the first hit's emission, the light term, and the
      emission found by exactly one BSDF bounce whose validity is not checked. */
  function DirectLi(k: Kernel, scene: Scene, ray: Ray): Color
    requires scene.ProbabilitiesNonZero()
  {
    var its := scene.intersect(ray);
    if !its.hit then its.emission
    else
      var li := if scene.hasLights then its.emission.Plus(LiLightSample(scene, its, 1)) else its.emission;
      var bs := scene.sampleBsdf(its, 1);
      var bsdfIts := scene.intersect(Ray(its.position, k.Normalized(bs.wi)));
      li.Plus(bsdfIts.emission.Times(bs.weight))
  }

  /** With a valid first BSDF sample the direct integrator computes exactly the
      path tracer's two-vertex estimate; with an invalid one it keeps the light
      term that the path tracer drops. */
  lemma {:induction false} DirectIsTwoVertexPath(k: Kernel, scene: Scene, ray: Ray)
    requires scene.ProbabilitiesNonZero()
    ensures var its := scene.intersect(ray);
      (!its.hit || !scene.sampleBsdf(its, 1).IsInvalid() ==> DirectLi(k, scene, ray) == PathTrace(k, scene, 2, ray)) &&
      (its.hit && scene.sampleBsdf(its, 1).IsInvalid() ==>
         DirectLi(k, scene, ray) == its.emission.Plus(LightTerm(scene, its, 1)))
  {
    var its := scene.intersect(ray);
    if its.hit {
      var bs := scene.sampleBsdf(its, 1);
      var next := scene.intersect(Ray(its.position, k.Normalized(bs.wi)));
      var b := Bounce(LightTerm(scene, its, 1), next.emission, bs.weight);
      if !bs.IsInvalid() {
        assert Path(k, scene, next, 2, 2) == [];
        var p := Path(k, scene, its, 2, 1);
        assert p == [b];
        assert p[..0] == [];
        assert Radiance(its.emission, p) == its.emission.Plus(Contribution(b).Times(White));
      }
    }
  }

  /** The scene only ever reports non-negative quantities. */
  ghost predicate NonNegativeScene(scene: Scene) {
    (forall r :: scene.intersect(r).emission.NonNegative()) &&
    (forall its, d :: scene.sampleBsdf(its, d).weight.NonNegative()) &&
    (forall its, w :: scene.evaluateBsdf(its, w).NonNegative()) &&
    (forall d :: scene.sampleLight(d).Some? ==> scene.sampleLight(d).value.probability > 0.0) &&
    (forall d, o :: scene.sampleLight(d).Some? ==> scene.sampleLight(d).value.sampleDirect(o).weight.NonNegative())
  }

  /** In a scene of non-negative quantities the path tracer's estimate is never
      negative. */
  lemma PathTraceNonNegative(k: Kernel, scene: Scene, depth: int, ray: Ray)
    requires NonNegativeScene(scene) && scene.ProbabilitiesNonZero()
    ensures PathTrace(k, scene, depth, ray).NonNegative()
  {
    var its := scene.intersect(ray);
    if its.hit {
      var p := Path(k, scene, its, depth, 1);
      BouncesNonNegative(k, scene, its, depth, 1);
      RadianceNonNegative(its.emission, p);
    }
  }

  ghost predicate BounceNonNegative(b: Bounce) {
    b.light.NonNegative() && b.emission.NonNegative() && b.weight.NonNegative()
  }

  lemma {:induction false} BouncesNonNegative(k: Kernel, scene: Scene, its: Its, depth: int, d: nat)
    requires NonNegativeScene(scene) && scene.ProbabilitiesNonZero()
    ensures forall i :: 0 <= i < |Path(k, scene, its, depth, d)| ==> BounceNonNegative(Path(k, scene, its, depth, d)[i])
    decreases depth - d
  {
    if d < depth {
      var bs := scene.sampleBsdf(its, d);
      if !bs.IsInvalid() {
        var next := scene.intersect(Ray(its.position, k.Normalized(bs.wi)));
        LightTermNonNegative(scene, its, d);
        if next.hit {
          BouncesNonNegative(k, scene, next, depth, d + 1);
        }
      }
    }
  }

  lemma LightTermNonNegative(scene: Scene, its: Its, d: nat)
    requires NonNegativeScene(scene) && scene.ProbabilitiesNonZero()
    ensures LightTerm(scene, its, d).NonNegative()
  {
    if scene.hasLights && scene.sampleLight(d).Some? {
      var light := scene.sampleLight(d).value;
      var s := light.sampleDirect(its.position);
      var c := s.weight.Times(scene.evaluateBsdf(its, s.wi));
      TimesNonNegative(s.weight, scene.evaluateBsdf(its, s.wi));
      assert c.Div(light.probability) == c.Scale(1.0 / light.probability);
      assert 1.0 / light.probability > 0.0;
      ScaleNonNegative(c, 1.0 / light.probability);
    }
  }

  lemma {:induction false} ThroughputNonNegative(p: seq<Bounce>)
    requires forall i :: 0 <= i < |p| ==> BounceNonNegative(p[i])
    ensures Throughput(p).NonNegative()
  {
    if |p| > 0 {
      ThroughputNonNegative(p[..|p| - 1]);
      TimesNonNegative(Throughput(p[..|p| - 1]), p[|p| - 1].weight);
    }
  }

  lemma {:induction false} RadianceNonNegative(first: Color, p: seq<Bounce>)
    requires first.NonNegative()
    requires forall i :: 0 <= i < |p| ==> BounceNonNegative(p[i])
    ensures Radiance(first, p).NonNegative()
  {
    if |p| > 0 {
      var init := p[..|p| - 1];
      var last := p[|p| - 1];
      RadianceNonNegative(first, init);
      ThroughputNonNegative(init);
      TimesNonNegative(last.emission, last.weight);
      TimesNonNegative(Contribution(last), Throughput(init));
    }
  }

  /** `AlbedoIntegrator::Li`: grey on a miss; an emitter without a BSDF shows its
      emission when that is valid and black otherwise; a hit with neither is
      black; otherwise the BSDF's albedo. */
  function AlbedoLi(scene: Scene, ray: Ray): Color {
    var its := scene.intersect(ray);
    if !its.hit then Grey(0.5)
    else if !its.hasBsdf && its.hasEmission then
      (if its.emission != Black then its.emission else Black)
    else if !its.hasBsdf then Black
    else its.albedo
  }

  /** The albedo integrator's decision tree: which of the four answers each kind
      of hit gets. The validity test on the emission never changes the answer. */
  lemma AlbedoCases(scene: Scene, ray: Ray)
    ensures var its := scene.intersect(ray);
      (!its.hit ==> AlbedoLi(scene, ray) == Grey(0.5)) &&
      (its.hit && !its.hasBsdf && its.hasEmission ==> AlbedoLi(scene, ray) == its.emission) &&
      (its.hit && !its.hasBsdf && !its.hasEmission ==> AlbedoLi(scene, ray) == Black) &&
      (its.hit && its.hasBsdf ==> AlbedoLi(scene, ray) == its.albedo)
  {
  }

  /** `NormalIntegrator::Li`: the geometry normal as a colour, remapped from
      `[-1,1]` to `[0,1]` when `remap` is set (the property is required, so its
      default is never used). A miss is not special-cased. */
  function NormalsLi(remap: bool, scene: Scene, ray: Ray): Color {
    var normal := scene.intersect(ray).geometryNormal;
    if remap then AsColor(normal).Plus(White).Div(2.0) else AsColor(normal)
  }

  /** Remapping takes unit-cube normals into the unit colour cube and can be
      undone; without it the colour is the normal itself. */
  lemma NormalsRemap(scene: Scene, ray: Ray)
    ensures var n := scene.intersect(ray).geometryNormal;
      var c := NormalsLi(true, scene, ray);
      c.Scale(2.0).Plus(Grey(-1.0)) == AsColor(n) &&
      (-1.0 <= n.x <= 1.0 && -1.0 <= n.y <= 1.0 && -1.0 <= n.z <= 1.0 ==>
         0.0 <= c.r <= 1.0 && 0.0 <= c.g <= 1.0 && 0.0 <= c.b <= 1.0) &&
      NormalsLi(false, scene, ray) == AsColor(n)
  {
  }
}
