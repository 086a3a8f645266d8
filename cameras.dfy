/** The perspective and thin-lens cameras (src/cameras/perspective.cpp,
    src/cameras/thinlens.cpp). The camera looks along +z in its local frame; the
    image plane sits at z = 1. */
module Cameras {
  import opened Geometry
  import opened Kernel
  import opened Records

  /** The `fovAxis` property; the constructors set the ratios only for "x" and "y". */
  datatype FovAxis = X | Y

  datatype Ratios = Ratios(x: real, y: real)

  /** `tan((fov / 2) * (Pi / 180))`: the tangent of half the field of view,
      which the `fov` property gives in degrees. */
  function TanHalfFov(k: Kernel, fov: real): real {
    k.tan((fov / 2.0) * (Pi / 180.0))
  }

  /** The constructors' ratio set-up from the image size and the field of view:
      the axis the field of view is measured along gets `TanHalfFov`. */
  function MakeRatios(k: Kernel, axis: FovAxis, width: real, height: real, fov: real): (r: Ratios)
    requires width != 0.0 && height != 0.0
    ensures axis == Y ==> r.y == TanHalfFov(k, fov)
    ensures axis == X ==> r.x == TanHalfFov(k, fov)
  {
    var tanFov := TanHalfFov(k, fov);
    match axis
    case Y => Ratios((width / height) * tanFov, tanFov)
    case X => Ratios(tanFov, (height / width) * tanFov)
  }

  /** Whichever axis the field of view is measured along, the ratios keep the
      image's aspect: `x_ratio / y_ratio == width / height`. */
  lemma {:induction false} RatiosKeepAspect(k: Kernel, axis: FovAxis, width: real, height: real, fov: real)
    requires width != 0.0 && height != 0.0
    ensures var r := MakeRatios(k, axis, width, height, fov);
      r.x * height == r.y * width
  {
    var r := MakeRatios(k, axis, width, height, fov);
    var tanFov := TanHalfFov(k, fov);
    match axis
    case Y =>
      assert (width / height) * height == width;
      assert r.x * height == (width / height) * height * tanFov;
    case X =>
      assert (height / width) * width == height;
      assert r.y * width == (height / width) * width * tanFov;
  }

  /** A field of view strictly between 0 and 180 degrees and a positive image
      size give positive ratios, for either axis. */
  lemma RatiosPositive(k: Kernel, axis: FovAxis, width: real, height: real, fov: real)
    requires k.TrigRanges() && width > 0.0 && height > 0.0 && 0.0 < fov < 180.0
    ensures var r := MakeRatios(k, axis, width, height, fov);
      r.x > 0.0 && r.y > 0.0
  {
    assert 0.0 < (fov / 2.0) * (Pi / 180.0) < Pi / 2.0;
    assert TanHalfFov(k, fov) > 0.0;
    assert width / height > 0.0 && height / width > 0.0;
  }

  /** A camera's fixed state: the ratios and the local-to-world transform. */
  datatype Camera = Camera(ratios: Ratios, transform: Transform)

  /** The un-normalised direction to the image-plane point of `normalized`. */
  function PlanePoint(c: Camera, normalized: Vec2): Vec3 {
    Vec3(normalized.x * c.ratios.x, normalized.y * c.ratios.y, 1.0)
  }

  /** The local ray both `sample` methods start from: from the origin, normalised. */
  function LocalRay(k: Kernel, c: Camera, normalized: Vec2): Ray {
    Ray(Zero, k.Normalized(PlanePoint(c, normalized)))
  }

  datatype CameraSample = CameraSample(ray: Ray, weight: Color)

  /** `Perspective::sample`: the local ray in world space, normalised again. */
  function PerspectiveSample(k: Kernel, c: Camera, normalized: Vec2): (r: CameraSample)
    ensures r.weight == White
  {
    CameraSample(NormalizedRay(k, c.transform.ApplyRay(LocalRay(k, c, normalized))), White)
  }

  /** The class comment's sign property: with positive ratios, a pixel left of
      (below) the centre looks along negative x (negative y), and every local
      direction points forward. */
  lemma {:induction false} SignsFollowPixel(k: Kernel, c: Camera, normalized: Vec2)
    requires k.SqrtSound() && c.ratios.x > 0.0 && c.ratios.y > 0.0
    ensures var d := LocalRay(k, c, normalized).direction;
      (normalized.x < 0.0 <==> d.x < 0.0) && (normalized.y < 0.0 <==> d.y < 0.0) && d.z > 0.0
  {
    var p := PlanePoint(c, normalized);
    var s := NormalizedScales(k, p);
    PositiveFactor(normalized.x, c.ratios.x);
    PositiveFactor(normalized.y, c.ratios.y);
    PositiveFactor(p.x, s);
    PositiveFactor(p.y, s);
  }

  /** The thin lens's extra state. */
  datatype Lens = Lens(radius: real, focalDistance: real)

  /** The lens branch's geometry: the lens point, the focus point on the local
      ray, and the ray through both. */
  function LensRay(k: Kernel, c: Camera, lens: Lens, normalized: Vec2, rnd: Vec2): Ray
    requires k.SqrtSound()
  {
    var local := LocalRay(k, c, normalized);
    LocalRayForward(k, c, normalized);
    var disk := k.squareToUniformDiskConcentric(rnd);
    var pLens := Vec2(lens.radius * disk.x, lens.radius * disk.y);
    var ft := lens.focalDistance / local.direction.z;
    var pFocus := local.At(ft);
    var origin := Vec3(pLens.x, pLens.y, 0.0);
    Ray(origin, k.Normalized(pFocus.Minus(origin)))
  }

  /** The point on the local ray at depth `focalDistance`. */
  function FocusPoint(k: Kernel, c: Camera, lens: Lens, normalized: Vec2): Vec3
    requires k.SqrtSound()
  {
    var local := LocalRay(k, c, normalized);
    LocalRayForward(k, c, normalized);
    local.At(lens.focalDistance / local.direction.z)
  }

  /** The local ray's direction points forward (`z > 0`). */
  lemma LocalRayForward(k: Kernel, c: Camera, normalized: Vec2)
    requires k.SqrtSound()
    ensures LocalRay(k, c, normalized).direction.z > 0.0
  {
    var s := NormalizedScales(k, PlanePoint(c, normalized));
  }

  /** `Thinlens::sample`: a pinhole ray in world space when the lens radius is not
      positive; otherwise the lens ray, returned in local coordinates. */
  function ThinlensSample(k: Kernel, c: Camera, lens: Lens, normalized: Vec2, rnd: Vec2): (r: CameraSample)
    requires k.SqrtSound()
    ensures r.weight == White
  {
    if lens.radius > 0.0 then CameraSample(LensRay(k, c, lens, normalized, rnd), White)
    else CameraSample(c.transform.ApplyRay(LocalRay(k, c, normalized)), White)
  }

  /** The pinhole branch is the perspective camera without its final
      normalisation. */
  lemma PinholeIsPerspective(k: Kernel, c: Camera, lens: Lens, normalized: Vec2, rnd: Vec2)
    requires k.SqrtSound() && lens.radius <= 0.0
    ensures NormalizedRay(k, ThinlensSample(k, c, lens, normalized, rnd).ray) ==
            PerspectiveSample(k, c, normalized).ray
  {
  }

  /** The lens branch: the origin lies on the lens plane z = 0 at the scaled disk
      sample, the focus point lies at depth `focalDistance`, the returned ray
      passes through it, and nothing is mapped to world space. */
  lemma {:induction false} LensGeometry(k: Kernel, c: Camera, lens: Lens, normalized: Vec2, rnd: Vec2)
    requires k.SqrtSound() && lens.radius > 0.0
    ensures var r := ThinlensSample(k, c, lens, normalized, rnd).ray;
      var disk := k.squareToUniformDiskConcentric(rnd);
      var pFocus := FocusPoint(k, c, lens, normalized);
      r.origin == Vec3(lens.radius * disk.x, lens.radius * disk.y, 0.0) &&
      pFocus.z == lens.focalDistance &&
      r.At(k.Length(pFocus.Minus(r.origin))) == pFocus
  {
    var local := LocalRay(k, c, normalized);
    LocalRayForward(k, c, normalized);
    var dz := local.direction.z;
    var pFocus := FocusPoint(k, c, lens, normalized);
    assert pFocus.z == 0.0 + dz * (lens.focalDistance / dz);
    var r := ThinlensSample(k, c, lens, normalized, rnd).ray;
    ReachesTarget(k, r.origin, pFocus);
  }

  /** Walking `|target - origin|` along the normalised difference reaches the target. */
  lemma ReachesTarget(k: Kernel, origin: Vec3, target: Vec3)
    requires k.SqrtSound()
    ensures Ray(origin, k.Normalized(target.Minus(origin))).At(k.Length(target.Minus(origin))) == target
  {
    NormalizedTimesLength(k, target.Minus(origin));
  }
}
