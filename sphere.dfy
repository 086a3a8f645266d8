/** The unit sphere at the origin (src/shapes/sphere.cpp). */
module Sphere {
  import opened Geometry
  import opened Kernel
  import opened Records

  /** The surface fields `populate` writes for a hit point on the sphere. */
  function PopulateSurface(k: Kernel, p: Vec3): Surface {
    var tangent := if p.x == 0.0 then k.Normalized(p.Cross(Vec3(1.0, 0.0, 0.0)))
                   else k.Normalized(p.Cross(Vec3(0.0, 1.0, 0.0)));
    Surface(p,
            Vec2(0.5 + k.atan2(p.x, p.z) / (2.0 * Pi), 0.5 - k.asin(p.y) / Pi),
            p, p, tangent, 0.0)
  }

  /** `populate`: writes the surface fields of the caller's record in place. */
  method Populate(k: Kernel, its: Intersection, p: Vec3)
    modifies its
    ensures its.State() == Record(old(its.t), PopulateSurface(k, p), old(its.instance))
  {
    its.position := p;
    its.pdf := 0.0;
    its.uv := Vec2(0.5 + k.atan2(p.x, p.z) / (2.0 * Pi), 0.5 - k.asin(p.y) / Pi);
    its.shadingNormal := p;
    its.geometryNormal := p;
    if p.x == 0.0 {
      its.tangent := k.Normalized(p.Cross(Vec3(1.0, 0.0, 0.0)));
    } else {
      its.tangent := k.Normalized(p.Cross(Vec3(0.0, 1.0, 0.0)));
    }
  }

  /** The two roots of `t^2 + b t + c` for `b = 2 dir.ori`, `c = ori.ori - 1`
      (a unit direction is assumed by the formula), nearer one first. */
  function Discriminant(ray: Ray): real {
    var b := 2.0 * ray.direction.Dot(ray.origin);
    var c := ray.origin.Dot(ray.origin) - 1.0;
    b * b - 4.0 * c
  }

  /** The root the test goes on with: `t0` beyond Epsilon, else `t1` in front of
      the origin, else none. */
  function SelectRoot(t0: real, t1: real): Option<real> {
    if t0 > Epsilon then Some(t0) else if t1 > 0.0 then Some(t1) else None
  }

  /** The distance the test goes on with, if the ray meets the sphere's quadratic at all. */
  function Root(k: Kernel, ray: Ray): Option<real> {
    var disc := Discriminant(ray);
    if disc < 0.0 then None
    else
      var b := 2.0 * ray.direction.Dot(ray.origin);
      var sd := k.sqrt(disc);
      SelectRoot((-b - sd) / 2.0, (-b + sd) / 2.0)
  }

  /** What `intersect` does to a record whose current best distance is `tMax`:
      `None` leaves the record untouched, `Some(h)` is what it writes. */
  function Test(k: Kernel, ray: Ray, tMax: Ext): Option<Hit> {
    match Root(k, ray)
    case None => None
    case Some(t) =>
      if t < Epsilon || !tMax.AtLeast(t) then None
      else Some(Hit(t, PopulateSurface(k, ray.At(t))))
  }

  /** `Sphere::intersect`: updates the caller's record in place on an accepted hit. */
  method Intersect(k: Kernel, ray: Ray, its: Intersection) returns (hit: bool)
    modifies its
    ensures hit == Test(k, ray, old(its.t)).Some?
    ensures hit ==> its.State() == Record(Fin(Test(k, ray, old(its.t)).value.t),
                                          Test(k, ray, old(its.t)).value.surface, old(its.instance))
    ensures !hit ==> its.State() == old(its.State())
  {
    var ori := ray.origin;
    var dir := ray.direction;
    var b := 2.0 * dir.Dot(ori);
    var c := ori.Dot(ori) - 1.0;
    var discriminant := b * b - 4.0 * c;
    assert discriminant == Discriminant(ray);
    if discriminant < 0.0 {
      return false;
    }
    var sqrtDiscriminant := k.sqrt(discriminant);
    var t0 := (-b - sqrtDiscriminant) / 2.0;
    var t1 := (-b + sqrtDiscriminant) / 2.0;
    ghost var root := SelectRoot(t0, t1);
    assert Root(k, ray) == root;
    assert Test(k, ray, its.t) == match root
      case None => None
      case Some(t) => if t < Epsilon || !its.t.AtLeast(t) then None else Some(Hit(t, PopulateSurface(k, ray.At(t))));
    var t: real;
    if t0 > Epsilon {
      t := t0;
    } else if t1 > 0.0 {
      t := t1;
    } else {
      return false;
    }
    if t < Epsilon || !its.t.AtLeast(t) {
      return false;
    }
    var position := ray.At(t);
    its.t := Fin(t);
    Populate(k, its, position);
    hit := true;
  }

  /** The acceptance window: a hit is reported exactly when the selected root lies
      in `[Epsilon, tMax]` (a root equal to `tMax` is accepted), and a negative
      discriminant selects no root. */
  lemma AcceptanceWindow(k: Kernel, ray: Ray, tMax: Ext)
    ensures Discriminant(ray) < 0.0 ==> Root(k, ray).None? && Test(k, ray, tMax).None?
    ensures Test(k, ray, tMax).Some? <==>
      Root(k, ray).Some? && Epsilon <= Root(k, ray).value && tMax.AtLeast(Root(k, ray).value)
    ensures Test(k, ray, tMax).Some? ==>
      Test(k, ray, tMax).value.t == Root(k, ray).value &&
      Test(k, ray, tMax).value.surface.position == ray.At(Root(k, ray).value)
  {
  }

  /** Root choice: the nearer root when it lies beyond Epsilon, otherwise the far
      root, which must be in front of the origin. */
  lemma RootChoice(t0: real, t1: real)
    ensures t0 > Epsilon ==> SelectRoot(t0, t1) == Some(t0)
    ensures t0 <= Epsilon && t1 > 0.0 ==> SelectRoot(t0, t1) == Some(t1)
    ensures t0 <= Epsilon && t1 <= 0.0 ==> SelectRoot(t0, t1) == None
    ensures SelectRoot(t0, t1).Some? ==> SelectRoot(t0, t1).value > 0.0
  {
  }

  /** With a sound `sqrt` the accepted distance is a root of the ray/sphere
      quadratic, so for a unit direction the hit point lies on the unit sphere. */
  lemma {:induction false} HitOnSphere(k: Kernel, ray: Ray, tMax: Ext)
    requires k.SqrtSound()
    requires ray.direction.Dot(ray.direction) == 1.0
    requires Test(k, ray, tMax).Some?
    ensures Test(k, ray, tMax).value.surface.position.Dot(Test(k, ray, tMax).value.surface.position) == 1.0
  {
    AcceptanceWindow(k, ray, tMax);
    RootOnSphere(k, ray);
  }

  /** The selected root of a unit-direction ray is a point of the unit sphere. */
  lemma {:induction false} RootOnSphere(k: Kernel, ray: Ray)
    requires k.SqrtSound()
    requires ray.direction.Dot(ray.direction) == 1.0
    requires Root(k, ray).Some?
    ensures ray.At(Root(k, ray).value).Dot(ray.At(Root(k, ray).value)) == 1.0
  {
    var b, c, sd, t := AcceptedRoot(k, ray);
    SqrtSquare(k, Discriminant(ray));
    RootSolves(ray, b, c, sd, t);
  }

  /** Unfolds a selected root into the quantities it was computed from. */
  lemma AcceptedRoot(k: Kernel, ray: Ray) returns (b: real, c: real, sd: real, t: real)
    requires Root(k, ray).Some?
    ensures b == 2.0 * ray.direction.Dot(ray.origin) && c == ray.origin.Dot(ray.origin) - 1.0
    ensures Discriminant(ray) >= 0.0 && sd == k.sqrt(Discriminant(ray))
    ensures t == Root(k, ray).value && (t == (-b - sd) / 2.0 || t == (-b + sd) / 2.0)
  {
    b := 2.0 * ray.direction.Dot(ray.origin);
    c := ray.origin.Dot(ray.origin) - 1.0;
    sd := k.sqrt(Discriminant(ray));
    t := Root(k, ray).value;
  }

  lemma SqrtSquare(k: Kernel, x: real)
    requires k.SqrtSound() && x >= 0.0
    ensures k.sqrt(x) * k.sqrt(x) == x
  {
  }

  /** A root of the ray/sphere quadratic, for a unit direction, is a point of the sphere. */
  lemma RootSolves(ray: Ray, b: real, c: real, sd: real, t: real)
    requires ray.direction.Dot(ray.direction) == 1.0
    requires b == 2.0 * ray.direction.Dot(ray.origin) && c == ray.origin.Dot(ray.origin) - 1.0
    requires sd * sd == Discriminant(ray)
    requires t == (-b - sd) / 2.0 || t == (-b + sd) / 2.0
    ensures ray.At(t).Dot(ray.At(t)) == 1.0
  {
    assert Discriminant(ray) == b * b - 4.0 * c;
    QuadraticRoot(b, c, sd, t);
    PointOnSphere(ray.origin, ray.direction, t);
  }

  lemma QuadraticRoot(b: real, c: real, sd: real, t: real)
    requires sd * sd == b * b - 4.0 * c
    requires t == (-b - sd) / 2.0 || t == (-b + sd) / 2.0
    ensures t * t + b * t + c == 0.0
  {
    var s := if t == (-b - sd) / 2.0 then -sd else sd;
    assert 2.0 * t == -b + s;
    assert s * s == sd * sd;
    assert 4.0 * (t * t + b * t + c) == (2.0 * t) * (2.0 * t) + 2.0 * b * (2.0 * t) + 4.0 * c;
  }

  lemma PointOnSphere(o: Vec3, d: Vec3, t: real)
    requires d.Dot(d) == 1.0
    requires t * t + 2.0 * d.Dot(o) * t + o.Dot(o) - 1.0 == 0.0
    ensures o.Plus(d.Times(t)).Dot(o.Plus(d.Times(t))) == 1.0
  {
    var p := o.Plus(d.Times(t));
    assert p.Dot(p) == o.Dot(o) + 2.0 * t * d.Dot(o) + t * t * d.Dot(d);
  }

  /** What `populate` writes: both normals are the position, pdf is 0, the
      tangent is orthogonal to the normal, and on the unit sphere it is never zero. */
  lemma PopulateFacts(k: Kernel, p: Vec3)
    requires k.SqrtSound()
    ensures var s := PopulateSurface(k, p);
      s.position == p && s.shadingNormal == p && s.geometryNormal == p && s.pdf == 0.0 &&
      s.tangent.Dot(s.geometryNormal) == 0.0 &&
      (p.Dot(p) == 1.0 ==> s.tangent != Zero)
  {
    var axis := if p.x == 0.0 then Vec3(1.0, 0.0, 0.0) else Vec3(0.0, 1.0, 0.0);
    var cross := p.Cross(axis);
    var sc := NormalizedScales(k, cross);
    assert PopulateSurface(k, p).tangent == cross.Times(sc);
    assert cross.Dot(p) == 0.0;
    assert cross.Times(sc).Dot(p) == sc * cross.Dot(p);
    if p.Dot(p) == 1.0 {
      if p.x == 0.0 {
        assert cross == Vec3(0.0, p.z, -p.y);
        assert cross.Dot(cross) == 1.0;
      } else {
        assert cross == Vec3(-p.z, 0.0, p.x);
      }
      assert cross != Zero;
      assert cross.Times(sc) != Zero by {
        if cross.x != 0.0 { assert cross.Times(sc).x == cross.x * sc; ProductNonZero(cross.x, sc); }
        else if cross.y != 0.0 { ProductNonZero(cross.y, sc); }
        else { ProductNonZero(cross.z, sc); }
      }
    }
  }

  /** Texture coordinates lie in the unit square, given the ranges of atan2 and asin. */
  lemma UvInUnitSquare(k: Kernel, p: Vec3)
    requires k.TrigRanges()
    ensures var uv := PopulateSurface(k, p).uv;
      0.0 <= uv.x <= 1.0 && 0.0 <= uv.y <= 1.0
  {
    var a := k.atan2(p.x, p.z);
    var s := k.asin(p.y);
    assert -Pi <= a <= Pi && -Pi / 2.0 <= s <= Pi / 2.0;
  }

  /** `getBoundingBox` */
  const Bounds := Box(Vec3(-1.0, -1.0, -1.0), Vec3(1.0, 1.0, 1.0))
  /** `getCentroid` */
  const Centroid := Zero

  /** The box `[-1,1]^3` encloses the whole unit sphere, its centroid included. */
  lemma BoundsEnclose(p: Vec3)
    requires p.Dot(p) <= 1.0
    ensures Bounds.Contains(p) && Bounds.Contains(Centroid)
  {
    SquareNonNegative(p.x);
    SquareNonNegative(p.y);
    SquareNonNegative(p.z);
    SquareAtMostOne(p.x, p.y * p.y + p.z * p.z);
    SquareAtMostOne(p.y, p.x * p.x + p.z * p.z);
    SquareAtMostOne(p.z, p.x * p.x + p.y * p.y);
  }

  lemma SquareAtMostOne(a: real, rest: real)
    requires rest >= 0.0 && a * a + rest <= 1.0
    ensures -1.0 <= a <= 1.0
  {
    assert (1.0 - a) * (1.0 + a) == 1.0 - a * a;
  }
}
