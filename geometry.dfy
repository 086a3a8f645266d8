/** Value types shared by the whole renderer: vectors, points, colours, rays,
    bounding boxes and the extended reals used for "Infinity" distances.
    Every float of the renderer is modelled as a Dafny `real`. */
module Geometry {

  datatype Option<T> = None | Some(value: T)

  /** Pi as the float constant the renderer uses; only its positivity is relied on. */
  const Pi: real := 3.14159265358979323846
  const InvPi: real := 1.0 / Pi
  const Inv4Pi: real := 1.0 / (4.0 * Pi)
  /** Self-intersection guard distance; only its positivity is relied on. */
  const Epsilon: real := 0.00001

  /** A float that may be +Infinity (distances and pdfs of delta lights, "no hit yet"). */
  datatype Ext = Fin(val: real) | Infinity {
    /** `x <= this` for a finite x. */
    predicate AtLeast(x: real) { Infinity? || x <= val }
    /** `x < this` for a finite x. */
    predicate Above(x: real) { Infinity? || x < val }
  }

  datatype Vec2 = Vec2(x: real, y: real)

  datatype Vec3 = Vec3(x: real, y: real, z: real) {
    function Plus(o: Vec3): Vec3 { Vec3(x + o.x, y + o.y, z + o.z) }
    function Minus(o: Vec3): Vec3 { Vec3(x - o.x, y - o.y, z - o.z) }
    function Neg(): Vec3 { Vec3(-x, -y, -z) }
    function Times(s: real): Vec3 { Vec3(x * s, y * s, z * s) }
    function Dot(o: Vec3): real { x * o.x + y * o.y + z * o.z }
    function Cross(o: Vec3): Vec3 { Vec3(y * o.z - z * o.y, z * o.x - x * o.z, x * o.y - y * o.x) }
    /** `p[dim]` */
    function Get(dim: nat): real requires dim < 3 { if dim == 0 then x else if dim == 1 then y else z }
    /** `p[dim] = v` */
    function With(dim: nat, v: real): Vec3 requires dim < 3 {
      if dim == 0 then Vec3(v, y, z) else if dim == 1 then Vec3(x, v, z) else Vec3(x, y, v)
    }
  }

  const Zero := Vec3(0.0, 0.0, 0.0)

  datatype Color = Color(r: real, g: real, b: real) {
    function Plus(o: Color): Color { Color(r + o.r, g + o.g, b + o.b) }
    function Times(o: Color): Color { Color(r * o.r, g * o.g, b * o.b) }
    function Scale(s: real): Color { Color(r * s, g * s, b * s) }
    function Div(s: real): Color requires s != 0.0 { Color(r / s, g / s, b / s) }
    function Mean(): real { (r + g + b) / 3.0 }
    predicate NonNegative() { 0.0 <= r && 0.0 <= g && 0.0 <= b }
  }

  /** Dividing a colour by a non-zero factor and scaling it back gives it back. */
  lemma DivThenScale(c: Color, p: real)
    requires p != 0.0
    ensures c.Div(p).Scale(p) == c
  {
  }

  /** A positive factor keeps the sign of the other one. */
  lemma PositiveFactor(a: real, b: real)
    requires b > 0.0
    ensures a < 0.0 <==> a * b < 0.0
    ensures a > 0.0 <==> a * b > 0.0
  {
    if a >= 0.0 { assert a * b >= 0.0; }
    if a <= 0.0 { assert a * b <= 0.0; }
  }

  /** A product of non-negative numbers is non-negative. */
  lemma NonNegativeProduct(a: real, b: real)
    requires 0.0 <= a && 0.0 <= b
    ensures 0.0 <= a * b
  {
  }

  /** Scaling, multiplying and dividing by non-negative quantities keep every
      channel of a colour non-negative. */
  lemma ScaleNonNegative(c: Color, s: real)
    requires c.NonNegative() && s >= 0.0
    ensures c.Scale(s).NonNegative()
  {
    NonNegativeProduct(c.r, s);
    NonNegativeProduct(c.g, s);
    NonNegativeProduct(c.b, s);
  }

  lemma TimesNonNegative(a: Color, b: Color)
    requires a.NonNegative() && b.NonNegative()
    ensures a.Times(b).NonNegative()
  {
    NonNegativeProduct(a.r, b.r);
    NonNegativeProduct(a.g, b.g);
    NonNegativeProduct(a.b, b.b);
  }

  lemma DivNonNegative(c: Color, p: real)
    requires c.NonNegative() && p > 0.0
    ensures c.Div(p).NonNegative()
  {
  }

  /** `Color(s)` */
  function Grey(s: real): Color { Color(s, s, s) }
  const Black := Grey(0.0)
  const White := Grey(1.0)
  /** `Color(v)`: a vector reinterpreted as a colour. */
  function AsColor(v: Vec3): Color { Color(v.x, v.y, v.z) }

  datatype Ray = Ray(origin: Vec3, direction: Vec3) {
    /** `ray(t)` */
    function At(t: real): Vec3 { origin.Plus(direction.Times(t)) }
  }

  /** Local shading frame helpers: in local coordinates the normal is +z. */
  function CosTheta(v: Vec3): real { v.z }
  function AbsCosTheta(v: Vec3): real { if v.z < 0.0 then -v.z else v.z }
  predicate SameHemisphere(a: Vec3, b: Vec3) { a.z * b.z > 0.0 }

  function Abs(x: real): real { if x < 0.0 then -x else x }
  function Min(a: real, b: real): real { if a <= b then a else b }
  function Max(a: real, b: real): real { if a >= b then a else b }
  function Sqr(x: real): real { x * x }

  /** An orthonormal basis; `ToLocal` expresses a world vector in it. */
  datatype Frame = Frame(tangent: Vec3, bitangent: Vec3, normal: Vec3) {
    function ToLocal(v: Vec3): Vec3 { Vec3(v.Dot(tangent), v.Dot(bitangent), v.Dot(normal)) }
  }

  /** Axis-aligned box. `Empty` is a default-constructed `Bounds`, `Full` is `Bounds::full()`. */
  datatype Bounds = Empty | Box(lo: Vec3, hi: Vec3) | Full {
    predicate IsUnbounded() { Full? }
    predicate Contains(p: Vec3) {
      Full? || (Box? && lo.x <= p.x <= hi.x && lo.y <= p.y <= hi.y && lo.z <= p.z <= hi.z)
    }
    /** `extend(p)`: the smallest box containing this one and `p`. */
    function Extend(p: Vec3): (r: Bounds)
      ensures r.Contains(p)
      ensures forall q :: Contains(q) ==> r.Contains(q)
    {
      match this
      case Empty => Box(p, p)
      case Full => Full
      case Box(lo, hi) =>
        Box(Vec3(Min(lo.x, p.x), Min(lo.y, p.y), Min(lo.z, p.z)),
            Vec3(Max(hi.x, p.x), Max(hi.y, p.y), Max(hi.z, p.z)))
    }
  }
}
