/** The numeric helpers the renderer calls but whose code is not part of this
    model (math.hpp, warp.hpp, frame.hpp, fresnel.hpp, microfacet.hpp). Each one is a
    function value; the only facts assumed about them are the predicates below,
    and a member that relies on one names it in its `requires`. */
module Kernel {
  import opened Geometry

  datatype Kernel = Kernel(
    sqrt: real -> real,
    tan: real -> real,
    atan2: (real, real) -> real,
    asin: real -> real,
    /** `reflect(w, n)` */
    reflect: (Vec3, Vec3) -> Vec3,
    /** `refract(w, n, eta)`: the zero vector on total internal reflection. */
    refract: (Vec3, Vec3, real) -> Vec3,
    /** `fresnelDielectric(cosThetaI, eta)` */
    fresnelDielectric: (real, real) -> real,
    /** `schlick(f0, cosTheta)` */
    schlick: (real, real) -> real,
    /** `microfacet::evaluateGGX(alpha, wm)` */
    evaluateGGX: (real, Vec3) -> real,
    /** `microfacet::smithG1(alpha, wm, w)` */
    smithG1: (real, Vec3, Vec3) -> real,
    /** `microfacet::sampleGGXVNDF(alpha, wo, rnd)` */
    sampleGGXVNDF: (real, Vec3, Vec2) -> Vec3,
    /** `microfacet::detReflection(wm, wo)` */
    detReflection: (Vec3, Vec3) -> real,
    squareToCosineHemisphere: Vec2 -> Vec3,
    squareToUniformSphere: Vec2 -> Vec3,
    squareToUniformDiskConcentric: Vec2 -> Vec2,
    /** the tangent `buildOrthonormalBasis(n, tangent, bitangent)` writes */
    basisTangent: Vec3 -> Vec3
  ) {
    /** `sqrt` returns the non-negative square root. */
    ghost predicate SqrtSound() {
      forall x :: 0.0 <= x ==> 0.0 <= sqrt(x) && sqrt(x) * sqrt(x) == x
    }

    /** The ranges of the C library's `atan2` and `asin`, and the sign of `tan`
        on the first quadrant. */
    ghost predicate TrigRanges() {
      (forall a, b :: -Pi <= atan2(a, b) <= Pi) &&
      (forall a :: -Pi / 2.0 <= asin(a) <= Pi / 2.0) &&
      (forall a :: 0.0 < a < Pi / 2.0 ==> 0.0 < tan(a))
    }

    /** `v.length()` */
    function Length(v: Vec3): real { sqrt(v.Dot(v)) }

    /** `v.normalized()`; a zero vector (NaN in floating point) is left as it is. */
    function Normalized(v: Vec3): Vec3 {
      var len := Length(v);
      if len == 0.0 then v else v.Times(1.0 / len)
    }
  }

  lemma SquareNonNegative(a: real)
    ensures a * a >= 0.0
    ensures a * a == 0.0 <==> a == 0.0
  {
    if a < 0.0 {
      assert a * a == (-a) * (-a);
    }
    if a * a == 0.0 && a != 0.0 {
      ProductZero(a, a);
    }
  }

  lemma ProductZero(a: real, b: real)
    requires a * b == 0.0 && b != 0.0
    ensures a == 0.0
  {
    assert a == (a * b) / b;
  }

  lemma ProductNonZero(a: real, b: real)
    requires a != 0.0 && b != 0.0
    ensures a * b != 0.0
  {
    if a * b == 0.0 { ProductZero(a, b); }
  }

  lemma DotSelfNonNegative(v: Vec3)
    ensures v.Dot(v) >= 0.0
    ensures v.Dot(v) == 0.0 <==> v == Zero
  {
    SquareNonNegative(v.x);
    SquareNonNegative(v.y);
    SquareNonNegative(v.z);
  }

  lemma LengthFacts(k: Kernel, v: Vec3)
    requires k.SqrtSound()
    ensures k.Length(v) >= 0.0
    ensures k.Length(v) * k.Length(v) == v.Dot(v)
    ensures k.Length(v) == 0.0 <==> v == Zero
  {
    DotSelfNonNegative(v);
    var d := v.Dot(v);
    var r := k.sqrt(d);
    assert 0.0 <= r && r * r == d;
    SquareNonNegative(r);
  }

  /** Normalising scales by a positive factor, so signs are kept component by component. */
  lemma NormalizedScales(k: Kernel, v: Vec3) returns (s: real)
    requires k.SqrtSound()
    ensures s > 0.0 && k.Normalized(v) == v.Times(s)
  {
    LengthFacts(k, v);
    var len := k.Length(v);
    if len == 0.0 {
      s := 1.0;
    } else {
      s := 1.0 / len;
    }
  }

  /** Walking the length of a vector along its normalised direction gives the vector back. */
  lemma NormalizedTimesLength(k: Kernel, v: Vec3)
    requires k.SqrtSound()
    ensures k.Normalized(v).Times(k.Length(v)) == v
  {
    LengthFacts(k, v);
    var len := k.Length(v);
    if len != 0.0 {
      assert k.Normalized(v) == v.Times(1.0 / len);
      assert v.Times(1.0 / len).Times(len) == v;
    }
  }

  /** A normalised non-zero vector has unit length. */
  lemma {:induction false} NormalizedUnit(k: Kernel, v: Vec3)
    requires k.SqrtSound() && v != Zero
    ensures k.Normalized(v).Dot(k.Normalized(v)) == 1.0
  {
    LengthFacts(k, v);
    var len := k.Length(v);
    var n := k.Normalized(v);
    assert n == v.Times(1.0 / len);
    calc {
      n.Dot(n);
      == v.Dot(v) * (1.0 / len) * (1.0 / len);
      == (len * len) * (1.0 / len) * (1.0 / len);
      == 1.0;
    }
  }

  /** Normalising a unit vector changes nothing. */
  lemma UnitNormalized(k: Kernel, v: Vec3)
    requires k.SqrtSound() && v.Dot(v) == 1.0
    ensures k.Normalized(v) == v
  {
    var s := k.sqrt(1.0);
    assert s >= 0.0 && s * s == 1.0;
    assert (s - 1.0) * (s + 1.0) == s * s - 1.0;
    ProductZero(s - 1.0, s + 1.0);
  }

  /** Normalising twice is normalising once. */
  lemma NormalizedIdempotent(k: Kernel, v: Vec3)
    requires k.SqrtSound()
    ensures k.Normalized(k.Normalized(v)) == k.Normalized(v)
  {
    if v == Zero {
      LengthFacts(k, v);
    } else {
      NormalizedUnit(k, v);
      UnitNormalized(k, k.Normalized(v));
    }
  }
}
