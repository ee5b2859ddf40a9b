/**
 * Spheres (src/sphere.rs). Substituting the ray `o + t d` into
 * `|p - center|^2 == radius^2` gives the quadratic `a t^2 + 2 b t + c == 0`
 * with `a = d.d`, the half coefficient `b = (o - center).d` and
 * `c = (o - center).(o - center) - radius^2`. A hit is reported only for a
 * positive discriminant `b^2 - a c`; the smaller root is tried first and
 * then the larger one, each against the open window `(tMin, tMax)`.
 */
module Spheres {
  import opened VecMath
  import opened Rays
  import opened Materials
  import opened Options

  datatype Sphere = Sphere(center: Vec3, radius: real, material: Material)

  function NewSphere(x: real, y: real, z: real, r: real, m: Material): (s: Sphere)
    ensures s.center == Vec3.New(x, y, z) && s.radius == r && s.material == m
  {
    Sphere(Vec3.New(x, y, z), r, m)
  }

  /** The intersection of `r` with `s` nearest inside `(tMin, tMax)`, if any. */
  function Hit(s: Sphere, r: Ray, tMin: real, tMax: real, sqrt: real -> real): (h: Option<HitRecord>)
    requires IsSqrt(sqrt)
    ensures h.Some? ==> tMin < h.value.t < tMax
    ensures h.Some? ==> s.radius != 0.0 && h == GetHitRecord(s, h.value.t, r)
  {
    var a := CoefA(r);
    var b := HalfB(s, r);
    var c := CoefC(s, r);
    var discriminant := b * b - a * c;
    if discriminant > 0.0 then
      PositiveDiscriminant(s, r);
      var temp := (-b - sqrt(b * b - a * c)) / a;
      if temp < tMax && temp > tMin then
        GetHitRecord(s, temp, r)
      else
        var temp := (-b + sqrt(b * b - a * c)) / a;
        if temp < tMax && temp > tMin then
          GetHitRecord(s, temp, r)
        else
          None
    else
      None
  }

  /**
   * The record of a hit at `t`: the point on the ray, the normal from the
   * centre through that point divided by the radius, and the sphere's own
   * material. It is always present.
   */
  function GetHitRecord(s: Sphere, t: real, r: Ray): (h: Option<HitRecord>)
    requires s.radius != 0.0
    ensures h.Some? && h.value.t == t && h.value.material == s.material
    ensures h.value.p == r.PointAtParameter(t)
    ensures h.value.normal.Scale(s.radius) == h.value.p.Sub(s.center)
  {
    var pap := r.PointAtParameter(t);
    var rec := HitRecord(t, pap, pap.Sub(s.center).DivScalar(s.radius), s.material);
    Some(rec)
  }

  // ---------------------------------------------------------------------
  // The quadratic, its discriminant and its roots

  /** `a = d.d` for the ray's direction `d`. */
  function CoefA(r: Ray): real {
    r.Direction().Dot(r.Direction())
  }

  /** The half coefficient `b = oc.d` with `oc = origin - center`. */
  function HalfB(s: Sphere, r: Ray): real {
    var oc := r.Origin().Sub(s.center);
    oc.Dot(r.Direction())
  }

  /** `c = oc.oc - radius^2`. */
  function CoefC(s: Sphere, r: Ray): real {
    var oc := r.Origin().Sub(s.center);
    oc.Dot(oc) - s.radius * s.radius
  }

  ghost function Discriminant(s: Sphere, r: Ray): real {
    HalfB(s, r) * HalfB(s, r) - CoefA(r) * CoefC(s, r)
  }

  /** The point at `t` lies on the sphere's surface. */
  ghost predicate OnSphere(s: Sphere, r: Ray, t: real) {
    r.PointAtParameter(t).Sub(s.center).SquaredLength() == s.radius * s.radius
  }

  ghost function SmallerRoot(s: Sphere, r: Ray, sqrt: real -> real): real
    requires IsSqrt(sqrt) && Discriminant(s, r) > 0.0
  {
    PositiveDiscriminant(s, r);
    var a, b, c := CoefA(r), HalfB(s, r), CoefC(s, r);
    (-b - sqrt(b * b - a * c)) / a
  }

  ghost function LargerRoot(s: Sphere, r: Ray, sqrt: real -> real): real
    requires IsSqrt(sqrt) && Discriminant(s, r) > 0.0
  {
    PositiveDiscriminant(s, r);
    var a, b, c := CoefA(r), HalfB(s, r), CoefC(s, r);
    (-b + sqrt(b * b - a * c)) / a
  }

  /**
   * A positive discriminant needs a non-zero direction and a non-zero
   * radius (by Cauchy-Schwarz `b^2 <= a (c + radius^2)`), so the divisions
   * in `Hit` and `GetHitRecord` are defined whenever they are reached.
   */
  lemma PositiveDiscriminant(s: Sphere, r: Ray)
    requires Discriminant(s, r) > 0.0
    ensures CoefA(r) > 0.0 && s.radius != 0.0
  {
    var oc, d := r.Origin().Sub(s.center), r.Direction();
    var a, b, c0, rr := d.Dot(d), oc.Dot(d), oc.Dot(oc), s.radius * s.radius;
    CauchySchwarz(oc, d);
    DotCommutes(oc, d);
    SquaredLengthNonNegative(d);
    assert b * b <= c0 * a;
    assert a * (c0 - rr) == a * c0 - a * rr;
    assert a * rr > 0.0;
  }

  /** On the ray, the surface equation is the quadratic `a t^2 + 2 b t + c == 0`. */
  lemma OnSphereQuadratic(s: Sphere, r: Ray, t: real)
    ensures OnSphere(s, r, t)
      <==> CoefA(r) * t * t + 2.0 * HalfB(s, r) * t + CoefC(s, r) == 0.0
  {
    SquaredDistanceQuadratic(r, s.center, t);
  }

  /** `a t^2 + 2 b t + c` factors as `a (t - t1) (t - t2)` over the two roots. */
  lemma Factor(a: real, b: real, c: real, sd: real, t: real)
    requires a != 0.0 && sd * sd == b * b - a * c
    ensures a * t * t + 2.0 * b * t + c == a * (t - (-b - sd) / a) * (t - (-b + sd) / a)
  {
    var t1, t2 := (-b - sd) / a, (-b + sd) / a;
    assert a * t1 == -b - sd;
    assert a * t2 == -b + sd;
    assert a * t1 * t2 == c by {
      assert (a * t1) * (a * t2) == b * b - sd * sd;
      assert (a * t1) * (a * t2) == a * (a * t1 * t2);
    }
    calc {
      a * (t - t1) * (t - t2);
      a * t * t - (a * t1 + a * t2) * t + a * t1 * t2;
      a * t * t + 2.0 * b * t + c;
    }
  }

  /** A product of two non-zero reals is non-zero. */
  lemma ProductNonZero(x: real, y: real)
    requires x != 0.0 && y != 0.0
    ensures x * y != 0.0
  {
  }

  lemma SquareNonNegative(x: real)
    ensures 0.0 <= x * x
  {
  }

  /** With a positive discriminant the quadratic's only zeros are its two roots. */
  lemma QuadraticRoots(a: real, b: real, c: real, sd: real, t: real)
    requires a != 0.0 && 0.0 < sd && sd * sd == b * b - a * c
    ensures a * t * t + 2.0 * b * t + c == 0.0 <==> t == (-b - sd) / a || t == (-b + sd) / a
  {
    var t1, t2 := (-b - sd) / a, (-b + sd) / a;
    Factor(a, b, c, sd, t);
    if t != t1 && t != t2 {
      ProductNonZero(t - t1, t - t2);
      ProductNonZero(a, (t - t1) * (t - t2));
      assert a * (t - t1) * (t - t2) == a * ((t - t1) * (t - t2));
    }
  }

  lemma RootsOrdered(a: real, b: real, sd: real)
    requires 0.0 < a && 0.0 < sd
    ensures (-b - sd) / a < (-b + sd) / a
  {
    assert -b - sd < -b + sd;
  }

  /** With a negative discriminant the quadratic has no zero. */
  lemma NoQuadraticRoot(a: real, b: real, c: real, t: real)
    requires 0.0 <= a && b * b - a * c < 0.0
    ensures a * t * t + 2.0 * b * t + c != 0.0
  {
    if a == 0.0 {
      SquareNonNegative(b);
    } else {
      var q := a * t * t + 2.0 * b * t + c;
      var u := a * t + b;
      assert a * q == u * u + (a * c - b * b);
      SquareNonNegative(u);
      ProductNonZero(a, q);
    }
  }

  /**
   * For a positive discriminant the two roots lie on the sphere, the smaller
   * is strictly below the larger, and no other parameter lies on the sphere.
   */
  lemma Roots(s: Sphere, r: Ray, sqrt: real -> real, t: real)
    requires IsSqrt(sqrt) && Discriminant(s, r) > 0.0
    ensures OnSphere(s, r, SmallerRoot(s, r, sqrt)) && OnSphere(s, r, LargerRoot(s, r, sqrt))
    ensures SmallerRoot(s, r, sqrt) < LargerRoot(s, r, sqrt)
    ensures OnSphere(s, r, t) <==> t == SmallerRoot(s, r, sqrt) || t == LargerRoot(s, r, sqrt)
  {
    PositiveDiscriminant(s, r);
    var a, b, c := CoefA(r), HalfB(s, r), CoefC(s, r);
    var sd := sqrt(Discriminant(s, r));
    SqrtPositive(sqrt, Discriminant(s, r));
    var t1, t2 := (-b - sd) / a, (-b + sd) / a;
    RootsOrdered(a, b, sd);
    QuadraticRoots(a, b, c, sd, t1);
    QuadraticRoots(a, b, c, sd, t2);
    QuadraticRoots(a, b, c, sd, t);
    OnSphereQuadratic(s, r, t1);
    OnSphereQuadratic(s, r, t2);
    OnSphereQuadratic(s, r, t);
  }

  /** With a negative discriminant the ray never meets the sphere. */
  lemma NoRoots(s: Sphere, r: Ray, t: real)
    requires Discriminant(s, r) < 0.0
    ensures !OnSphere(s, r, t)
  {
    SquaredLengthNonNegative(r.Direction());
    NoQuadraticRoot(CoefA(r), HalfB(s, r), CoefC(s, r), t);
    OnSphereQuadratic(s, r, t);
  }

  // ---------------------------------------------------------------------
  // What `Hit` promises

  /**
   * For a ray that is not tangent, `Hit` reports a hit exactly when some
   * point of the surface lies strictly inside the window, and the reported
   * point is then on the surface.
   */
  lemma HitIffSurfaceInWindow(s: Sphere, r: Ray, tMin: real, tMax: real, sqrt: real -> real)
    requires IsSqrt(sqrt) && Discriminant(s, r) != 0.0
    ensures Hit(s, r, tMin, tMax, sqrt).Some? <==> exists t :: tMin < t < tMax && OnSphere(s, r, t)
  {
    var h := Hit(s, r, tMin, tMax, sqrt);
    HitIsNearestRoot(s, r, tMin, tMax, sqrt);
    if h.Some? {
      assert tMin < h.value.t < tMax && OnSphere(s, r, h.value.t);
    }
  }

  /** A tangent ray (zero discriminant) or a ray that misses never hits. */
  lemma TangentMisses(s: Sphere, r: Ray, tMin: real, tMax: real, sqrt: real -> real)
    requires IsSqrt(sqrt) && Discriminant(s, r) <= 0.0
    ensures Hit(s, r, tMin, tMax, sqrt) == None
  {
  }

  /** When the smaller root is inside the window, it is the one reported. */
  lemma SmallerRootPreferred(s: Sphere, r: Ray, tMin: real, tMax: real, sqrt: real -> real)
    requires IsSqrt(sqrt) && Discriminant(s, r) > 0.0
    requires tMin < SmallerRoot(s, r, sqrt) < tMax
    ensures s.radius != 0.0
    ensures Hit(s, r, tMin, tMax, sqrt) == GetHitRecord(s, SmallerRoot(s, r, sqrt), r)
  {
    PositiveDiscriminant(s, r);
  }

  /**
   * A reported hit is one of the two roots, and it is the larger root only
   * when the smaller one lies outside the window.
   */
  lemma HitChoosesRoot(s: Sphere, r: Ray, tMin: real, tMax: real, sqrt: real -> real)
    requires IsSqrt(sqrt) && Hit(s, r, tMin, tMax, sqrt).Some?
    ensures Discriminant(s, r) > 0.0
    ensures var t := Hit(s, r, tMin, tMax, sqrt).value.t;
      t == SmallerRoot(s, r, sqrt)
      || (t == LargerRoot(s, r, sqrt) && !(tMin < SmallerRoot(s, r, sqrt) < tMax))
  {
  }

  /**
   * `Hit` reports the nearest point of the surface strictly inside the
   * window. When it reports nothing and the ray is not tangent, no point of
   * the surface lies inside the window.
   */
  lemma HitIsNearestRoot(s: Sphere, r: Ray, tMin: real, tMax: real, sqrt: real -> real)
    requires IsSqrt(sqrt)
    ensures var h := Hit(s, r, tMin, tMax, sqrt);
      h.Some? ==>
        (OnSphere(s, r, h.value.t) && forall t :: tMin < t < h.value.t ==> !OnSphere(s, r, t))
    ensures var h := Hit(s, r, tMin, tMax, sqrt);
      h.None? && Discriminant(s, r) != 0.0 ==>
        forall t :: tMin < t < tMax ==> !OnSphere(s, r, t)
  {
    var h := Hit(s, r, tMin, tMax, sqrt);
    if Discriminant(s, r) > 0.0 {
      Roots(s, r, sqrt, 0.0);
      forall t | tMin < t < tMax && OnSphere(s, r, t)
        ensures h.Some? && h.value.t <= t
      {
        Roots(s, r, sqrt, t);
      }
    } else if Discriminant(s, r) < 0.0 {
      forall t ensures !OnSphere(s, r, t) {
        NoRoots(s, r, t);
      }
    }
  }

  /**
   * A reported record carries the point on the ray, the sphere's material
   * and a normal of unit length pointing from the centre to the point.
   */
  lemma HitRecordIsUnitNormal(s: Sphere, r: Ray, tMin: real, tMax: real, sqrt: real -> real)
    requires IsSqrt(sqrt) && Hit(s, r, tMin, tMax, sqrt).Some?
    ensures var h := Hit(s, r, tMin, tMax, sqrt).value;
      h.p == r.PointAtParameter(h.t) && h.material == s.material
      && h.normal == h.p.Sub(s.center).Scale(1.0 / s.radius)
      && h.normal.SquaredLength() == 1.0
  {
    var t := Hit(s, r, tMin, tMax, sqrt).value.t;
    HitIsNearestRoot(s, r, tMin, tMax, sqrt);
    SurfaceRecord(s, r, t);
  }

  /** The record built for a point on the surface has a unit normal. */
  lemma SurfaceRecord(s: Sphere, r: Ray, t: real)
    requires s.radius != 0.0 && OnSphere(s, r, t)
    ensures var h := GetHitRecord(s, t, r).value;
      h.normal == h.p.Sub(s.center).Scale(1.0 / s.radius)
      && h.normal.SquaredLength() == 1.0
  {
    var h := GetHitRecord(s, t, r).value;
    var k := 1.0 / s.radius;
    var q := h.p.Sub(s.center);
    assert h.normal == q.Scale(k);
    ScaleSquaredLength(q, k);
    ReciprocalSquare(s.radius);
  }

  lemma ReciprocalSquare(x: real)
    requires x != 0.0
    ensures (1.0 / x) * (1.0 / x) * (x * x) == 1.0
  {
    var k := 1.0 / x;
    assert k * x == 1.0;
    assert k * k * (x * x) == (k * x) * (k * x);
  }

  /**
   * Lowering the window's upper bound to `c` keeps a hit below `c` and drops
   * any other: the nearest-hit scan relies on this.
   */
  lemma HitShrink(s: Sphere, r: Ray, tMin: real, tMax: real, c: real, sqrt: real -> real)
    requires IsSqrt(sqrt) && c <= tMax
    ensures var full := Hit(s, r, tMin, tMax, sqrt);
      Hit(s, r, tMin, c, sqrt) == if full.Some? && full.value.t < c then full else None
  {
    if Discriminant(s, r) > 0.0 {
      Roots(s, r, sqrt, 0.0);
    }
  }

  /**
   * A sphere of radius 0.5 centred at `(0, 0, -1)`, looked at from the
   * origin straight down `-z`: the nearest hit is at `t = 0.5`, on the point
   * `(0, 0, -0.5)` with normal `(0, 0, 1)` facing the eye.
   */
  lemma CentreRayHitsFront(m: Material, tMax: real, sqrt: real -> real)
    requires IsSqrt(sqrt) && 0.5 < tMax
    ensures Hit(Sphere(Vec3(0.0, 0.0, -1.0), 0.5, m), Ray(Vec3(0.0, 0.0, 0.0), Vec3(0.0, 0.0, -1.0)), 0.001, tMax, sqrt)
      == Some(HitRecord(0.5, Vec3(0.0, 0.0, -0.5), Vec3(0.0, 0.0, 1.0), m))
  {
    var s := Sphere(Vec3(0.0, 0.0, -1.0), 0.5, m);
    var r := Ray(Vec3(0.0, 0.0, 0.0), Vec3(0.0, 0.0, -1.0));
    CentreRaySmallerRoot(s, r, sqrt);
    SmallerRootPreferred(s, r, 0.001, tMax, sqrt);
    CentreRayRecord(s, r);
  }

  lemma CentreRaySmallerRoot(s: Sphere, r: Ray, sqrt: real -> real)
    requires IsSqrt(sqrt)
    requires s.center == Vec3(0.0, 0.0, -1.0) && s.radius == 0.5
    requires r == Ray(Vec3(0.0, 0.0, 0.0), Vec3(0.0, 0.0, -1.0))
    ensures Discriminant(s, r) > 0.0 && SmallerRoot(s, r, sqrt) == 0.5
  {
    CentreRayCoefficients(s, r);
    SqrtOfQuarter(sqrt);
  }

  lemma CentreRayCoefficients(s: Sphere, r: Ray)
    requires s.center == Vec3(0.0, 0.0, -1.0) && s.radius == 0.5
    requires r == Ray(Vec3(0.0, 0.0, 0.0), Vec3(0.0, 0.0, -1.0))
    ensures CoefA(r) == 1.0 && HalfB(s, r) == -1.0 && CoefC(s, r) == 0.75
    ensures Discriminant(s, r) == 0.25
  {
    assert r.Origin().Sub(s.center) == Vec3(0.0, 0.0, 1.0);
    assert r.Direction() == Vec3(0.0, 0.0, -1.0);
  }

  lemma CentreRayRecord(s: Sphere, r: Ray)
    requires s.center == Vec3(0.0, 0.0, -1.0) && s.radius == 0.5
    requires r == Ray(Vec3(0.0, 0.0, 0.0), Vec3(0.0, 0.0, -1.0))
    ensures GetHitRecord(s, 0.5, r) == Some(HitRecord(0.5, Vec3(0.0, 0.0, -0.5), Vec3(0.0, 0.0, 1.0), s.material))
  {
    var p := r.PointAtParameter(0.5);
    assert p == Vec3(0.0, 0.0, -0.5);
    assert p.Sub(s.center) == Vec3(0.0, 0.0, 0.5);
  }

  lemma SqrtOfQuarter(sqrt: real -> real)
    requires IsSqrt(sqrt)
    ensures sqrt(0.25) == 0.5
  {
    SquareRootUnique(sqrt(0.25), 0.5);
  }
}
