/**
 * Rays (src/ray.rs): an origin `a` and a direction `b`, which need not be
 * normalised. The point at parameter `t` is `a + b * t`.
 */
module Rays {
  import opened VecMath

  datatype Ray = Ray(a: Vec3, b: Vec3) {

    static function New(v1: Vec3, v2: Vec3): Ray {
      Ray(v1, v2)
    }

    function Origin(): Vec3 { a }

    function Direction(): Vec3 { b }

    function PointAtParameter(t: real): Vec3 {
      a.Add(b.Scale(t))
    }
  }

  /** The accessors give back the vectors handed to `New`. */
  lemma AccessorsOfNew(v1: Vec3, v2: Vec3)
    ensures Ray.New(v1, v2).Origin() == v1
    ensures Ray.New(v1, v2).Direction() == v2
  {
  }

  /** Parameter 0 is the origin and parameter 1 is one direction away. */
  lemma PointAtZeroAndOne(r: Ray)
    ensures r.PointAtParameter(0.0) == r.Origin()
    ensures r.PointAtParameter(1.0) == r.Origin().Add(r.Direction())
  {
  }

  /** Moving `t` further along the ray adds `t` directions to the point. */
  lemma PointAtSum(r: Ray, s: real, t: real)
    ensures r.PointAtParameter(s + t) == r.PointAtParameter(s).Add(r.Direction().Scale(t))
  {
  }

  /** The offset of the point at `t` from the origin is `t` directions. */
  lemma PointAtOffset(r: Ray, t: real)
    ensures r.PointAtParameter(t).Sub(r.Origin()) == r.Direction().Scale(t)
  {
  }

  /**
   * The squared distance from `p` to the point at `t` is the quadratic
   * `a t^2 + 2 b t + c'` with `a = d.d`, `b = (o - p).d`, `c' = (o - p).(o - p)`.
   */
  lemma SquaredDistanceQuadratic(r: Ray, p: Vec3, t: real)
    ensures r.PointAtParameter(t).Sub(p).SquaredLength()
      == r.b.Dot(r.b) * t * t + 2.0 * r.a.Sub(p).Dot(r.b) * t + r.a.Sub(p).Dot(r.a.Sub(p))
  {
    var oc := r.a.Sub(p);
    var d := r.b;
    var q := Vec3(oc.e0 + d.e0 * t, oc.e1 + d.e1 * t, oc.e2 + d.e2 * t);
    assert r.PointAtParameter(t).Sub(p) == q;
    var tt := t * t;
    SquareOfAffine(oc.e0, d.e0, t, tt);
    SquareOfAffine(oc.e1, d.e1, t, tt);
    SquareOfAffine(oc.e2, d.e2, t, tt);
    var dd, od, oo := d.Dot(d), oc.Dot(d), oc.Dot(oc);
    SumOfScaled(d.e0 * d.e0, d.e1 * d.e1, d.e2 * d.e2, tt);
    SumOfScaled(oc.e0 * d.e0, oc.e1 * d.e1, oc.e2 * d.e2, 2.0 * t);
    assert q.SquaredLength() == dd * tt + od * (2.0 * t) + oo;
  }

  /** One coordinate of the point at `t`, squared, with `tt` standing for `t * t`. */
  lemma SquareOfAffine(o: real, d: real, t: real, tt: real)
    requires tt == t * t
    ensures (o + d * t) * (o + d * t) == (d * d) * tt + (o * d) * (2.0 * t) + o * o
  {
  }

  lemma SumOfScaled(x: real, y: real, z: real, k: real)
    ensures (x + y + z) * k == x * k + y * k + z * k
  {
  }
}
