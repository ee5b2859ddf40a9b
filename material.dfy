/**
 * Materials (src/material.rs) and the hit record they read
 * (src/hittable.rs). The open `Material` trait becomes a closed datatype
 * with the two variants the source defines, and a hit record holds its
 * material by value instead of borrowing it from the sphere.
 *
 * `random_in_unit_sphere` is not part of this model: each scatter takes
 * its random sample as the parameter `sample`, which makes scattering a
 * pure function.
 */
module Materials {
  import opened VecMath
  import opened Rays

  datatype Material =
    | Lambertian(albedo: Vec3)
    | Metal(albedo: Vec3, fuzz: real)
  {
    /**
     * Attenuation, scattered ray and whether the ray scatters at all.
     * A metal normalises the incoming direction, so that direction must
     * not be zero.
     */
    function Scatter(rIn: Ray, rec: HitRecord, sample: Vec3, sqrt: real -> real): (s: ScatterResult)
      requires IsSqrt(sqrt)
      requires Metal? ==> rIn.Direction().SquaredLength() > 0.0
      ensures s.attenuation == albedo
      ensures s.scattered.Origin() == rec.p
    {
      match this
      case Lambertian(albedo) =>
        var target := rec.p.Add(rec.normal).Add(sample);
        var scattered := Ray.New(rec.p, target.Sub(rec.p));
        ScatterResult(albedo, scattered, true)
      case Metal(albedo, fuzz) =>
        var reflected := Reflect(rIn.Direction().UnitVector(sqrt), rec.normal);
        var scattered := Ray.New(rec.p, reflected.Add(sample.Scale(fuzz)));
        ScatterResult(albedo, scattered, scattered.Direction().Dot(rec.normal) > 0.0)
    }
  }

  /** What a material makes of an incoming ray: `(attenuation, scattered, scatter)`. */
  datatype ScatterResult = ScatterResult(attenuation: Vec3, scattered: Ray, didScatter: bool)

  /** Where a ray met a surface: parameter, point, normal and the surface's material. */
  datatype HitRecord = HitRecord(t: real, p: Vec3, normal: Vec3, material: Material)

  function NewLambertian(x: real, y: real, z: real): (m: Material)
    ensures m.Lambertian? && m.albedo == Vec3.New(x, y, z)
  {
    Lambertian(Vec3.New(x, y, z))
  }

  /** A metal's fuzz is clamped so that it never exceeds 1. */
  function NewMetal(x: real, y: real, z: real, f: real): (m: Material)
    ensures m.Metal? && m.albedo == Vec3.New(x, y, z)
    ensures m.fuzz <= 1.0
    ensures f < 1.0 ==> m.fuzz == f
    ensures m.fuzz == f || m.fuzz == 1.0
  {
    var fuzz := if f < 1.0 then f else 1.0;
    Metal(Vec3.New(x, y, z), fuzz)
  }

  /** Mirror reflection of `v` about the normal `n`: `v - 2 (v.n) n`. */
  function Reflect(v: Vec3, n: Vec3): Vec3 {
    v.Sub(n.Scale(v.Dot(n)).Scale(2.0))
  }

  /** Reflection negates the component along a unit normal. */
  lemma ReflectFlipsNormalComponent(v: Vec3, n: Vec3)
    requires n.SquaredLength() == 1.0
    ensures Reflect(v, n).Dot(n) == -v.Dot(n)
  {
    var k := v.Dot(n);
    DotLinear(v, n.Scale(k).Scale(2.0), 0.0, n);
    DotLinear(n.Scale(k), n, 2.0, n);
    DotLinear(n, n, k, n);
    SquaredLengthNonNegative(n);
  }

  /** Reflection about a unit normal preserves squared length. */
  lemma ReflectPreservesLength(v: Vec3, n: Vec3)
    requires n.SquaredLength() == 1.0
    ensures Reflect(v, n).SquaredLength() == v.SquaredLength()
  {
    var k := v.Dot(n);
    var c := 2.0 * k;
    var w := n.Scale(c);
    assert Reflect(v, n) == v.Sub(w);
    SubSquaredLength(v, w);
    DotLinear(n, n, c, v);
    DotCommutes(n, v);
    ScaleSquaredLength(n, c);
    // |v - w|^2 = |v|^2 - 2 c k + c^2, and c^2 = 2 c k because c = 2 k
    assert w.Dot(v) == c * k;
    assert w.SquaredLength() == c * c;
    assert c * c == 2.0 * (c * k);
  }

  /** Reflecting twice about the same unit normal gives back the vector. */
  lemma ReflectInvolution(v: Vec3, n: Vec3)
    requires n.SquaredLength() == 1.0
    ensures Reflect(Reflect(v, n), n) == v
  {
    ReflectFlipsNormalComponent(v, n);
  }

  /**
   * A Lambertian surface always scatters, with attenuation `albedo`, from
   * the hit point towards `normal + sample`.
   */
  lemma LambertianScatter(m: Material, rIn: Ray, rec: HitRecord, sample: Vec3, sqrt: real -> real)
    requires IsSqrt(sqrt) && m.Lambertian?
    ensures m.Scatter(rIn, rec, sample, sqrt).didScatter
    ensures m.Scatter(rIn, rec, sample, sqrt).attenuation == m.albedo
    ensures m.Scatter(rIn, rec, sample, sqrt).scattered == Ray(rec.p, rec.normal.Add(sample))
  {
  }

  /**
   * A metal scatters exactly when the scattered direction leaves on the
   * side the normal points to.
   */
  lemma MetalScatterFlag(m: Material, rIn: Ray, rec: HitRecord, sample: Vec3, sqrt: real -> real)
    requires IsSqrt(sqrt) && m.Metal? && rIn.Direction().SquaredLength() > 0.0
    ensures var s := m.Scatter(rIn, rec, sample, sqrt);
      s.didScatter <==> s.scattered.Direction().Dot(rec.normal) > 0.0
  {
  }

  /**
   * With no fuzz, a metal is a perfect mirror: the scattered direction is the
   * reflection of the normalised incoming direction, and for a unit normal
   * the ray scatters exactly when it arrives against the normal.
   */
  lemma PerfectMirror(m: Material, rIn: Ray, rec: HitRecord, sample: Vec3, sqrt: real -> real)
    requires IsSqrt(sqrt) && m.Metal? && m.fuzz == 0.0
    requires rIn.Direction().SquaredLength() > 0.0
    ensures m.Scatter(rIn, rec, sample, sqrt).scattered.Direction()
      == Reflect(rIn.Direction().UnitVector(sqrt), rec.normal)
    ensures rec.normal.SquaredLength() == 1.0 ==>
      (m.Scatter(rIn, rec, sample, sqrt).didScatter <==> rIn.Direction().Dot(rec.normal) < 0.0)
  {
    var d := rIn.Direction();
    var u := d.UnitVector(sqrt);
    var l := d.Length(sqrt);
    SqrtPositive(sqrt, d.SquaredLength());
    assert u == d.Scale(1.0 / l);
    if rec.normal.SquaredLength() == 1.0 {
      ReflectFlipsNormalComponent(u, rec.normal);
      DotLinear(d, d, 1.0 / l, rec.normal);
      assert u.Dot(rec.normal) == (1.0 / l) * d.Dot(rec.normal);
    }
  }
}
