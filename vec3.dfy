/**
 * Three-component vectors (src/vec3.rs), used alike as points, directions
 * and RGB colours. Every operation returns a fresh value; components are
 * exact reals rather than IEEE-754 doubles.
 *
 * The square root is not computable over `real`, so it is passed in as a
 * function `sqrt` and every member that needs it requires `IsSqrt(sqrt)`:
 * on non-negative inputs it returns the non-negative square root.
 */
module VecMath {

  /** `sqrt` behaves as the square root on every non-negative real. */
  ghost predicate IsSqrt(sqrt: real -> real) {
    forall x: real :: 0.0 <= x ==> 0.0 <= sqrt(x) && sqrt(x) * sqrt(x) == x
  }

  /** The square root of a positive number is positive. */
  lemma SqrtPositive(sqrt: real -> real, x: real)
    requires IsSqrt(sqrt) && 0.0 < x
    ensures 0.0 < sqrt(x)
  {
    assert 0.0 <= sqrt(x) && sqrt(x) * sqrt(x) == x;
  }

  lemma SquareMonotone(x: real, y: real)
    requires 0.0 <= x < y
    ensures x * x < y * y
  {
    var p, q, w := x * x, x * y, y * y;
    assert p <= q;
    assert q < w;
  }

  /** Two non-negative reals with equal squares are equal. */
  lemma SquareRootUnique(x: real, y: real)
    requires 0.0 <= x && 0.0 <= y && x * x == y * y
    ensures x == y
  {
    if x < y {
      SquareMonotone(x, y);
    } else if y < x {
      SquareMonotone(y, x);
    }
  }

  datatype Vec3 = Vec3(e0: real, e1: real, e2: real) {

    static function New(e0: real, e1: real, e2: real): Vec3 {
      Vec3(e0, e1, e2)
    }

    function X(): real { e0 }
    function Y(): real { e1 }
    function Z(): real { e2 }

    function R(): real { e0 }
    function G(): real { e1 }
    function B(): real { e2 }

    function SquaredLength(): real {
      e0 * e0 + e1 * e1 + e2 * e2
    }

    function Length(sqrt: real -> real): (l: real)
      requires IsSqrt(sqrt)
      ensures 0.0 <= l && l * l == SquaredLength()
    {
      SquaredLengthNonNegative(this);
      sqrt(e0 * e0 + e1 * e1 + e2 * e2)
    }

    /** Multiplies every component by the reciprocal of the length. */
    function MakeUnitVector(sqrt: real -> real): Vec3
      requires IsSqrt(sqrt) && SquaredLength() > 0.0
    {
      SqrtPositive(sqrt, SquaredLength());
      var k := 1.0 / Length(sqrt);
      New(e0 * k, e1 * k, e2 * k)
    }

    function Dot(rhs: Vec3): real {
      e0 * rhs.e0 + e1 * rhs.e1 + e2 * rhs.e2
    }

    static function Cross(v1: Vec3, v2: Vec3): Vec3 {
      New(
        v1.e1 * v2.e2 - v1.e2 * v2.e1,
        -(v1.e0 * v2.e2 - v1.e2 * v2.e0),
        v1.e0 * v2.e1 - v1.e1 * v2.e0
      )
    }

    /** Divides the vector by its length. */
    function UnitVector(sqrt: real -> real): Vec3
      requires IsSqrt(sqrt) && SquaredLength() > 0.0
    {
      SqrtPositive(sqrt, SquaredLength());
      DivScalar(Length(sqrt))
    }

    function Add(rhs: Vec3): Vec3 {
      New(e0 + rhs.e0, e1 + rhs.e1, e2 + rhs.e2)
    }

    function AddScalar(rhs: real): Vec3 {
      New(e0 + rhs, e1 + rhs, e2 + rhs)
    }

    function Sub(rhs: Vec3): Vec3 {
      New(e0 - rhs.e0, e1 - rhs.e1, e2 - rhs.e2)
    }

    function SubScalar(rhs: real): Vec3 {
      New(e0 - rhs, e1 - rhs, e2 - rhs)
    }

    /** Component-wise product. */
    function Mul(rhs: Vec3): Vec3 {
      New(e0 * rhs.e0, e1 * rhs.e1, e2 * rhs.e2)
    }

    /** Product with a scalar (`Mul<f64>`). */
    function Scale(rhs: real): Vec3 {
      New(e0 * rhs, e1 * rhs, e2 * rhs)
    }

    /** Component-wise quotient; a zero component of `rhs` is excluded. */
    function Div(rhs: Vec3): Vec3
      requires rhs.e0 != 0.0 && rhs.e1 != 0.0 && rhs.e2 != 0.0
    {
      New(e0 / rhs.e0, e1 / rhs.e1, e2 / rhs.e2)
    }

    /** Quotient by a scalar (`Div<f64>`); division by zero is excluded. */
    function DivScalar(rhs: real): Vec3
      requires rhs != 0.0
    {
      New(e0 / rhs, e1 / rhs, e2 / rhs)
    }
  }

  const Zero := Vec3(0.0, 0.0, 0.0)

  /** The accessors give back the components handed to `New`. */
  lemma AccessorsOfNew(a: real, b: real, c: real)
    ensures Vec3.New(a, b, c).X() == a && Vec3.New(a, b, c).R() == a
    ensures Vec3.New(a, b, c).Y() == b && Vec3.New(a, b, c).G() == b
    ensures Vec3.New(a, b, c).Z() == c && Vec3.New(a, b, c).B() == c
  {
  }

  lemma SquaredLengthNonNegative(v: Vec3)
    ensures v.SquaredLength() == v.Dot(v)
    ensures 0.0 <= v.SquaredLength()
  {
  }

  lemma DotCommutes(u: Vec3, v: Vec3)
    ensures u.Dot(v) == v.Dot(u)
  {
  }

  /** The dot product is linear in its left argument. */
  lemma DotLinear(u: Vec3, w: Vec3, s: real, v: Vec3)
    ensures u.Add(w).Dot(v) == u.Dot(v) + w.Dot(v)
    ensures u.Sub(w).Dot(v) == u.Dot(v) - w.Dot(v)
    ensures u.Scale(s).Dot(v) == s * u.Dot(v)
  {
  }

  /** The cross product is orthogonal to both of its factors. */
  lemma CrossOrthogonal(v1: Vec3, v2: Vec3)
    ensures Vec3.Cross(v1, v2).Dot(v1) == 0.0
    ensures Vec3.Cross(v1, v2).Dot(v2) == 0.0
  {
  }

  lemma CrossAntisymmetric(v1: Vec3, v2: Vec3)
    ensures Vec3.Cross(v1, v2) == Vec3.Cross(v2, v1).Scale(-1.0)
    ensures Vec3.Cross(v1, v1) == Zero
  {
  }

  /**
   * Lagrange's identity: the squared length of the cross product is the
   * gap in the Cauchy-Schwarz inequality.
   */
  lemma Lagrange(u: Vec3, v: Vec3)
    ensures u.Dot(u) * v.Dot(v) - u.Dot(v) * u.Dot(v) == Vec3.Cross(u, v).SquaredLength()
  {
    var a0, a1, a2 := u.e0, u.e1, u.e2;
    var b0, b1, b2 := v.e0, v.e1, v.e2;
    calc {
      u.Dot(u) * v.Dot(v) - u.Dot(v) * u.Dot(v);
      (a0 * a0 + a1 * a1 + a2 * a2) * (b0 * b0 + b1 * b1 + b2 * b2)
        - (a0 * b0 + a1 * b1 + a2 * b2) * (a0 * b0 + a1 * b1 + a2 * b2);
      (a1 * b2 - a2 * b1) * (a1 * b2 - a2 * b1)
        + (a0 * b2 - a2 * b0) * (a0 * b2 - a2 * b0)
        + (a0 * b1 - a1 * b0) * (a0 * b1 - a1 * b0);
      Vec3.Cross(u, v).SquaredLength();
    }
  }

  /** Cauchy-Schwarz: `(u.v)^2 <= (u.u)(v.v)`. */
  lemma CauchySchwarz(u: Vec3, v: Vec3)
    ensures u.Dot(v) * u.Dot(v) <= u.Dot(u) * v.Dot(v)
  {
    Lagrange(u, v);
  }

  /** The squared length of a difference: `|v - w|^2 = |v|^2 - 2 w.v + |w|^2`. */
  lemma SubSquaredLength(v: Vec3, w: Vec3)
    ensures v.Sub(w).SquaredLength() == v.SquaredLength() - 2.0 * w.Dot(v) + w.SquaredLength()
  {
    SquareOfDifference(v.e0, w.e0);
    SquareOfDifference(v.e1, w.e1);
    SquareOfDifference(v.e2, w.e2);
  }

  lemma SquareOfDifference(a: real, b: real)
    ensures (a - b) * (a - b) == a * a - 2.0 * (b * a) + b * b
  {
  }

  /** Adding then subtracting the same vector or scalar is the identity. */
  lemma AddSubCancel(v: Vec3, w: Vec3, s: real)
    ensures v.Add(w).Sub(w) == v
    ensures v.AddScalar(s).SubScalar(s) == v
  {
  }

  /** Component-wise division undoes component-wise multiplication. */
  lemma MulDivCancel(v: Vec3, w: Vec3, s: real)
    requires w.e0 != 0.0 && w.e1 != 0.0 && w.e2 != 0.0 && s != 0.0
    ensures v.Mul(w).Div(w) == v
    ensures v.Scale(s).DivScalar(s) == v
  {
  }

  /** Scaling by `s` scales the squared length by `s * s`. */
  lemma ScaleSquaredLength(v: Vec3, s: real)
    ensures v.Scale(s).SquaredLength() == s * s * v.SquaredLength()
  {
  }

  /**
   * For a non-zero vector the two normalisations agree, and the result has
   * squared length one.
   */
  lemma UnitVectorIsUnit(v: Vec3, sqrt: real -> real)
    requires IsSqrt(sqrt) && v.SquaredLength() > 0.0
    ensures v.MakeUnitVector(sqrt) == v.UnitVector(sqrt)
    ensures v.UnitVector(sqrt).SquaredLength() == 1.0
  {
    var l := v.Length(sqrt);
    SqrtPositive(sqrt, v.SquaredLength());
    var k := 1.0 / l;
    assert v.e0 * k == v.e0 / l && v.e1 * k == v.e1 / l && v.e2 * k == v.e2 / l;
    ScaleSquaredLength(v, k);
    assert v.UnitVector(sqrt) == v.Scale(k);
    assert k * k * (l * l) == 1.0;
  }
}
