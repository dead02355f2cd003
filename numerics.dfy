/** The part of System.Numerics the renderer uses: three-component vectors,
    here over exact reals. The single-precision square root is not a Dafny
    function, so it is passed around as a parameter `sqrt`; the lemmas that
    need its meaning ask for IsSqrt. */
module Numerics {

  datatype Vec3 = Vec3(x: real, y: real, z: real)
  {
    function Add(v: Vec3): Vec3 { Vec3(x + v.x, y + v.y, z + v.z) }

    function Sub(v: Vec3): Vec3 { Vec3(x - v.x, y - v.y, z - v.z) }

    /** Multiplication by a scalar, `k * v` */
    function Scale(k: real): Vec3 { Vec3(k * x, k * y, k * z) }

    /** Division by a scalar, `v / k` */
    function Div(k: real): Vec3
      requires k != 0.0
    {
      Vec3(x / k, y / k, z / k)
    }

    /** Component-wise product, `u * v` */
    function Mul(v: Vec3): Vec3 { Vec3(x * v.x, y * v.y, z * v.z) }

    function Dot(v: Vec3): real { x * v.x + y * v.y + z * v.z }

    function LengthSquared(): real { Dot(this) }
  }

  const Zero := Vec3(0.0, 0.0, 0.0)
  const One := Vec3(1.0, 1.0, 1.0)

  /** `sqrt` is the square root on the non-negative reals: zero at zero,
      and positive with square `x` at every positive `x`. */
  ghost predicate IsSqrt(sqrt: real -> real)
  {
    && sqrt(0.0) == 0.0
    && forall x :: 0.0 < x ==> 0.0 < sqrt(x) && sqrt(x) * sqrt(x) == x
  }

  lemma LengthSquaredNonNegative(v: Vec3)
    ensures 0.0 <= v.LengthSquared()
  {
    SumOfSquaresNonNegative(v.x, v.y, v.z);
  }

  lemma SumOfSquaresNonNegative(a: real, b: real, c: real)
    ensures 0.0 <= a * a + b * b + c * c
  {
  }

  /** Each squared component is at most the squared length. */
  lemma ComponentsBelowLength(v: Vec3)
    ensures v.x * v.x <= v.LengthSquared()
    ensures v.y * v.y <= v.LengthSquared()
    ensures v.z * v.z <= v.LengthSquared()
  {
    SumOfSquaresNonNegative(0.0, v.y, v.z);
    SumOfSquaresNonNegative(v.x, 0.0, v.z);
    SumOfSquaresNonNegative(v.x, v.y, 0.0);
  }

  /** Cauchy-Schwarz inequality in three dimensions. */
  lemma CauchySchwarz(u: Vec3, v: Vec3)
    ensures u.Dot(v) * u.Dot(v) <= u.LengthSquared() * v.LengthSquared()
  {
    LagrangeIdentity(u, v);
    LengthSquaredNonNegative(Cross(u, v));
  }

  function Cross(u: Vec3, v: Vec3): Vec3
  {
    Vec3(u.y * v.z - u.z * v.y, u.z * v.x - u.x * v.z, u.x * v.y - u.y * v.x)
  }

  /** Lagrange's identity, the algebra behind Cauchy-Schwarz. */
  lemma LagrangeIdentity(u: Vec3, v: Vec3)
    ensures u.LengthSquared() * v.LengthSquared() - u.Dot(v) * u.Dot(v) == Cross(u, v).LengthSquared()
  {
    var w := Cross(u, v);
    assert u.LengthSquared() == u.x * u.x + u.y * u.y + u.z * u.z;
    assert v.LengthSquared() == v.x * v.x + v.y * v.y + v.z * v.z;
    assert u.Dot(v) == u.x * v.x + u.y * v.y + u.z * v.z;
    assert w.LengthSquared() == w.x * w.x + w.y * w.y + w.z * w.z;
    Lagrange(u.x, u.y, u.z, v.x, v.y, v.z);
  }

  lemma Lagrange(a: real, b: real, c: real, p: real, q: real, r: real)
    ensures (a * a + b * b + c * c) * (p * p + q * q + r * r) - (a * p + b * q + c * r) * (a * p + b * q + c * r)
         == (b * r - c * q) * (b * r - c * q) + (c * p - a * r) * (c * p - a * r) + (a * q - b * p) * (a * q - b * p)
  {
  }

  /** `|o + t d|^2` expanded as a polynomial in `t`. */
  lemma LengthOfSumAlongRay(o: Vec3, d: Vec3, t: real)
    ensures o.Add(d.Scale(t)).LengthSquared()
         == o.LengthSquared() + 2.0 * t * o.Dot(d) + t * t * d.LengthSquared()
  {
    ExpandSquares(o.x, o.y, o.z, d.x, d.y, d.z, t);
  }

  lemma ExpandSquares(a: real, b: real, c: real, p: real, q: real, r: real, t: real)
    ensures (a + t * p) * (a + t * p) + (b + t * q) * (b + t * q) + (c + t * r) * (c + t * r)
         == (a * a + b * b + c * c) + 2.0 * t * (a * p + b * q + c * r) + t * t * (p * p + q * q + r * r)
  {
  }

  /** Dividing by `k` divides the squared length by `k * k`. */
  lemma LengthOfQuotient(v: Vec3, k: real, s: real)
    requires k != 0.0 && k * k == s
    ensures v.Div(k).LengthSquared() * s == v.LengthSquared()
  {
    QuotientSquare(v.x, k, s);
    QuotientSquare(v.y, k, s);
    QuotientSquare(v.z, k, s);
  }

  lemma QuotientSquare(a: real, k: real, s: real)
    requires k != 0.0 && k * k == s
    ensures (a / k) * (a / k) * s == a * a
  {
    var q := a / k;
    assert q * k == a;
    assert q * q * (k * k) == (q * k) * (q * k);
  }

  /** Vector3.Normalize: `v / |v|`. A vector of length 0 is returned
      unchanged (single precision gives NaN components there). */
  function Normalize(v: Vec3, sqrt: real -> real): (u: Vec3)
    ensures IsSqrt(sqrt) && 0.0 < v.LengthSquared() ==> u.LengthSquared() == 1.0
    ensures IsSqrt(sqrt) && !(0.0 < v.LengthSquared()) ==> u == v
    ensures IsSqrt(sqrt) && 0.0 < v.LengthSquared() ==> u.Scale(sqrt(v.LengthSquared())) == v
  {
    var len := sqrt(v.LengthSquared());
    NormalizeHasUnitLength(v, sqrt);
    ScaleUndoesDiv(v, len);
    if len == 0.0 then v else v.Div(len)
  }

  /** Scaling by `k` undoes division by `k`. */
  lemma ScaleUndoesDiv(v: Vec3, k: real)
    ensures k != 0.0 ==> v.Div(k).Scale(k) == v
  {
    if k != 0.0 {
      assert k * (v.x / k) == v.x && k * (v.y / k) == v.y && k * (v.z / k) == v.z;
    }
  }

  lemma NormalizeHasUnitLength(v: Vec3, sqrt: real -> real)
    ensures IsSqrt(sqrt) && 0.0 < v.LengthSquared() ==>
      0.0 < sqrt(v.LengthSquared()) && v.Div(sqrt(v.LengthSquared())).LengthSquared() == 1.0
    ensures IsSqrt(sqrt) && !(0.0 < v.LengthSquared()) ==> sqrt(v.LengthSquared()) == 0.0
  {
    if IsSqrt(sqrt) {
      var l2 := v.LengthSquared();
      var len := sqrt(l2);
      if 0.0 < l2 {
        assert len * len == l2;
        LengthOfQuotient(v, len, l2);
        UnitFromProduct(v.Div(len).LengthSquared(), len, l2);
      } else {
        LengthSquaredNonNegative(v);
      }
    }
  }

  lemma UnitFromProduct(p: real, k: real, s: real)
    requires 0.0 < s && k * k == s && p * s == s
    ensures p == 1.0
  {
  }

  /** Every component of a unit vector lies in [-1, 1]. */
  lemma UnitComponentsBounded(u: Vec3)
    requires u.LengthSquared() == 1.0
    ensures -1.0 <= u.x <= 1.0 && -1.0 <= u.y <= 1.0 && -1.0 <= u.z <= 1.0
  {
    ComponentsBelowLength(u);
    SquareAtMostOne(u.x);
    SquareAtMostOne(u.y);
    SquareAtMostOne(u.z);
  }

  lemma SquareAtMostOne(a: real)
    requires a * a <= 1.0
    ensures -1.0 <= a <= 1.0
  {
  }

  /** Vector3.Reflect: mirror `d` in the plane with normal `n`. */
  function Reflect(d: Vec3, n: Vec3): Vec3
  {
    d.Sub(n.Scale(2.0 * d.Dot(n)))
  }

  /** For a unit normal, reflection negates the component along the normal. */
  lemma ReflectFlipsNormalComponent(d: Vec3, n: Vec3)
    requires n.LengthSquared() == 1.0
    ensures Reflect(d, n).Dot(n) == -d.Dot(n)
  {
    var k := d.Dot(n);
    var r := Reflect(d, n);
    calc {
      r.Dot(n);
      (d.x - 2.0 * k * n.x) * n.x + (d.y - 2.0 * k * n.y) * n.y + (d.z - 2.0 * k * n.z) * n.z;
      k - 2.0 * k * (n.x * n.x + n.y * n.y + n.z * n.z);
      k - 2.0 * k * 1.0;
    }
  }

  /** For a unit normal, reflecting twice gives back the original vector. */
  lemma ReflectIsInvolution(d: Vec3, n: Vec3)
    requires n.LengthSquared() == 1.0
    ensures Reflect(Reflect(d, n), n) == d
  {
    var r := Reflect(d, n);
    ReflectFlipsNormalComponent(d, n);
    assert r.Dot(n) == -d.Dot(n);
    assert Reflect(r, n) == r.Sub(n.Scale(-2.0 * d.Dot(n)));
  }
}
