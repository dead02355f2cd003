/** Sphere and its ray intersection test. */
module Spheres {
  import opened Wrappers
  import opened Numerics
  import opened Rays
  import opened Materials

  datatype Sphere = Sphere(center: Vec3, radius: real, material: Material)

  /** `a t^2 + 2 b t + c`, the quadratic whose roots are the parameters at
      which a ray meets a sphere. */
  datatype Quadratic = Quadratic(a: real, b: real, c: real)
  {
    function Discriminant(): real { b * b - a * c }

    function At(t: real): real { a * t * t + 2.0 * b * t + c }
  }

  /** `a = d.d`, `b = oc.d`, `c = oc.oc - radius^2` with `oc = origin - center`.
      By Cauchy-Schwarz the discriminant is at most `a * radius^2`. */
  function Coefficients(s: Sphere, r: Ray): (q: Quadratic)
    ensures 0.0 <= q.a
    ensures q.Discriminant() <= q.a * (s.radius * s.radius)
  {
    var oc := r.origin.Sub(s.center);
    var a, b, l := r.direction.Dot(r.direction), oc.Dot(r.direction), oc.Dot(oc);
    LengthSquaredNonNegative(r.direction);
    CauchySchwarz(oc, r.direction);
    DiscriminantAtMost(a, b, l, s.radius * s.radius);
    Quadratic(a, b, l - s.radius * s.radius)
  }

  lemma DiscriminantAtMost(a: real, b: real, l: real, rr: real)
    requires b * b <= l * a
    ensures b * b - a * (l - rr) <= a * rr
  {
    assert a * (l - rr) == l * a - a * rr;
  }

  /** The quadratic measures how far the point at `t` is off the surface. */
  lemma CoefficientsMeasureDistance(s: Sphere, r: Ray, t: real)
    ensures Coefficients(s, r).At(t)
         == r.PointAtParameter(t).Sub(s.center).LengthSquared() - s.radius * s.radius
  {
    var oc, d := r.origin.Sub(s.center), r.direction;
    OffsetAlongRay(s, r, t);
    CoefficientsOf(s, r);
    DistanceAlongRay(oc, d, t, s.radius * s.radius);
  }

  lemma OffsetAlongRay(s: Sphere, r: Ray, t: real)
    ensures r.PointAtParameter(t).Sub(s.center) == r.origin.Sub(s.center).Add(r.direction.Scale(t))
  {
  }

  lemma CoefficientsOf(s: Sphere, r: Ray)
    ensures var oc := r.origin.Sub(s.center);
      Coefficients(s, r) == Quadratic(r.direction.LengthSquared(), oc.Dot(r.direction), oc.LengthSquared() - s.radius * s.radius)
  {
  }

  /** `|o + t d|^2 - rr` as the quadratic in `t` with coefficients
      `d.d`, `o.d` and `o.o - rr`. */
  lemma DistanceAlongRay(o: Vec3, d: Vec3, t: real, rr: real)
    ensures o.Add(d.Scale(t)).LengthSquared() - rr
         == Quadratic(d.LengthSquared(), o.Dot(d), o.LengthSquared() - rr).At(t)
  {
    LengthOfSumAlongRay(o, d, t);
    Rearrange(d.LengthSquared(), o.Dot(d), o.LengthSquared(), rr, t);
  }

  lemma Rearrange(a: real, b: real, l: real, rr: real, t: real)
    ensures a * t * t + 2.0 * b * t + (l - rr) == (l + 2.0 * t * b + t * t * a) - rr
  {
  }

  /** A positive discriminant forces a proper direction and a non-zero radius,
      so the divisions by `a` and by the radius are defined. */
  lemma PositiveDiscriminant(s: Sphere, r: Ray)
    requires 0.0 < Coefficients(s, r).Discriminant()
    ensures 0.0 < Coefficients(s, r).a
    ensures s.radius < 0.0 || 0.0 < s.radius
  {
    var q := Coefficients(s, r);
    PositiveProduct(q.a, s.radius);
  }

  lemma PositiveProduct(a: real, k: real)
    requires 0.0 <= a && 0.0 < a * (k * k)
    ensures 0.0 < a && (k < 0.0 || 0.0 < k)
  {
  }

  /** `(-b - sqrt(disc)) / a` */
  function NearRoot(q: Quadratic, sqrt: real -> real): real
    requires 0.0 < q.a
  {
    (-q.b - sqrt(q.Discriminant())) / q.a
  }

  /** `(-b + sqrt(disc)) / a` */
  function FarRoot(q: Quadratic, sqrt: real -> real): real
    requires 0.0 < q.a
  {
    (-q.b + sqrt(q.Discriminant())) / q.a
  }

  /** The record of a hit at `t`. */
  function Record(s: Sphere, r: Ray, t: real): (rec: HitRecord)
    requires s.radius != 0.0
  {
    var position := r.PointAtParameter(t);
    HitRecord(t, position, position.Sub(s.center).Div(s.radius), Some(s.material))
  }

  /** Sphere.Hit: the near root if it lies strictly inside (tMin, tMax),
      otherwise the far root if it does, otherwise a miss (None, which the
      source reports as false with HitRecord.Empty). */
  function Hit(s: Sphere, r: Ray, tMin: real, tMax: real, sqrt: real -> real): (rec: Option<HitRecord>)
    ensures rec.Some? ==> tMin < rec.value.t < tMax
    ensures rec.Some? ==> rec.value.material == Some(s.material)
    ensures rec.Some? ==> rec.value.position == r.PointAtParameter(rec.value.t)
    ensures rec.Some? ==> s.radius != 0.0 && rec.value.normal == rec.value.position.Sub(s.center).Div(s.radius)
    ensures rec.Some? ==> 0.0 < Coefficients(s, r).Discriminant()
  {
    var q := Coefficients(s, r);
    if q.Discriminant() > 0.0 then
      PositiveDiscriminant(s, r);
      var near := NearRoot(q, sqrt);
      if near < tMax && near > tMin then
        Some(Record(s, r, near))
      else
        var far := FarRoot(q, sqrt);
        if far < tMax && far > tMin then Some(Record(s, r, far)) else None
    else
      None
  }

  /** Conversely, with a positive discriminant every root of the quadratic
      strictly inside (tMin, tMax) makes Hit report a hit. */
  lemma HitFindsRoot(s: Sphere, r: Ray, tMin: real, tMax: real, t: real, sqrt: real -> real)
    requires IsSqrt(sqrt) && 0.0 < Coefficients(s, r).Discriminant()
    requires tMin < t < tMax && Coefficients(s, r).At(t) == 0.0
    ensures Hit(s, r, tMin, tMax, sqrt).Some?
  {
    PositiveDiscriminant(s, r);
    RootIsNearOrFar(Coefficients(s, r), t, sqrt);
  }

  /** A near root inside the interval is the one returned, with its record;
      the far root is returned only when the near root lies outside. */
  lemma HitAtNearRoot(s: Sphere, r: Ray, tMin: real, tMax: real, sqrt: real -> real)
    requires 0.0 < Coefficients(s, r).Discriminant()
    ensures 0.0 < Coefficients(s, r).a && s.radius != 0.0
    ensures var near := NearRoot(Coefficients(s, r), sqrt);
      tMin < near < tMax ==> Hit(s, r, tMin, tMax, sqrt) == Some(Record(s, r, near))
    ensures var near, far := NearRoot(Coefficients(s, r), sqrt), FarRoot(Coefficients(s, r), sqrt);
      !(tMin < near < tMax) && tMin < far < tMax ==> Hit(s, r, tMin, tMax, sqrt) == Some(Record(s, r, far))
  {
    PositiveDiscriminant(s, r);
  }

  /** A ray with no direction misses every sphere: its discriminant is 0. */
  lemma ZeroDirectionMisses(s: Sphere, r: Ray, tMin: real, tMax: real, sqrt: real -> real)
    requires r.direction == Zero
    ensures Hit(s, r, tMin, tMax, sqrt) == None
  {
    ZeroDirectionCoefficients(s, r);
    var q := Coefficients(s, r);
    NoDiscriminant(q.a, q.b, q.c);
  }

  lemma ZeroDirectionCoefficients(s: Sphere, r: Ray)
    requires r.direction == Zero
    ensures Coefficients(s, r).a == 0.0 && Coefficients(s, r).b == 0.0
  {
    DotWithZero(r.direction);
    DotWithZero(r.origin.Sub(s.center));
  }

  lemma DotWithZero(v: Vec3)
    ensures v.Dot(Zero) == 0.0
  {
  }

  lemma NoDiscriminant(a: real, b: real, c: real)
    requires a == 0.0 && b == 0.0
    ensures !(0.0 < b * b - a * c)
  {
  }

  /** Where Hit returns a record, it is at the near or the far root, and at
      the far root only when the near root is outside the interval. */
  lemma HitPicksARoot(s: Sphere, r: Ray, tMin: real, tMax: real, sqrt: real -> real)
    requires Hit(s, r, tMin, tMax, sqrt).Some?
    ensures 0.0 < Coefficients(s, r).a
    ensures var t := Hit(s, r, tMin, tMax, sqrt).value.t;
      || t == NearRoot(Coefficients(s, r), sqrt)
      || (t == FarRoot(Coefficients(s, r), sqrt)
          && !(tMin < NearRoot(Coefficients(s, r), sqrt) < tMax))
  {
    PositiveDiscriminant(s, r);
  }

  /** The near root comes first. */
  lemma RootsOrdered(q: Quadratic, sqrt: real -> real)
    requires IsSqrt(sqrt) && 0.0 < q.a && 0.0 < q.Discriminant()
    ensures NearRoot(q, sqrt) < FarRoot(q, sqrt)
  {
    var d := sqrt(q.Discriminant());
    assert 0.0 < d;
    QuotientMonotone(-q.b - d, -q.b + d, q.a);
  }

  lemma QuotientMonotone(m: real, n: real, a: real)
    requires 0.0 < a && m < n
    ensures m / a < n / a
  {
    var p, q := m / a, n / a;
    assert p * a == m && q * a == n;
  }

  /** Lowering tMax to any `c` keeps a hit below `c` and loses one at or
      above it, which is what the closest-so-far scan of a scene relies on. */
  lemma HitNarrowing(s: Sphere, r: Ray, tMin: real, tMax: real, c: real, sqrt: real -> real)
    requires IsSqrt(sqrt) && c <= tMax
    ensures Hit(s, r, tMin, c, sqrt)
         == if Hit(s, r, tMin, tMax, sqrt).Some? && Hit(s, r, tMin, tMax, sqrt).value.t < c
            then Hit(s, r, tMin, tMax, sqrt) else None
  {
    var q := Coefficients(s, r);
    if 0.0 < q.Discriminant() {
      PositiveDiscriminant(s, r);
      RootsOrdered(q, sqrt);
    }
  }
  /** A hit's parameter is a root of the quadratic. */
  lemma HitSolvesQuadratic(s: Sphere, r: Ray, tMin: real, tMax: real, sqrt: real -> real)
    requires IsSqrt(sqrt) && Hit(s, r, tMin, tMax, sqrt).Some?
    ensures Coefficients(s, r).At(Hit(s, r, tMin, tMax, sqrt).value.t) == 0.0
  {
    HitPicksARoot(s, r, tMin, tMax, sqrt);
    PositiveDiscriminant(s, r);
    RootsSolve(Coefficients(s, r), sqrt);
  }

  /** Both roots solve the quadratic. */
  lemma RootsSolve(q: Quadratic, sqrt: real -> real)
    requires IsSqrt(sqrt) && 0.0 < q.a && 0.0 < q.Discriminant()
    ensures q.At(NearRoot(q, sqrt)) == 0.0 && q.At(FarRoot(q, sqrt)) == 0.0
  {
    var d := sqrt(q.Discriminant());
    assert d * d == q.Discriminant();
    assert NearRoot(q, sqrt) == (-q.b - d) / q.a;
    assert FarRoot(q, sqrt) == (-q.b + d) / q.a;
    QuotientSolves(q, d, -q.b - d);
    QuotientSolves(q, d, -q.b + d);
  }

  lemma QuotientSolves(q: Quadratic, d: real, n: real)
    requires 0.0 < q.a && d * d == q.Discriminant()
    requires n == -q.b - d || n == -q.b + d
    ensures q.At(n / q.a) == 0.0
  {
    var t := n / q.a;
    assert t * q.a == n;
    RootIsZero(q.a, q.b, q.c, d, t);
  }

  /** A hit lies on the sphere: its position is at distance `radius` from
      the center, and its normal has unit length. */
  lemma HitOnSurface(s: Sphere, r: Ray, tMin: real, tMax: real, sqrt: real -> real)
    requires IsSqrt(sqrt) && Hit(s, r, tMin, tMax, sqrt).Some?
    ensures var rec := Hit(s, r, tMin, tMax, sqrt).value;
      && rec.position.Sub(s.center).LengthSquared() == s.radius * s.radius
      && rec.normal.LengthSquared() == 1.0
  {
    var rec := Hit(s, r, tMin, tMax, sqrt).value;
    HitSolvesQuadratic(s, r, tMin, tMax, sqrt);
    CoefficientsMeasureDistance(s, r, rec.t);
    PositiveDiscriminant(s, r);
    PositiveSquare(s.radius);
    UnitNormal(rec.position.Sub(s.center), s.radius, s.radius * s.radius, rec.normal);
  }

  /** A vector of length `|k|` divided by `k` has unit length. */
  lemma UnitNormal(v: Vec3, k: real, kk: real, n: Vec3)
    requires 0.0 < kk && k * k == kk && k != 0.0
    requires v.LengthSquared() == kk && n == v.Div(k)
    ensures n.LengthSquared() == 1.0
  {
    LengthOfQuotient(v, k, kk);
    UnitFromProduct(n.LengthSquared(), k, kk);
  }

  lemma PositiveSquare(k: real)
    requires k < 0.0 || 0.0 < k
    ensures 0.0 < k * k
  {
  }

  /** `t` with `a t + b = d` or `a t + b = -d`, where `d^2` is the
      discriminant, solves the quadratic. */
  lemma RootIsZero(a: real, b: real, c: real, d: real, t: real)
    requires 0.0 < a && d * d == b * b - a * c
    requires t * a + b == d || t * a + b == -d
    ensures a * t * t + 2.0 * b * t + c == 0.0
  {
    var e := t * a + b;
    assert e * e == d * d;
    assert a * (a * t * t + 2.0 * b * t + c) == e * e - (b * b - a * c);
    ZeroFactor(a, a * t * t + 2.0 * b * t + c);
  }

  lemma ZeroFactor(a: real, x: real)
    requires 0.0 < a && a * x == 0.0
    ensures x == 0.0
  {
  }

  /** Conversely every root of the quadratic is the near or the far root. */
  lemma RootIsNearOrFar(q: Quadratic, t: real, sqrt: real -> real)
    requires IsSqrt(sqrt) && 0.0 < q.a && 0.0 < q.Discriminant()
    requires q.At(t) == 0.0
    ensures t == NearRoot(q, sqrt) || t == FarRoot(q, sqrt)
  {
    var d := sqrt(q.Discriminant());
    assert 0.0 < d && d * d == q.Discriminant();
    RootsOfQuadratic(q.a, q.b, q.c, d, t);
  }

  lemma RootsOfQuadratic(a: real, b: real, c: real, d: real, t: real)
    requires 0.0 < a && d * d == b * b - a * c
    requires a * t * t + 2.0 * b * t + c == 0.0
    ensures t == (-b - d) / a || t == (-b + d) / a
  {
    var e := t * a + b;
    assert a * (a * t * t + 2.0 * b * t + c) == e * e - d * d;
    SquaresEqual(e, d);
    if e == d {
      QuotientRecovers(t, a, -b + d);
    } else {
      QuotientRecovers(t, a, -b - d);
    }
  }

  lemma SquaresEqual(e: real, d: real)
    requires e * e - d * d == 0.0
    ensures e == d || e == -d
  {
    assert (e - d) * (e + d) == e * e - d * d;
  }

  lemma QuotientRecovers(t: real, a: real, n: real)
    requires 0.0 < a && t * a == n
    ensures t == n / a
  {
  }

  /** Hit returns the nearest root inside (tMin, tMax). */
  lemma HitTakesNearestRoot(s: Sphere, r: Ray, tMin: real, tMax: real, t: real, sqrt: real -> real)
    requires IsSqrt(sqrt) && Hit(s, r, tMin, tMax, sqrt).Some?
    requires tMin < t < tMax && Coefficients(s, r).At(t) == 0.0
    ensures Hit(s, r, tMin, tMax, sqrt).value.t <= t
  {
    var q := Coefficients(s, r);
    HitPicksARoot(s, r, tMin, tMax, sqrt);
    RootsOrdered(q, sqrt);
    RootIsNearOrFar(q, t, sqrt);
  }
}
