/** Materials, the hit record and the two scattering laws. Material is the
    closed family Lambertian | Metal; the random sample each Scatter draws
    from RandomInUnitSphere is passed in as `sample`. */
module Materials {
  import opened Wrappers
  import opened Numerics
  import opened Rays

  datatype Material =
    | Lambertian(albedo: Vec3)
    | Metal(albedo: Vec3, fuzz: real)

  /** `new Metal(albedo, f)`: the fuzz is capped at 1 from above only. */
  function MakeMetal(albedo: Vec3, f: real): (m: Material)
    ensures m.Metal? && m.albedo == albedo
    ensures m.fuzz <= 1.0
    ensures f < 1.0 ==> m.fuzz == f
    ensures 1.0 <= f ==> m.fuzz == 1.0
  {
    Metal(albedo, if f < 1.0 then f else 1.0)
  }

  /** HitRecord; a missing material (a null reference) is None. */
  datatype HitRecord = HitRecord(t: real, position: Vec3, normal: Vec3, material: Option<Material>)

  /** HitRecord.Empty */
  const Empty := HitRecord(0.0, Zero, Zero, None)

  /** The outputs of Scatter: its boolean result, `attenuation` and `scattered`. */
  datatype Scattering = Scattering(scatters: bool, attenuation: Vec3, scattered: Ray)

  /** Lambertian.Scatter: aim at `position + normal + sample` and always scatter. */
  function LambertianScatter(albedo: Vec3, hit: HitRecord, sample: Vec3): (s: Scattering)
    ensures s.scatters
    ensures s.attenuation == albedo
    ensures s.scattered.origin == hit.position
    ensures s.scattered.direction == hit.normal.Add(sample)
  {
    var target := hit.position.Add(hit.normal).Add(sample);
    Scattering(true, albedo, Ray(hit.position, target.Sub(hit.position)))
  }

  /** Metal.Scatter: mirror the unit incoming direction in the normal, blur it
      by `fuzz * sample`, and scatter only away from the surface. */
  function MetalScatter(albedo: Vec3, fuzz: real, ray: Ray, hit: HitRecord, sample: Vec3, sqrt: real -> real): (s: Scattering)
    ensures s.attenuation == albedo
    ensures s.scattered.origin == hit.position
    ensures s.scattered.direction == Reflect(Normalize(ray.direction, sqrt), hit.normal).Add(sample.Scale(fuzz))
    ensures s.scatters <==> 0.0 < s.scattered.direction.Dot(hit.normal)
  {
    var direction := Normalize(ray.direction, sqrt);
    var reflected := Reflect(direction, hit.normal);
    var scattered := Ray(hit.position, reflected.Add(sample.Scale(fuzz)));
    Scattering(scattered.direction.Dot(hit.normal) > 0.0, albedo, scattered)
  }

  /** The virtual call `rec.Material.Scatter(...)`. */
  function Scatter(m: Material, ray: Ray, hit: HitRecord, sample: Vec3, sqrt: real -> real): (s: Scattering)
    ensures s.attenuation == m.albedo
    ensures s.scattered.origin == hit.position
    ensures m.Lambertian? ==> s.scatters
    ensures m.Lambertian? ==> s.scattered.direction == hit.normal.Add(sample)
    ensures m.Metal? ==> s.scattered.direction == Reflect(Normalize(ray.direction, sqrt), hit.normal).Add(sample.Scale(m.fuzz))
    ensures m.Metal? ==> (s.scatters <==> 0.0 < s.scattered.direction.Dot(hit.normal))
  {
    match m
    case Lambertian(albedo) => LambertianScatter(albedo, hit, sample)
    case Metal(albedo, fuzz) => MetalScatter(albedo, fuzz, ray, hit, sample, sqrt)
  }

  /** A mirror (fuzz 0) with a unit normal reflects exactly, and scatters
      exactly when the ray arrives against the normal. */
  lemma MirrorScattersIffIncoming(albedo: Vec3, ray: Ray, hit: HitRecord, sample: Vec3, sqrt: real -> real)
    requires IsSqrt(sqrt) && 0.0 < ray.direction.LengthSquared()
    requires hit.normal.LengthSquared() == 1.0
    ensures MetalScatter(albedo, 0.0, ray, hit, sample, sqrt).scattered.direction
         == Reflect(Normalize(ray.direction, sqrt), hit.normal)
    ensures MetalScatter(albedo, 0.0, ray, hit, sample, sqrt).scatters <==> ray.direction.Dot(hit.normal) < 0.0
  {
    var n := hit.normal;
    var len := sqrt(ray.direction.LengthSquared());
    NormalizeHasUnitLength(ray.direction, sqrt);
    var u := Normalize(ray.direction, sqrt);
    assert u == ray.direction.Div(len);
    var reflected := Reflect(u, n);
    assert reflected.Add(sample.Scale(0.0)) == reflected;
    ReflectFlipsNormalComponent(u, n);
    DotOfQuotient(ray.direction, n, len);
    SignOfQuotient(u.Dot(n), len, ray.direction.Dot(n));
  }

  lemma DotOfQuotient(v: Vec3, n: Vec3, k: real)
    requires 0.0 < k
    ensures v.Div(k).Dot(n) * k == v.Dot(n)
  {
    var q := v.Div(k);
    assert q.x * k == v.x && q.y * k == v.y && q.z * k == v.z;
    assert q.Dot(n) * k == (q.x * k) * n.x + (q.y * k) * n.y + (q.z * k) * n.z;
  }

  lemma SignOfQuotient(q: real, k: real, a: real)
    requires 0.0 < k && q * k == a
    ensures 0.0 < -q <==> a < 0.0
  {
  }
}
