# Ray tracing in a weekend — a Dafny model of the renderer core

This project models the core of a small C# path tracer: the xorshift128
generator `FastRandom`, rays, spheres and their ray intersection, the scene's
nearest-hit scan, the two materials (Lambertian and Metal), the recursive
radiance function `Color` with its depth cap of 50, the rejection sampler
`RandomInUnitSphere`, and the pixel-buffer layout `i + j * width`.

How the model relates to the program:

- Single-precision `float` and `double` values are exact `real`s. Vectors are
  `Numerics.Vec3` over `real`.
- `MathF.Sqrt` is not a Dafny function, so it is a parameter `sqrt`. Lemmas that
  need its meaning require `IsSqrt(sqrt)`: zero at zero, and a positive root
  whose square is `x` at every positive `x`.
- The generator's four words are `bv32`, and C#'s `int` is the newtype `int32`.
  - Unchecked 32-bit arithmetic is `Wrap32`.
  - The double-to-int cast is `SaturatingCast`, the .NET 9 behaviour.
- `FastRandom` is a class whose methods update `x`, `y`, `z` and `w` in place.
  Each method is proved against the state functions `Step` and `NextDraw`.
- The program keeps the generator in a static field `rand`. The pure functions
  `SampleInUnitSphere` and `Color` instead take its `State` and return the
  state they leave behind (`Drawn`). The imperative `RandomInUnitSphere` works
  on a `FastRandom` object and is proved equal to `SampleInUnitSphere`.
- Two loops may retry without bound: the retry in `Next()` and the rejection
  loop. Each takes a `nat` bound on its retries and returns `None` when the
  bound runs out.
- `Material` is the closed datatype `Lambertian | Metal`. A null material
  reference is `None` in `HitRecord.material`.
- `Scatter` takes its unit-sphere sample as the argument `sample`. `Color`
  draws that sample just before the call, which matches the one draw each
  material makes inside `Scatter`.
- `Scene` is a class over an `array<Sphere>`, and its `Hit` method keeps the
  C# `for` loop. `Scenes.ScanHit` is the function it is proved against.
- The shade of one pixel is the parameter `shade` of the render loop. That
  shade is the camera ray, the 12 averaged samples, the gamma correction and
  the byte quantisation. The clock's `Environment.TickCount` is the parameter
  `tickCount`.

## Model

| member | source | states |
|---|---|---|
| Numerics.Normalize | RayTracing/Program.cs:68 | a non-zero vector v gives the vector of squared length 1 that, scaled by v's length, is v again; a zero vector is returned unchanged |
| Numerics.CauchySchwarz | RayTracing/Sphere.cs:33-36 | the squared dot product of two vectors is at most the product of their squared lengths (via Lagrange's identity), which bounds the discriminant |
| Numerics.ReflectFlipsNormalComponent | RayTracing/Metal.cs:27 | reflecting in a unit normal negates the component along the normal |
| Numerics.ReflectIsInvolution | RayTracing/Metal.cs:27 | reflecting twice in the same unit normal gives back the original direction |
| Xorshift.Wrap32 | RayTracing/FastRandom.cs:139 | unchecked `int` arithmetic: a value in range is kept, one up to 2^32 above is reduced by 2^32 |
| Xorshift.SaturatingCast | RayTracing/FastRandom.cs:144 | `(int)` of a non-negative integral double: exact below 2^31, int.MaxValue above |
| Xorshift.Seeded | RayTracing/FastRandom.cs:75-87 | reinitialising from any seed gives a state that is not all zero |
| Xorshift.StepPreservesNonZero | RayTracing/FastRandom.cs:91-95 | a step of the generator neither enters nor leaves the all-zero state (both directions) |
| Xorshift.StepsStayNonZero | RayTracing/FastRandom.cs:89-106 | from a non-zero state every number of steps stays non-zero |
| Xorshift.ZeroStateIsFixedPoint | RayTracing/FastRandom.cs:63-65 | the all-zero state steps to itself, for any number of steps |
| Xorshift.NextDraw | RayTracing/FastRandom.cs:89-106 | Next() gives the low 31 bits of the state it leaves, a value in [0, int.MaxValue); it gives up only with those bits all set; a non-zero state stays non-zero |
| Xorshift.NextDrawSteps | RayTracing/FastRandom.cs:89-106 | a draw takes n steps, 1 <= n <= retries + 1, and every step before the last had its low 31 bits all set: it retries only on int.MaxValue |
| Xorshift.NextDrawIgnoresSpareRetries | RayTracing/FastRandom.cs:99-103 | a draw that succeeds under some retry bound gives the same value and state under any larger bound |
| Xorshift.ScaleBelow | RayTracing/FastRandom.cs:108-123 | Next(upperBound) lies in [0, upperBound), and is 0 when upperBound is 0 |
| Xorshift.ScaleBetween | RayTracing/FastRandom.cs:125-150 | Next(lowerBound, upperBound) as written is at least lowerBound, below upperBound when they differ, and lowerBound when they are equal |
| Xorshift.IntendedScaleBetween | RayTracing/FastRandom.cs:139-145 | with the full offset added, the wide-range branch also gives a value in [lowerBound, upperBound) |
| Xorshift.WideRangeCastSaturates | RayTracing/FastRandom.cs:140-145 | for w = 0xFFFFFFFF and bounds int.MinValue, int.MaxValue the code returns -1, while the offset it computed gives 2^31 - 2 |
| Xorshift.NarrowRangesAgree | RayTracing/FastRandom.cs:147-149 | when the range fits in `int`, the code and the corrected version agree |
| Xorshift.UnitDoubleInRange | RayTracing/FastRandom.cs:168 | NextDouble's value lies in [0, 1) |
| Xorshift.UnitDoubleIsExact | RayTracing/FastRandom.cs:168 | the 31 bits drawn are recovered exactly from the double |
| Xorshift.FastRandom.constructor | RayTracing/FastRandom.cs:68-72 | `new FastRandom(seed)` stores the seed and reinitialises from it |
| Xorshift.FastRandom.Unseeded | RayTracing/FastRandom.cs:63-65 | `new FastRandom()` leaves all four words 0 |
| Xorshift.FastRandom.FromClock | RayTracing/FastRandom.cs:63-65 | the corrected no-argument constructor seeds from the tick count and starts non-zero |
| Xorshift.FastRandom.SetSeed | RayTracing/FastRandom.cs:55-59 | the Seed setter stores the value and reinitialises the state from it |
| Xorshift.FastRandom.Reinitialise | RayTracing/FastRandom.cs:75-87 | x takes the seed, y, z and w take the fixed seeds; the stored seed is untouched |
| Xorshift.FastRandom.Advance | RayTracing/FastRandom.cs:91-95 | the four words become their successor under Step |
| Xorshift.FastRandom.Next | RayTracing/FastRandom.cs:89-106 | result and new state are those of NextDraw on the old state |
| Xorshift.FastRandom.NextBelow | RayTracing/FastRandom.cs:108-123 | a negative bound fails with ArgumentOutOfRange and leaves the state alone; otherwise one step and ScaleBelow of the new w |
| Xorshift.FastRandom.NextBetween | RayTracing/FastRandom.cs:125-150 | lowerBound > upperBound fails with ArgumentOutOfRange and leaves the state alone; otherwise one step and ScaleBetween of the new w |
| Xorshift.FastRandom.NextDouble | RayTracing/FastRandom.cs:152-169 | one step, and the value k / 2^31 of the low 31 bits k of the new w |
| Rays.Ray.PointAtParameter | RayTracing/Ray.cs:29-32 | the point lies `t` directions from the origin, and is the origin at t = 0 |
| Rays.PointsAlongRayCompose | RayTracing/Ray.cs:29-32 | moving by s and then by t along a ray is moving by s + t |
| Materials.MakeMetal | RayTracing/Metal.cs:18-22 | the fuzz is f when f is below 1, and exactly 1 otherwise |
| Materials.LambertianScatter | RayTracing/Lambertian.cs:21-28 | always scatters from the hit point along normal + sample, attenuated by the albedo |
| Materials.MetalScatter | RayTracing/Metal.cs:24-32 | scatters from the hit point along the reflection of the unit incoming direction plus fuzz * sample, attenuated by the albedo, exactly when that direction points away from the surface |
| Materials.Scatter | RayTracing/Material.cs:12-15 | the virtual call: attenuation is the material's albedo and origin the hit point; a Lambertian always scatters along normal + sample; a Metal goes along the reflection of the unit incoming direction plus fuzz * sample and scatters exactly when that direction points away from the surface |
| Materials.MirrorScattersIffIncoming | RayTracing/Metal.cs:24-32 | a metal with fuzz 0 reflects the unit incoming direction exactly, and scatters exactly when the ray arrives against the normal |
| Spheres.Coefficients | RayTracing/Sphere.cs:32-36 | the quadratic's leading coefficient is non-negative and its discriminant is at most a * radius^2 |
| Spheres.CoefficientsMeasureDistance | RayTracing/Sphere.cs:32-36 | the quadratic at t is the squared distance of the ray point from the centre minus radius^2 |
| Spheres.Hit | RayTracing/Sphere.cs:30-63 | a hit lies strictly inside (tMin, tMax), carries the sphere's material, the ray point and the outward normal (p - c) / radius, and needs a positive discriminant |
| Spheres.HitFindsRoot | RayTracing/Sphere.cs:38-58 | with a positive discriminant, any root strictly inside (tMin, tMax) makes Hit report a hit |
| Spheres.HitAtNearRoot | RayTracing/Sphere.cs:40-58 | a near root inside the interval is returned with its record; otherwise a far root inside the interval is |
| Spheres.ZeroDirectionMisses | RayTracing/Sphere.cs:38 | a ray with zero direction never hits |
| Spheres.HitPicksARoot | RayTracing/Sphere.cs:40-58 | a hit's t is the near root, or the far root when the near one is outside the interval |
| Spheres.RootsOrdered | RayTracing/Sphere.cs:40-58 | the near root is strictly smaller than the far root |
| Spheres.HitNarrowing | RayTracing/Sphere.cs:30-63 | shrinking tMax to c keeps exactly the hits below c, unchanged |
| Spheres.HitSolvesQuadratic | RayTracing/Sphere.cs:30-63 | a hit's t is a root of the ray-sphere quadratic |
| Spheres.HitOnSurface | RayTracing/Sphere.cs:44-45 | a hit point lies on the sphere and its normal has unit length |
| Spheres.RootIsNearOrFar | RayTracing/Sphere.cs:40-58 | every root of the quadratic is the near or the far root |
| Spheres.HitTakesNearestRoot | RayTracing/Sphere.cs:30-63 | no root of the quadratic in (tMin, tMax) is nearer than the hit |
| Scenes.ScanHit | RayTracing/Scene.cs:18-35 | the scan's hit lies in (tMin, tMax) and carries the material of one of the spheres |
| Scenes.FirstNearestIsNearest | RayTracing/Scene.cs:23-32 | keeping a later hit only when strictly nearer yields no hit exactly when there are none, and otherwise the nearest hit, the lowest index among equals |
| Scenes.ScanIsFirstNearest | RayTracing/Scene.cs:22-31 | narrowing closestSoFar while scanning selects exactly as the nearest-hit rule does on the separate hits |
| Scenes.ScanFindsNearest | RayTracing/Scene.cs:18-35 | Scene.Hit misses exactly when every sphere misses, and otherwise returns the nearest hit in (tMin, tMax) |
| Scenes.Scene.constructor | RayTracing/Scene.cs:13-16 | the scene holds the given sphere array |
| Scenes.Scene.Hit | RayTracing/Scene.cs:18-35 | the loop returns true exactly when the scan finds a hit, returns that hit, and leaves HitRecord.Empty on a miss |
| Render.Background | RayTracing/Program.cs:66-71 | the sky colour has red in [0.25, 0.75], green in [0.55, 0.85] and blue 1 |
| Render.CandidateInCube | RayTracing/Program.cs:47 | every candidate `2 * (f1, f2, f3) - (1, 1, 1)` built from the double draws lies in [-1, 1)^3 |
| Render.SampleInUnitSphere | RayTracing/Program.cs:42-51 | an accepted sample lies strictly inside the unit sphere and in [-1, 1)^3 |
| Render.SampleIsACandidate | RayTracing/Program.cs:45-48 | an accepted sample is the first accepted candidate: the candidates of rounds 0 to n - 1 all lie on or outside the unit sphere, the sample is the candidate of round n, n is within the bound, and the generator is left just after round n |
| Render.RejectedRounds | RayTracing/Program.cs:45-48 | the rounds the loop rejected before an accepted one all have candidates on or outside the unit sphere |
| Render.RoundsAreSteps | RayTracing/Program.cs:47 | n rounds of the loop are 3n steps of the generator |
| Render.ZeroStateNeverSamples | RayTracing/Program.cs:42-51 | from the all-zero generator the candidate is always (-1, -1, -1), so the loop never accepts |
| Render.RandomInUnitSphere | RayTracing/Program.cs:42-51 | the do-while loop on the generator object returns SampleInUnitSphere of its old state and leaves the state that function gives |
| Render.Color | RayTracing/Program.cs:53-72 | a miss gives the background and draws nothing; a hit at depth 50 or more gives black and draws nothing |
| Render.ColorAbsorbed | RayTracing/Program.cs:57-63 | a hit below the cap whose material does not scatter the drawn sample gives black, with the generator just after the sample |
| Render.ColorScattered | RayTracing/Program.cs:57-59 | a hit below the cap that scatters gives the attenuation times the colour of the scattered ray one level deeper |
| Render.ColorInUnitCube | RayTracing/Program.cs:53-72 | when every albedo lies in [0, 1]^3, every colour Color returns does too |
| Render.PixelIndexInRange | RayTracing/Program.cs:151 | every pixel of the 1200 x 600 image has an index inside the buffer |
| Render.PixelIndexRoundTrip | RayTracing/Program.cs:151 | index % width and index / width recover the column and the row |
| Render.PixelIndexInjective | RayTracing/Program.cs:151 | distinct pixels have distinct indices |
| Render.WritePixels | RayTracing/Program.cs:131-156 | the render loops leave slot k holding the shade of pixel (k % width, k / width), for every slot |
| Render.CopyToImage | RayTracing/Program.cs:159-166 | the copy loops leave image[x, y] equal to the buffer slot x + y * width |
| Render.ImageShowsShades | RayTracing/Program.cs:151 | a buffer written by the render loops holds each pixel's own shade at that pixel's index |
| Render.RenderImage | RayTracing/Program.cs:131-166 | the render loops followed by the copy loops leave image[x, y] equal to the shade of pixel (x, y), for every pixel |

## Left out

- Xorshift.FastRandom.NextDouble: its ensures gives the value by UnitDouble. The range [0, 1) is the separate lemma UnitDoubleInRange, so the contract itself does not state it.
- Xorshift.FastRandom.Next: the retry loop is bounded by the parameter `retries`. Running out of retries gives None, which the program cannot do.
- Render.SampleInUnitSphere: the rejection loop is bounded by `fuel`, and running out gives None. The model does not show that the loop ends on a non-zero state.
- Render.Color: that at most 50 bounces happen is kept only by the termination measure `MaxDepth - depth`, not by an ensures.
- Render.Color: a hit record whose material is null (a NullReferenceException in the program) cannot arise. ScanHit returns only sphere materials, and the null material of HitRecord.Empty is None.
- NextFloat (FastRandom.cs:171-174) is modelled as NextDouble. The rounding to single precision is not modelled.
- Render.CandidateInCube: the half-open bound holds for the double draws of the model. The program's `(float)` rounding turns draws with k >= 2^31 - 64 into 1.0f, so the program's candidates lie only in [-1, 1]^3.
- Xorshift.SaturatingCast: this is the .NET 9 and later conversion. On earlier x64 runtimes an out-of-range cast gives int.MinValue, which would make the second finding's result 0 instead of -1. The defect, that every offset of 2^31 or more collapses to one value, is the same.
- IEEE rounding, NaN and infinity are left out everywhere, because all arithmetic is on exact reals. Normalize of a zero vector gives that vector, where the program gives NaN components.
- The fields `bitBuffer` and `bitMask` are reset by Reinitialise but never read by the core, so they are not modelled.
- Camera.cs, Dielectric.cs and `InUnitSphere` are not part of this model. The program's render loop does not call `InUnitSphere`.
- Main's scene construction, the camera rays, the 12-sample average, the gamma correction and the byte conversion are folded into the `shade` parameter of WritePixels. In the program each pixel's shade also depends on the generator state that earlier pixels left; `shade(i, j)` does not show that dependence.
- Image saving, `Rgba32`, starting the viewer process and console output are I/O and are left out.
- `Environment.TickCount` is the parameter `tickCount`.
- That Step is a bijection of the non-zero states is not proved. The model proves only that it never reaches the zero state from outside it.
- Statistical uniformity of the draws is not claimed.

## Findings

| source | as written | input that shows it | evidently intended | confidence | as-written member | corrected member |
|---|---|---|---|---|---|---|
| RayTracing/FastRandom.cs:63-65 | the no-argument constructor assigns no field, so x, y, z and w are all 0 and every draw is 0 forever | `new FastRandom()` followed by any draws | seed from the clock and reinitialise, as the seeded constructor does | not executed | Xorshift.FastRandom.Unseeded | Xorshift.FastRandom.FromClock |
| RayTracing/FastRandom.cs:140-145 | in the wide-range branch the offset `w * range` can reach 2^32 - 2 and is cast to `int` before it is added, and that cast saturates | w = 0xFFFFFFFF, lowerBound = int.MinValue, upperBound = int.MaxValue gives -1 | lowerBound + offset = 2^31 - 2 | not executed | Xorshift.WideRangeCastSaturates | Xorshift.IntendedScaleBetween |
