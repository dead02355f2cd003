/** Program: the radiance recursion Color, the rejection sampler
    RandomInUnitSphere, the sky background and the pixel-buffer layout.
    The global generator is threaded through explicitly as a State. */
module Render {
  import opened Wrappers
  import opened Numerics
  import opened Xorshift
  import opened Rays
  import opened Materials
  import opened Spheres
  import opened Scenes

  /** The depth cap of Color. */
  const MaxDepth: nat := 50

  /** The interval every scene query uses: (0.001, float.MaxValue). */
  const TMin: real := 0.001
  const FloatMax: real := 340282346638528859811704183484516925440.0

  predicate InUnitCube(v: Vec3)
  {
    0.0 <= v.x <= 1.0 && 0.0 <= v.y <= 1.0 && 0.0 <= v.z <= 1.0
  }

  // ---------------------------------------------------------------------
  // Background

  /** The sky seen along a ray that misses: a blend of white and
      (0.5, 0.7, 1) by `t = 0.5 * y + 1`, with y the normalized direction's
      height. */
  function Background(direction: Vec3, sqrt: real -> real): (c: Vec3)
    ensures IsSqrt(sqrt) ==> 0.25 <= c.x <= 0.75 && 0.55 <= c.y <= 0.85 && c.z == 1.0
  {
    var u := Normalize(direction, sqrt);
    NormalizedHeightBounded(direction, sqrt);
    var t := 0.5 * u.y + 1.0;
    One.Scale(1.0 - t).Add(Vec3(0.5, 0.7, 1.0).Scale(t))
  }

  /** The height of a normalized direction lies in [-1, 1], also for the
      zero vector, which Normalize leaves as it is. */
  lemma NormalizedHeightBounded(v: Vec3, sqrt: real -> real)
    ensures IsSqrt(sqrt) ==> -1.0 <= Normalize(v, sqrt).y <= 1.0
  {
    if IsSqrt(sqrt) {
      var u := Normalize(v, sqrt);
      if 0.0 < v.LengthSquared() {
        UnitComponentsBounded(u);
      } else {
        ComponentsBelowLength(u);
        SquareAtMostOne(u.y);
      }
    }
  }

  // ---------------------------------------------------------------------
  // RandomInUnitSphere

  /** One candidate of the rejection loop, `2 * (f1, f2, f3) - (1, 1, 1)`
      for the next three draws f1, f2, f3. */
  function Candidate(s: State): Vec3
  {
    var s1 := Step(s);
    var s2 := Step(s1);
    var s3 := Step(s2);
    Vec3(UnitDouble(s1.w), UnitDouble(s2.w), UnitDouble(s3.w)).Scale(2.0).Sub(One)
  }

  /** Every candidate lies in the cube [-1, 1)^3. */
  lemma CandidateInCube(s: State)
    ensures var p := Candidate(s);
      -1.0 <= p.x < 1.0 && -1.0 <= p.y < 1.0 && -1.0 <= p.z < 1.0
  {
    UnitDoubleInRange(Step(s).w);
    UnitDoubleInRange(Step(Step(s)).w);
    UnitDoubleInRange(Step(Step(Step(s))).w);
  }

  /** The generator after one round of the loop: three draws. */
  function Round(s: State): State
  {
    Step(Step(Step(s)))
  }

  /** The generator after `n` rejected rounds. */
  function Rounds(s: State, n: nat): State
    decreases n
  {
    if n == 0 then s else Rounds(Round(s), n - 1)
  }

  /** `n` rounds are `3 n` steps of the generator. */
  lemma {:induction false} RoundsAreSteps(s: State, n: nat)
    ensures Rounds(s, n) == Steps(s, 3 * n)
    decreases n
  {
    if n > 0 {
      RoundsAreSteps(Round(s), n - 1);
      StepsThree(s, 3 * (n - 1));
    }
  }

  lemma StepsThree(s: State, n: nat)
    ensures Steps(s, n + 3) == Steps(Round(s), n)
  {
    assert Steps(s, n + 3) == Steps(Step(s), n + 2);
    assert Steps(Step(s), n + 2) == Steps(Step(Step(s)), n + 1);
  }

  /** RandomInUnitSphere on the generator state: draw candidates until one
      lies strictly inside the unit sphere. `fuel` bounds the number of
      rejections; running out of it gives None. */
  function SampleInUnitSphere(s: State, fuel: nat): (r: Drawn<Option<Vec3>>)
    decreases fuel
    ensures r.value.Some? ==> r.value.value.LengthSquared() < 1.0
    ensures r.value.Some? ==> -1.0 <= r.value.value.x < 1.0 && -1.0 <= r.value.value.y < 1.0 && -1.0 <= r.value.value.z < 1.0
  {
    var p := Candidate(s);
    CandidateInCube(s);
    if p.LengthSquared() < 1.0 then Drawn(Some(p), Round(s))
    else if fuel == 0 then Drawn(None, Round(s))
    else SampleInUnitSphere(Round(s), fuel - 1)
  }

  /** A sample is the first accepted candidate: the candidate of the round
      after `n` rounds whose candidates all lie on or outside the unit
      sphere, and the generator is left just after that round. */
  lemma {:induction false} SampleIsACandidate(s: State, fuel: nat)
    requires SampleInUnitSphere(s, fuel).value.Some?
    ensures exists n :: (0 <= n <= fuel
      && (forall m :: 0 <= m < n ==> !(Candidate(Rounds(s, m)).LengthSquared() < 1.0))
      && SampleInUnitSphere(s, fuel).value == Some(Candidate(Rounds(s, n)))
      && SampleInUnitSphere(s, fuel).next == Round(Rounds(s, n)))
    decreases fuel
  {
    var n := AcceptedRound(s, fuel);
    RejectedRounds(s, n);
    assert 0 <= n <= fuel
      && (forall m :: 0 <= m < n ==> !(Candidate(Rounds(s, m)).LengthSquared() < 1.0))
      && SampleInUnitSphere(s, fuel).value == Some(Candidate(Rounds(s, n)))
      && SampleInUnitSphere(s, fuel).next == Round(Rounds(s, n));
  }

  /** The first `n` rounds are rejected, stated round by round. */
  predicate RejectedBefore(s: State, n: nat)
    decreases n
  {
    n == 0 || (!(Candidate(s).LengthSquared() < 1.0) && RejectedBefore(Round(s), n - 1))
  }

  /** RejectedBefore says that the candidate of every round before `n` lies
      on or outside the unit sphere. */
  lemma {:induction false} RejectedRounds(s: State, n: nat)
    requires RejectedBefore(s, n)
    ensures forall m :: 0 <= m < n ==> !(Candidate(Rounds(s, m)).LengthSquared() < 1.0)
    decreases n
  {
    if n > 0 {
      RejectedRounds(Round(s), n - 1);
      forall m | 0 <= m < n
        ensures !(Candidate(Rounds(s, m)).LengthSquared() < 1.0)
      {
        if m == 0 {
          assert Rounds(s, 0) == s;
        } else {
          RoundsUnfold(s, m - 1);
        }
      }
    }
  }

  /** The number of rejected rounds before the accepted one. */
  lemma {:induction false} AcceptedRound(s: State, fuel: nat) returns (n: nat)
    requires SampleInUnitSphere(s, fuel).value.Some?
    ensures n <= fuel
    ensures RejectedBefore(s, n)
    ensures SampleInUnitSphere(s, fuel).value == Some(Candidate(Rounds(s, n)))
    ensures SampleInUnitSphere(s, fuel).next == Round(Rounds(s, n))
    decreases fuel
  {
    if Candidate(s).LengthSquared() < 1.0 {
      SampleAccepts(s, fuel);
      n := 0;
    } else {
      SampleRejects(s, fuel);
      var m := AcceptedRound(Round(s), fuel - 1);
      RoundsUnfold(s, m);
      n := m + 1;
    }
  }

  /** An accepted candidate is the sample, one round on. */
  lemma SampleAccepts(s: State, fuel: nat)
    requires Candidate(s).LengthSquared() < 1.0
    ensures SampleInUnitSphere(s, fuel) == Drawn(Some(Candidate(Rounds(s, 0))), Round(Rounds(s, 0)))
  {
    assert Rounds(s, 0) == s;
  }

  /** A rejected candidate moves on to the next round; with the fuel spent
      there is no sample. */
  lemma SampleRejects(s: State, fuel: nat)
    requires !(Candidate(s).LengthSquared() < 1.0)
    ensures fuel == 0 ==> SampleInUnitSphere(s, fuel) == Drawn(None, Round(s))
    ensures 0 < fuel ==> SampleInUnitSphere(s, fuel) == SampleInUnitSphere(Round(s), fuel - 1)
  {
  }

  lemma RoundsUnfold(s: State, n: nat)
    ensures Rounds(s, n + 1) == Rounds(Round(s), n)
  {
  }

  /** From the all-zero state every candidate is (-1, -1, -1), so the
      rejection loop never accepts. */
  lemma {:induction false} ZeroStateNeverSamples(fuel: nat)
    ensures SampleInUnitSphere(ZeroState, fuel).value == None
    decreases fuel
  {
    ZeroStateIsFixedPoint(0);
    assert Candidate(ZeroState) == Vec3(-1.0, -1.0, -1.0);
    if fuel > 0 {
      ZeroStateNeverSamples(fuel - 1);
    }
  }

  /** RandomInUnitSphere on the generator object: the do-while loop. */
  method RandomInUnitSphere(rand: FastRandom, fuel: nat) returns (p: Option<Vec3>)
    modifies rand
    ensures p == SampleInUnitSphere(old(rand.Current()), fuel).value
    ensures rand.Current() == SampleInUnitSphere(old(rand.Current()), fuel).next
    ensures rand.seed == old(rand.seed)
  {
    var remaining := fuel;
    while true
      invariant SampleInUnitSphere(rand.Current(), remaining) == SampleInUnitSphere(old(rand.Current()), fuel)
      invariant rand.seed == old(rand.seed)
      decreases remaining
    {
      ghost var s := rand.Current();
      var fx := rand.NextDouble();
      var fy := rand.NextDouble();
      var fz := rand.NextDouble();
      var q := Vec3(fx, fy, fz).Scale(2.0).Sub(One);
      assert q == Candidate(s) && rand.Current() == Round(s);
      if q.LengthSquared() < 1.0 {
        return Some(q);
      }
      if remaining == 0 {
        return None;
      }
      remaining := remaining - 1;
    }
  }

  // ---------------------------------------------------------------------
  // Color

  /** Color: on a miss the background; on a hit below the depth cap, scatter
      off the material with a fresh unit-sphere sample and multiply the
      attenuation into the color of the scattered ray; otherwise black. The
      result is None only when a sampler ran out of fuel. */
  function Color(r: Ray, world: seq<Sphere>, depth: nat, rng: State, fuel: nat, sqrt: real -> real): (c: Drawn<Option<Vec3>>)
    decreases MaxDepth - depth
    ensures ScanHit(world, r, TMin, FloatMax, sqrt).None? ==>
      c.value == Some(Background(r.direction, sqrt)) && c.next == rng
    ensures ScanHit(world, r, TMin, FloatMax, sqrt).Some? && MaxDepth <= depth ==>
      c.value == Some(Zero) && c.next == rng
  {
    var hit := ScanHit(world, r, TMin, FloatMax, sqrt);
    if hit.None? then
      Drawn(Some(Background(r.direction, sqrt)), rng)
    else if depth < MaxDepth then
      var sample := SampleInUnitSphere(rng, fuel);
      if sample.value.None? then
        Drawn(None, sample.next)
      else
        var scatter := Scatter(hit.value.material.value, r, hit.value, sample.value.value, sqrt);
        if scatter.scatters then
          var rest := Color(scatter.scattered, world, depth + 1, rng := sample.next, fuel := fuel, sqrt := sqrt);
          if rest.value.None? then rest
          else Drawn(Some(scatter.attenuation.Mul(rest.value.value)), rest.next)
        else
          Drawn(Some(Zero), sample.next)
    else
      Drawn(Some(Zero), rng)
  }

  /** A hit below the depth cap draws a unit-sphere sample and scatters
      off the hit's material; a ray the material absorbs is black, and the
      generator is left just after the sample. */
  lemma ColorAbsorbed(r: Ray, world: seq<Sphere>, depth: nat, rng: State, fuel: nat, sqrt: real -> real, m: Material, p: Vec3, next: State)
    requires ScanHit(world, r, TMin, FloatMax, sqrt).Some? && depth < MaxDepth
    requires ScanHit(world, r, TMin, FloatMax, sqrt).value.material == Some(m)
    requires SampleInUnitSphere(rng, fuel) == Drawn(Some(p), next)
    requires !Scatter(m, r, ScanHit(world, r, TMin, FloatMax, sqrt).value, p, sqrt).scatters
    ensures Color(r, world, depth, rng, fuel, sqrt) == Drawn(Some(Zero), next)
  {
  }

  /** A scattered ray contributes the attenuation times the color of the
      scattered ray one level deeper, traced from the generator state just
      after the sample. */
  lemma ColorScattered(r: Ray, world: seq<Sphere>, depth: nat, rng: State, fuel: nat, sqrt: real -> real, m: Material, p: Vec3, next: State)
    requires ScanHit(world, r, TMin, FloatMax, sqrt).Some? && depth < MaxDepth
    requires ScanHit(world, r, TMin, FloatMax, sqrt).value.material == Some(m)
    requires SampleInUnitSphere(rng, fuel) == Drawn(Some(p), next)
    requires Scatter(m, r, ScanHit(world, r, TMin, FloatMax, sqrt).value, p, sqrt).scatters
    ensures var scatter := Scatter(m, r, ScanHit(world, r, TMin, FloatMax, sqrt).value, p, sqrt);
      var rest := Color(scatter.scattered, world, depth + 1, next, fuel, sqrt);
      Color(r, world, depth, rng, fuel, sqrt)
        == if rest.value.None? then rest else Drawn(Some(scatter.attenuation.Mul(rest.value.value)), rest.next)
  {
  }

  /** With every albedo in the unit cube the color is in the unit cube. */
  lemma {:induction false} ColorInUnitCube(r: Ray, world: seq<Sphere>, depth: nat, rng: State, fuel: nat, sqrt: real -> real)
    requires IsSqrt(sqrt)
    requires forall k :: 0 <= k < |world| ==> InUnitCube(world[k].material.albedo)
    ensures Color(r, world, depth, rng, fuel, sqrt).value.Some? ==>
      InUnitCube(Color(r, world, depth, rng, fuel, sqrt).value.value)
    decreases MaxDepth - depth, 1
  {
    if ScanHit(world, r, TMin, FloatMax, sqrt).Some? && depth < MaxDepth {
      ScatteredColorInUnitCube(r, world, depth, rng, fuel, sqrt);
    }
  }

  /** The bounce case of ColorInUnitCube: attenuation times the color of
      the scattered ray, or black when the material absorbs the ray. */
  lemma {:induction false} ScatteredColorInUnitCube(r: Ray, world: seq<Sphere>, depth: nat, rng: State, fuel: nat, sqrt: real -> real)
    requires IsSqrt(sqrt)
    requires forall k :: 0 <= k < |world| ==> InUnitCube(world[k].material.albedo)
    requires ScanHit(world, r, TMin, FloatMax, sqrt).Some? && depth < MaxDepth
    ensures Color(r, world, depth, rng, fuel, sqrt).value.Some? ==>
      InUnitCube(Color(r, world, depth, rng, fuel, sqrt).value.value)
    decreases MaxDepth - depth, 0
  {
    var c := Color(r, world, depth, rng, fuel, sqrt);
    var hit := ScanHit(world, r, TMin, FloatMax, sqrt);
    var sample := SampleInUnitSphere(rng, fuel);
    if sample.value.Some? {
      HitAlbedoInUnitCube(world, r, sqrt);
      var scatter := Scatter(hit.value.material.value, r, hit.value, sample.value.value, sqrt);
      if scatter.scatters {
        ColorInUnitCube(scatter.scattered, world, depth + 1, sample.next, fuel, sqrt);
        var rest := Color(scatter.scattered, world, depth + 1, sample.next, fuel, sqrt);
        if rest.value.Some? {
          ProductInUnitCube(scatter.attenuation, rest.value.value);
        }
      }
    }
  }

  /** The material of the nearest hit is one of the scene's materials. */
  lemma HitAlbedoInUnitCube(world: seq<Sphere>, r: Ray, sqrt: real -> real)
    requires forall k :: 0 <= k < |world| ==> InUnitCube(world[k].material.albedo)
    requires ScanHit(world, r, TMin, FloatMax, sqrt).Some?
    ensures ScanHit(world, r, TMin, FloatMax, sqrt).value.material.Some?
    ensures InUnitCube(ScanHit(world, r, TMin, FloatMax, sqrt).value.material.value.albedo)
  {
    var hit := ScanHit(world, r, TMin, FloatMax, sqrt);
    var k :| 0 <= k < |world| && hit.value.material == Some(world[k].material);
  }

  lemma ProductInUnitCube(a: Vec3, b: Vec3)
    requires InUnitCube(a) && InUnitCube(b)
    ensures InUnitCube(a.Mul(b))
  {
    ProductInUnit(a.x, b.x);
    ProductInUnit(a.y, b.y);
    ProductInUnit(a.z, b.z);
  }

  lemma ProductInUnit(a: real, b: real)
    requires 0.0 <= a <= 1.0 && 0.0 <= b <= 1.0
    ensures 0.0 <= a * b <= 1.0
  {
    ProductNonNegative(a, b);
    ProductNonNegative(1.0 - a, b);
    assert (1.0 - a) * b == b - a * b;
  }

  lemma ProductNonNegative(a: real, b: real)
    requires 0.0 <= a && 0.0 <= b
    ensures 0.0 <= a * b
  {
  }

  // ---------------------------------------------------------------------
  // The pixel buffer

  newtype byte = b: int | 0 <= b < 256

  datatype PixelRGB = PixelRGB(r: byte, g: byte, b: byte)

  /** The image size. */
  const Width: nat := 1200
  const Height: nat := 600

  /** `i + j * width`: row-major position of pixel (i, j). */
  function PixelIndex(i: int, j: int): int
  {
    i + j * Width
  }

  /** Every pixel of the image has an index inside the buffer. */
  lemma PixelIndexInRange(i: int, j: int)
    requires 0 <= i < Width && 0 <= j < Height
    ensures 0 <= PixelIndex(i, j) < Width * Height
  {
  }

  /** The column and the row are recovered from the index, so distinct
      pixels never share a slot. */
  lemma PixelIndexRoundTrip(i: int, j: int)
    requires 0 <= i < Width && 0 <= j
    ensures PixelIndex(i, j) % Width == i
    ensures PixelIndex(i, j) / Width == j
  {
  }

  lemma PixelIndexInjective(i1: int, j1: int, i2: int, j2: int)
    requires 0 <= i1 < Width && 0 <= j1 && 0 <= i2 < Width && 0 <= j2
    requires PixelIndex(i1, j1) == PixelIndex(i2, j2)
    ensures i1 == i2 && j1 == j2
  {
    PixelIndexRoundTrip(i1, j1);
    PixelIndexRoundTrip(i2, j2);
  }

  /** The render loops: row by row, each pixel's shade goes to slot
      `i + j * width`. The shade of a pixel (the averaged samples after
      gamma correction and quantisation) is the parameter `shade`. */
  method WritePixels(pixels: array<PixelRGB>, shade: (nat, nat) -> PixelRGB)
    requires pixels.Length == Width * Height
    modifies pixels
    ensures forall k :: 0 <= k < pixels.Length ==> pixels[k] == shade(k % Width, k / Width)
  {
    for j := 0 to Height
      invariant forall k :: 0 <= k < j * Width ==> pixels[k] == shade(k % Width, k / Width)
    {
      for i := 0 to Width
        invariant forall k :: 0 <= k < j * Width + i ==> pixels[k] == shade(k % Width, k / Width)
      {
        PixelIndexInRange(i, j);
        PixelIndexRoundTrip(i, j);
        pixels[PixelIndex(i, j)] := shade(i, j);
      }
    }
  }

  /** The copy loop: column by column, pixel (x, y) of the image is read
      from slot `x + y * width`. */
  method CopyToImage(pixels: array<PixelRGB>, image: array2<PixelRGB>)
    requires pixels.Length == Width * Height
    requires image.Length0 == Width && image.Length1 == Height
    modifies image
    ensures forall x, y :: 0 <= x < Width && 0 <= y < Height ==> image[x, y] == pixels[PixelIndex(x, y)]
  {
    for x := 0 to Width
      invariant forall x', y :: 0 <= x' < x && 0 <= y < Height ==> image[x', y] == pixels[PixelIndex(x', y)]
    {
      for y := 0 to Height
        invariant forall x', y' :: 0 <= x' < x && 0 <= y' < Height ==> image[x', y'] == pixels[PixelIndex(x', y')]
        invariant forall y' :: 0 <= y' < y ==> image[x, y'] == pixels[PixelIndex(x, y')]
      {
        PixelIndexInRange(x, y);
        image[x, y] := pixels[PixelIndex(x, y)];
      }
    }
  }

  /** A buffer written by the render loops holds each pixel's own shade at
      that pixel's index. */
  lemma ImageShowsShades(pixels: seq<PixelRGB>, shade: (nat, nat) -> PixelRGB, x: nat, y: nat)
    requires |pixels| == Width * Height
    requires forall k :: 0 <= k < |pixels| ==> pixels[k] == shade(k % Width, k / Width)
    requires x < Width && y < Height
    ensures 0 <= PixelIndex(x, y) < |pixels|
    ensures pixels[PixelIndex(x, y)] == shade(x, y)
  {
    PixelIndexInRange(x, y);
    PixelIndexRoundTrip(x, y);
  }

  /** The render loops followed by the copy loops: every pixel of the image
      shows its own shade. */
  method RenderImage(pixels: array<PixelRGB>, image: array2<PixelRGB>, shade: (nat, nat) -> PixelRGB)
    requires pixels.Length == Width * Height
    requires image.Length0 == Width && image.Length1 == Height
    modifies pixels, image
    ensures forall x, y :: 0 <= x < Width && 0 <= y < Height ==> image[x, y] == shade(x, y)
  {
    WritePixels(pixels, shade);
    CopyToImage(pixels, image);
    forall x, y | 0 <= x < Width && 0 <= y < Height
      ensures image[x, y] == shade(x, y)
    {
      ImageShowsShades(pixels[..], shade, x, y);
    }
  }
}
