/** FastRandom: Marsaglia's xorshift128 generator ("Xorshift RNGs", 2003)
    with the shift triple 11/8/19, over four unsigned 32-bit words. The
    state functions come first; the class FastRandom at the end updates its
    four words in place and is proved against them. */
module Xorshift {
  import opened Wrappers

  /** C#'s `int` */
  newtype int32 = i: int | -0x8000_0000 <= i < 0x8000_0000

  const IntMax: bv32 := 0x7FFF_FFFF

  /** The fixed seeds of y, z and w. */
  const SeedY: bv32 := 842502087
  const SeedZ: bv32 := 3579807591
  const SeedW: bv32 := 273326509

  datatype State = State(x: bv32, y: bv32, z: bv32, w: bv32)

  const ZeroState := State(0, 0, 0, 0)

  /** Xorshift128 is only useful away from the all-zero state. */
  predicate NonZero(s: State)
  {
    s != ZeroState
  }

  /** The argument check that throws ArgumentOutOfRangeException. */
  datatype Error = ArgumentOutOfRange(paramName: string, message: string)

  /** A value drawn together with the state left behind. */
  datatype Drawn<T> = Drawn(value: T, next: State)

  // ---------------------------------------------------------------------
  // Integer conversions

  /** The cast `(uint)i`: two's complement reinterpretation. */
  function ToUInt(i: int32): bv32
  {
    (i as int % 0x1_0000_0000) as bv32
  }

  /** Unchecked 32-bit `int` arithmetic: the result wraps modulo 2^32. */
  function Wrap32(i: int): (r: int32)
    ensures -0x8000_0000 <= i < 0x8000_0000 ==> r as int == i
    ensures 0x8000_0000 <= i < 0x1_8000_0000 ==> r as int == i - 0x1_0000_0000
  {
    ((i + 0x8000_0000) % 0x1_0000_0000 - 0x8000_0000) as int32
  }

  /** `(int)v` for a non-negative double holding an integer: values above
      int.MaxValue saturate, as floating-point to integer conversions do
      on .NET 9 and later. */
  function SaturatingCast(v: nat): (r: int32)
    ensures v < 0x8000_0000 ==> r as int == v
    ensures 0x8000_0000 <= v ==> r as int == 0x7FFF_FFFF
  {
    if v < 0x8000_0000 then v as int32 else 0x7FFF_FFFF
  }

  // ---------------------------------------------------------------------
  // Seeding and the state step

  /** Reinitialise: x takes the seed, y, z and w the fixed seeds. */
  function Seeded(seed: int32): (s: State)
    ensures NonZero(s)
  {
    State(ToUInt(seed), SeedY, SeedZ, SeedW)
  }

  /** The three xorshifts of a step: `t = x ^ (x << 11)`, `t ^ (t >> 8)`
      and `w ^ (w >> 19)`. */
  function Mix11(x: bv32): bv32 { x ^ (x << 11) }

  function Mix8(t: bv32): bv32 { t ^ (t >> 8) }

  function Mix19(w: bv32): bv32 { w ^ (w >> 19) }

  /** The step every draw applies: the words move down one place and the
      new w mixes the old w with the old x. */
  function Step(s: State): State
  {
    State(s.y, s.z, s.w, Mix19(s.w) ^ Mix8(Mix11(s.x)))
  }

  lemma Mix11IsInjective(a: bv32, b: bv32)
    requires Mix11(a) == Mix11(b)
    ensures a == b
  {
  }

  lemma Mix8OnlyZeroAtZero(c: bv32)
    requires c ^ (c >> 8) == 0
    ensures c == 0
  {
  }

  /** n applications of Step. */
  function Steps(s: State, n: nat): State
    decreases n
  {
    if n == 0 then s else Steps(Step(s), n - 1)
  }

  /** The all-zero state is a fixed point: from it every draw is 0. */
  lemma {:induction false} ZeroStateIsFixedPoint(n: nat)
    ensures Step(ZeroState) == ZeroState
    ensures Steps(ZeroState, n) == ZeroState
    decreases n
  {
    if n > 0 {
      ZeroStateIsFixedPoint(n - 1);
    }
  }

  /** A step neither enters nor leaves the all-zero state. */
  lemma StepPreservesNonZero(s: State)
    ensures NonZero(s) <==> NonZero(Step(s))
  {
    if Step(s) == ZeroState {
      Mix8OnlyZeroAtZero(Mix11(s.x));
      Mix11IsInjective(s.x, 0);
    }
  }

  lemma {:induction false} StepsStayNonZero(s: State, n: nat)
    requires NonZero(s)
    ensures NonZero(Steps(s, n))
    decreases n
  {
    if n > 0 {
      StepPreservesNonZero(s);
      StepsStayNonZero(Step(s), n - 1);
    }
  }

  // ---------------------------------------------------------------------
  // The values drawn

  /** `(int)(0x7FFFFFFF & w)`: the low 31 bits of w. */
  function Low31(w: bv32): (k: nat)
    ensures k < 0x8000_0000
  {
    (w & IntMax) as nat
  }

  /** Next(): step, and step again while the low 31 bits of w are all set.
      The retries the stream may need are bounded by `retries`; running out
      of them gives None. */
  function NextDraw(s: State, retries: nat): (r: Drawn<Option<int32>>)
    decreases retries
    ensures r.value.Some? ==> 0 <= r.value.value as int < IntMax as int
    ensures r.value.Some? ==> r.value.value as int == Low31(r.next.w)
    ensures r.value.None? ==> Low31(r.next.w) == IntMax as int
    ensures NonZero(s) ==> NonZero(r.next)
  {
    var s' := Step(s);
    StepPreservesNonZero(s);
    if s'.w & IntMax != IntMax then Drawn(Some(Low31(s'.w) as int32), s')
    else if retries == 0 then Drawn(None, s')
    else NextDraw(s', retries - 1)
  }

  /** A draw that succeeds with some bound on the retries succeeds, with the
      same value and state, under every larger bound. */
  lemma {:induction false} NextDrawIgnoresSpareRetries(s: State, retries: nat, more: nat)
    requires NextDraw(s, retries).value.Some?
    ensures NextDraw(s, retries + more) == NextDraw(s, retries)
    decreases retries
  {
    if Step(s).w & IntMax == IntMax {
      NextDrawIgnoresSpareRetries(Step(s), retries - 1, more);
    }
  }

  /** A draw takes `n` steps, one plus a retry for each earlier step whose
      low 31 bits were all set, and never more than the bound allows. */
  lemma {:induction false} NextDrawSteps(s: State, retries: nat) returns (n: nat)
    ensures 1 <= n <= retries + 1
    ensures NextDraw(s, retries).next == Steps(s, n)
    ensures forall m :: 1 <= m < n ==> Steps(s, m).w & IntMax == IntMax
    decreases retries
  {
    assert Steps(s, 1) == Step(s);
    if Step(s).w & IntMax != IntMax || retries == 0 {
      n := 1;
    } else {
      var k := NextDrawSteps(Step(s), retries - 1);
      n := k + 1;
      forall m | 1 <= m < n
        ensures Steps(s, m).w & IntMax == IntMax
      {
        assert Steps(s, m) == Steps(Step(s), m - 1);
      }
    }
  }

  /** The value of Next(upperBound), `(int)(k / 2^31 * upperBound)`. */
  function ScaleBelow(w: bv32, upperBound: int32): (r: int32)
    requires 0 <= upperBound
    ensures 0 <= r <= upperBound
    ensures 0 < upperBound ==> r < upperBound
  {
    ScaledFraction31(Low31(w), upperBound as int);
    (Low31(w) * upperBound as int / 0x8000_0000) as int32
  }

  /** `floor(k * span / 2^31)` for `k < 2^31` stays below `span`. */
  lemma ScaledFraction31(k: int, span: int)
    requires 0 <= k < 0x8000_0000 && 0 <= span
    ensures 0 <= k * span / 0x8000_0000 <= span
    ensures 0 < span ==> k * span / 0x8000_0000 < span
  {
    assert 0 <= k * span <= (0x8000_0000 - 1) * span;
  }

  /** `floor(k * span / 2^32)` for `k < 2^32` stays below `span`. */
  lemma ScaledFraction32(k: int, span: int)
    requires 0 <= k < 0x1_0000_0000 && 0 <= span
    ensures 0 <= k * span / 0x1_0000_0000 <= span
    ensures 0 < span ==> k * span / 0x1_0000_0000 < span
  {
    assert 0 <= k * span <= (0x1_0000_0000 - 1) * span;
  }

  /** The value of Next(lowerBound, upperBound) as written: a range that
      overflows `int` uses all 32 bits of w and the span as a long, and the
      product is then cast back to `int`. */
  function ScaleBetween(w: bv32, lowerBound: int32, upperBound: int32): (r: int32)
    requires lowerBound <= upperBound
    ensures lowerBound <= r
    ensures lowerBound < upperBound ==> r < upperBound
    ensures lowerBound == upperBound ==> r == lowerBound
  {
    var range := Wrap32(upperBound as int - lowerBound as int);
    if range < 0 then
      var span := upperBound as int - lowerBound as int;
      ScaledFraction32(w as int, span);
      var v := w as int * span / 0x1_0000_0000;
      Wrap32(lowerBound as int + SaturatingCast(v) as int)
    else
      ScaledFraction31(Low31(w), range as int);
      Wrap32(lowerBound as int + Low31(w) * range as int / 0x8000_0000)
  }

  /** The wrapped branch with the cast the code evidently means: the full
      offset `floor(w * span / 2^32)` is added to the lower bound. */
  function IntendedScaleBetween(w: bv32, lowerBound: int32, upperBound: int32): (r: int32)
    requires lowerBound <= upperBound
    ensures lowerBound <= r
    ensures lowerBound < upperBound ==> r < upperBound
  {
    var range := Wrap32(upperBound as int - lowerBound as int);
    if range < 0 then
      var span := upperBound as int - lowerBound as int;
      ScaledFraction32(w as int, span);
      (lowerBound as int + w as int * span / 0x1_0000_0000) as int32
    else
      ScaledFraction31(Low31(w), range as int);
      (lowerBound as int + Low31(w) * range as int / 0x8000_0000) as int32
  }

  /** Every offset of 2^31 or more collapses to the same result, so the two
      branches disagree: with the widest bounds and w = 0xFFFFFFFF the code
      returns -1 where the offset it computed gives 2^31 - 2. */
  lemma WideRangeCastSaturates()
    ensures ScaleBetween(0xFFFF_FFFF, -0x8000_0000, 0x7FFF_FFFF) == -1
    ensures IntendedScaleBetween(0xFFFF_FFFF, -0x8000_0000, 0x7FFF_FFFF) == 0x7FFF_FFFE
  {
    assert 0xFFFF_FFFF * 0xFFFF_FFFF / 0x1_0000_0000 == 0xFFFF_FFFE;
  }

  /** Both versions agree whenever the range fits in `int`. */
  lemma NarrowRangesAgree(w: bv32, lowerBound: int32, upperBound: int32)
    requires lowerBound <= upperBound
    requires upperBound as int - lowerBound as int < 0x8000_0000
    ensures ScaleBetween(w, lowerBound, upperBound) == IntendedScaleBetween(w, lowerBound, upperBound)
  {
  }

  /** NextDouble: `k / 2^31` for the low 31 bits `k` of the new w. */
  function UnitDouble(w: bv32): real
  {
    Low31(w) as real / 2147483648.0
  }

  /** The double lies in [0, 1). Kept apart from UnitDouble so that its
      uses do not carry bounds on the 31-bit conversion. */
  lemma UnitDoubleInRange(w: bv32)
    ensures 0.0 <= UnitDouble(w) < 1.0
  {
  }

  /** The scaling is exact: the 31 bits are recovered from the double. */
  lemma UnitDoubleIsExact(w: bv32)
    ensures (UnitDouble(w) * 2147483648.0).Floor == Low31(w)
  {
  }

  // ---------------------------------------------------------------------
  // The generator object

  class FastRandom {
    var x: bv32
    var y: bv32
    var z: bv32
    var w: bv32
    var seed: int32

    function Current(): State
      reads this
    {
      State(x, y, z, w)
    }

    /** `new FastRandom()`: no field is assigned, so all four words are 0. */
    constructor Unseeded()
      ensures Current() == ZeroState && seed == 0
    {
      x, y, z, w := 0, 0, 0, 0;
      seed := 0;
    }

    /** The evidently intended no-argument constructor: seed from the clock,
        whose tick count is passed in. */
    constructor FromClock(tickCount: int32)
      ensures seed == tickCount && Current() == Seeded(tickCount)
      ensures NonZero(Current())
    {
      seed := tickCount;
      x, y, z, w := 0, 0, 0, 0;
      new;
      Reinitialise(tickCount);
    }

    /** `new FastRandom(seed)` stores the seed and reinitialises. */
    constructor (seed: int32)
      ensures this.seed == seed && Current() == Seeded(seed)
    {
      this.seed := seed;
      x, y, z, w := 0, 0, 0, 0;
      new;
      Reinitialise(seed);
    }

    /** The `Seed` setter. */
    method SetSeed(value: int32)
      modifies this
      ensures seed == value && Current() == Seeded(value)
    {
      seed := value;
      Reinitialise(seed);
    }

    method Reinitialise(seed: int32)
      modifies this
      ensures Current() == Seeded(seed) && this.seed == old(this.seed)
    {
      x := ToUInt(seed);
      y := SeedY;
      z := SeedZ;
      w := SeedW;
    }

    /** The step every draw begins with: the four words are overwritten
        with their successors. */
    method Advance()
      modifies this
      ensures Current() == Step(old(Current())) && seed == old(seed)
    {
      var next := Step(Current());
      x, y, z, w := next.x, next.y, next.z, next.w;
    }

    /** Next(): a value in [0, int.MaxValue), retried on int.MaxValue. */
    method Next(retries: nat) returns (r: Option<int32>)
      modifies this
      decreases retries
      ensures r == NextDraw(old(Current()), retries).value
      ensures Current() == NextDraw(old(Current()), retries).next
      ensures seed == old(seed)
    {
      Advance();
      if w & IntMax == IntMax {
        if retries == 0 {
          return None;
        }
        r := Next(retries - 1);
        return;
      }
      return Some(Low31(w) as int32);
    }

    /** Next(upperBound): a value in [0, upperBound), or 0 when it is 0. */
    method NextBelow(upperBound: int32) returns (r: Result<int32, Error>)
      modifies this
      ensures upperBound < 0 ==>
        r == Failure(ArgumentOutOfRange("upperBound", "upperBound must be >=0")) && Current() == old(Current())
      ensures 0 <= upperBound ==>
        r == Success(ScaleBelow(Step(old(Current())).w, upperBound)) && Current() == Step(old(Current()))
      ensures seed == old(seed)
    {
      if upperBound < 0 {
        return Failure(ArgumentOutOfRange("upperBound", "upperBound must be >=0"));
      }
      Advance();
      return Success(ScaleBelow(w, upperBound));
    }

    /** Next(lowerBound, upperBound): a value in [lowerBound, upperBound). */
    method NextBetween(lowerBound: int32, upperBound: int32) returns (r: Result<int32, Error>)
      modifies this
      ensures lowerBound > upperBound ==>
        r == Failure(ArgumentOutOfRange("upperBound", "upperBound must be >=lowerBound")) && Current() == old(Current())
      ensures lowerBound <= upperBound ==>
        r == Success(ScaleBetween(Step(old(Current())).w, lowerBound, upperBound)) && Current() == Step(old(Current()))
      ensures seed == old(seed)
    {
      if lowerBound > upperBound {
        return Failure(ArgumentOutOfRange("upperBound", "upperBound must be >=lowerBound"));
      }
      Advance();
      return Success(ScaleBetween(w, lowerBound, upperBound));
    }

    /** NextDouble: one step, then `k / 2^31` for the low 31 bits `k` of
        the new w, a value in [0, 1) by UnitDoubleInRange. */
    method NextDouble() returns (d: real)
      modifies this
      ensures d == UnitDouble(Current().w) && Current() == Step(old(Current()))
      ensures seed == old(seed)
    {
      Advance();
      return UnitDouble(w);
    }
  }
}
