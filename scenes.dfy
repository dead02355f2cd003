/** Scene: an array of spheres and the nearest-hit scan over it. */
module Scenes {
  import opened Wrappers
  import opened Numerics
  import opened Rays
  import opened Materials
  import opened Spheres

  /** What Scene.Hit computes: the spheres are visited in order, each against
      the interval (tMin, closest hit so far). */
  function ScanHit(ss: seq<Sphere>, r: Ray, tMin: real, tMax: real, sqrt: real -> real): (rec: Option<HitRecord>)
    decreases |ss|
    ensures rec.Some? ==> tMin < rec.value.t < tMax
    ensures rec.Some? ==> exists k :: 0 <= k < |ss| && rec.value.material == Some(ss[k].material)
  {
    if |ss| == 0 then None
    else
      var prev := ScanHit(ss[..|ss| - 1], r, tMin, tMax, sqrt);
      var closest := if prev.Some? then prev.value.t else tMax;
      var h := Hit(ss[|ss| - 1], r, tMin, closest, sqrt);
      if h.Some? then h else prev
  }

  /** Each sphere's own hit over the whole interval (tMin, tMax). */
  function HitsAt(ss: seq<Sphere>, r: Ray, tMin: real, tMax: real, sqrt: real -> real): (hs: seq<Option<HitRecord>>)
  {
    seq(|ss|, j requires 0 <= j < |ss| => Hit(ss[j], r, tMin, tMax, sqrt))
  }

  /** The selection rule on a list of separate hits: keep a later hit only
      when it is strictly nearer than the one kept so far. */
  function FirstNearest(hs: seq<Option<HitRecord>>): (rec: Option<HitRecord>)
    decreases |hs|
  {
    if |hs| == 0 then None
    else
      var prev := FirstNearest(hs[..|hs| - 1]);
      var h := hs[|hs| - 1];
      if h.Some? && (prev.None? || h.value.t < prev.value.t) then h else prev
  }

  /** `rec` is hit k, no hit is nearer, and every hit before k is strictly
      farther: the nearest hit, ties going to the lowest index. */
  ghost predicate NearestAt(hs: seq<Option<HitRecord>>, k: int, rec: HitRecord)
  {
    && 0 <= k < |hs|
    && hs[k] == Some(rec)
    && (forall j :: 0 <= j < |hs| && hs[j].Some? ==> rec.t <= hs[j].value.t)
    && (forall j :: 0 <= j < k && hs[j].Some? ==> rec.t < hs[j].value.t)
  }

  /** FirstNearest finds nothing exactly when there is no hit, and otherwise
      the nearest hit, the first one among equals. */
  lemma {:induction false} FirstNearestIsNearest(hs: seq<Option<HitRecord>>)
    ensures FirstNearest(hs).None? <==> forall j :: 0 <= j < |hs| ==> hs[j].None?
    ensures FirstNearest(hs).Some? ==> exists k :: NearestAt(hs, k, FirstNearest(hs).value)
    decreases |hs|
  {
    var n := |hs|;
    if n == 0 {
      return;
    }
    var p := hs[..n - 1];
    FirstNearestIsNearest(p);
    assert forall j :: 0 <= j < n - 1 ==> p[j] == hs[j];
    var prev := FirstNearest(p);
    var h := hs[n - 1];
    if h.Some? && (prev.None? || h.value.t < prev.value.t) {
      assert NearestAt(hs, n - 1, h.value);
    } else if prev.Some? {
      var k :| NearestAt(p, k, prev.value);
      assert NearestAt(hs, k, prev.value);
    }
  }

  /** The scan with its shrinking closestSoFar selects exactly as
      FirstNearest does on the separate hits. */
  lemma {:induction false} ScanIsFirstNearest(ss: seq<Sphere>, r: Ray, tMin: real, tMax: real, sqrt: real -> real)
    requires IsSqrt(sqrt)
    ensures ScanHit(ss, r, tMin, tMax, sqrt) == FirstNearest(HitsAt(ss, r, tMin, tMax, sqrt))
    decreases |ss|
  {
    var n := |ss|;
    if n > 0 {
      var p := ss[..n - 1];
      ScanIsFirstNearest(p, r, tMin, tMax, sqrt);
      var prev := ScanHit(p, r, tMin, tMax, sqrt);
      HitNarrowing(ss[n - 1], r, tMin, tMax, if prev.Some? then prev.value.t else tMax, sqrt);
      assert HitsAt(ss, r, tMin, tMax, sqrt)[..n - 1] == HitsAt(p, r, tMin, tMax, sqrt);
    }
  }

  /** Scene.Hit's promise: a miss exactly when every sphere misses, and
      otherwise the nearest hit in (tMin, tMax), the lowest index among
      equals. */
  lemma ScanFindsNearest(ss: seq<Sphere>, r: Ray, tMin: real, tMax: real, sqrt: real -> real)
    requires IsSqrt(sqrt)
    ensures ScanHit(ss, r, tMin, tMax, sqrt).None? <==>
      forall j :: 0 <= j < |ss| ==> Hit(ss[j], r, tMin, tMax, sqrt).None?
    ensures ScanHit(ss, r, tMin, tMax, sqrt).Some? ==>
      exists k :: NearestAt(HitsAt(ss, r, tMin, tMax, sqrt), k, ScanHit(ss, r, tMin, tMax, sqrt).value)
  {
    ScanIsFirstNearest(ss, r, tMin, tMax, sqrt);
    FirstNearestIsNearest(HitsAt(ss, r, tMin, tMax, sqrt));
  }

  class Scene {
    var spheres: array<Sphere>

    constructor (spheres: array<Sphere>)
      ensures this.spheres == spheres
    {
      this.spheres := spheres;
    }

    /** Scene.Hit: the for loop narrows closestSoFar as it finds hits. It
        returns the flag and `rec`, which stays HitRecord.Empty on a miss. */
    method Hit(r: Ray, tMin: real, tMax: real, sqrt: real -> real) returns (hitAnything: bool, rec: HitRecord)
      ensures hitAnything <==> ScanHit(spheres[..], r, tMin, tMax, sqrt).Some?
      ensures hitAnything ==> ScanHit(spheres[..], r, tMin, tMax, sqrt) == Some(rec) && tMin < rec.t < tMax
      ensures !hitAnything ==> rec == Empty
    {
      rec := Empty;
      hitAnything := false;
      var closestSoFar := tMax;
      for i := 0 to spheres.Length
        invariant hitAnything <==> ScanHit(spheres[..i], r, tMin, tMax, sqrt).Some?
        invariant hitAnything ==> ScanHit(spheres[..i], r, tMin, tMax, sqrt) == Some(rec) && closestSoFar == rec.t
        invariant !hitAnything ==> rec == Empty && closestSoFar == tMax
        invariant closestSoFar <= tMax
      {
        var elem := spheres[i];
        assert spheres[..i + 1][..i] == spheres[..i];
        var tempRec := Spheres.Hit(elem, r, tMin, closestSoFar, sqrt);
        if tempRec.Some? {
          hitAnything := true;
          closestSoFar := tempRec.value.t;
          rec := tempRec.value;
        }
      }
      assert spheres[..spheres.Length] == spheres[..];
    }
  }
}
