/**
 * The scene (src/hittable_list.rs): an ordered list of spheres whose `Hit`
 * scans every member, narrowing the window's upper bound to the nearest
 * hit found so far, so that the hit it keeps is the nearest of all.
 */
module HittableLists {
  import opened VecMath
  import opened Rays
  import opened Materials
  import opened Spheres
  import opened Options

  datatype HittableList = HittableList(list: seq<Sphere>)

  function New(list: seq<Sphere>): (w: HittableList)
    ensures w.list == list
  {
    HittableList(list)
  }

  /**
   * What each member reports when queried alone with the whole window
   * `(tMin, tMax)`.
   */
  ghost function Hits(list: seq<Sphere>, r: Ray, tMin: real, tMax: real, sqrt: real -> real)
    : (hs: seq<Option<HitRecord>>)
    requires IsSqrt(sqrt)
    ensures |hs| == |list|
    ensures forall j :: 0 <= j < |list| ==> hs[j] == Spheres.Hit(list[j], r, tMin, tMax, sqrt)
  {
    seq(|list|, j requires 0 <= j < |list| => Spheres.Hit(list[j], r, tMin, tMax, sqrt))
  }

  /**
   * `rec` is the nearest of the first `n` reports in `hs`: it is `None`
   * exactly when none of them is a hit, and otherwise it is the hit reported
   * at some `i` whose `t` is no larger than any other hit's and strictly
   * smaller than that of every hit before `i`, so that on a tie the earliest
   * report wins.
   */
  ghost predicate NearestIn(hs: seq<Option<HitRecord>>, n: nat, rec: Option<HitRecord>, i: int)
    requires n <= |hs|
  {
    (rec.None? <==> forall j :: 0 <= j < n ==> hs[j].None?)
    && (rec.Some? ==>
      0 <= i < n
      && hs[i] == rec
      && (forall j :: 0 <= j < n && hs[j].Some? ==> rec.value.t <= hs[j].value.t)
      && (forall j :: 0 <= j < i && hs[j].Some? ==> rec.value.t < hs[j].value.t))
  }

  /** `rec` is the nearest of the hits the first `n` members report for `(tMin, tMax)`. */
  ghost predicate NearestAmong(
    list: seq<Sphere>, n: nat, r: Ray, tMin: real, tMax: real, sqrt: real -> real,
    rec: Option<HitRecord>, i: int)
    requires IsSqrt(sqrt) && n <= |list|
  {
    NearestIn(Hits(list, r, tMin, tMax, sqrt), n, rec, i)
  }

  /**
   * The nearest hit over all members within `(tMin, tMax)`. The members are
   * queried in order with the window `(tMin, closestSoFar)`; a member that
   * hits lowers `closestSoFar` to its own `t`.
   */
  method Hit(world: HittableList, r: Ray, tMin: real, tMax: real, sqrt: real -> real)
    returns (rec: Option<HitRecord>)
    requires IsSqrt(sqrt)
    ensures rec.None? <==>
      forall j :: 0 <= j < |world.list| ==> Spheres.Hit(world.list[j], r, tMin, tMax, sqrt).None?
    ensures rec.Some? ==> tMin < rec.value.t < tMax
    ensures exists i :: NearestAmong(world.list, |world.list|, r, tMin, tMax, sqrt, rec, i)
  {
    var closestSoFar := tMax;
    rec := None;
    ghost var best := -1;
    for k := 0 to |world.list|
      invariant closestSoFar == if rec.Some? then rec.value.t else tMax
      invariant rec.Some? ==> tMin < rec.value.t < tMax
      invariant NearestAmong(world.list, k, r, tMin, tMax, sqrt, rec, best)
    {
      var tempRec := Spheres.Hit(world.list[k], r, tMin, closestSoFar, sqrt);
      ScanStep(world.list, k, r, tMin, tMax, closestSoFar, sqrt, rec, best);
      match tempRec {
        case Some(hit) =>
          closestSoFar := hit.t;
          rec := Some(hit);
          best := k;
        case None =>
      }
    }
  }

  /**
   * One step of the scan: querying member `k` with the narrowed window and
   * keeping its hit, if any, extends the nearest hit of the first `k`
   * members to the first `k + 1`. A kept hit lies strictly below the
   * current bound, so each replacement strictly lowers it.
   */
  lemma ScanStep(
    list: seq<Sphere>, k: nat, r: Ray, tMin: real, tMax: real, closest: real, sqrt: real -> real,
    rec: Option<HitRecord>, best: int)
    requires IsSqrt(sqrt) && k < |list|
    requires closest == if rec.Some? then rec.value.t else tMax
    requires NearestAmong(list, k, r, tMin, tMax, sqrt, rec, best)
    ensures var temp := Spheres.Hit(list[k], r, tMin, closest, sqrt);
      match temp
      case Some(hit) =>
        hit.t < closest && NearestAmong(list, k + 1, r, tMin, tMax, sqrt, temp, k)
      case None =>
        NearestAmong(list, k + 1, r, tMin, tMax, sqrt, rec, best)
  {
    var hs := Hits(list, r, tMin, tMax, sqrt);
    var temp := Spheres.Hit(list[k], r, tMin, closest, sqrt);
    HitShrink(list[k], r, tMin, tMax, closest, sqrt);
    NearestStep(hs, k, tMax, closest, rec, best, temp);
  }

  /**
   * The scan step on the reports alone: the `k`-th report, cut to the
   * window below `closest`, either replaces `rec` or leaves it the nearest.
   */
  lemma NearestStep(
    hs: seq<Option<HitRecord>>, k: nat, tMax: real, closest: real,
    rec: Option<HitRecord>, best: int, temp: Option<HitRecord>)
    requires k < |hs|
    requires forall j :: 0 <= j < |hs| && hs[j].Some? ==> hs[j].value.t < tMax
    requires closest == if rec.Some? then rec.value.t else tMax
    requires NearestIn(hs, k, rec, best)
    requires temp == if hs[k].Some? && hs[k].value.t < closest then hs[k] else None
    ensures temp.Some? ==> temp.value.t < closest && NearestIn(hs, k + 1, temp, k)
    ensures temp.None? ==> NearestIn(hs, k + 1, rec, best)
  {
  }

  /**
   * At most one result meets the specification of `Hit`, so that
   * specification fixes the result completely.
   */
  lemma NearestIsUnique(
    list: seq<Sphere>, r: Ray, tMin: real, tMax: real, sqrt: real -> real,
    rec1: Option<HitRecord>, i1: int, rec2: Option<HitRecord>, i2: int)
    requires IsSqrt(sqrt)
    requires NearestAmong(list, |list|, r, tMin, tMax, sqrt, rec1, i1)
    requires NearestAmong(list, |list|, r, tMin, tMax, sqrt, rec2, i2)
    ensures rec1 == rec2
  {
  }
}
