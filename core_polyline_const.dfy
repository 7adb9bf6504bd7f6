/**
 * `ImplPolylineConst` of the core crate
 * (core/src/time_temperature_curve/impl_polyline_const.rs): a curve over a
 * fixed array taken as it is given. `from_array` is a validating loop that
 * neither sorts nor rejects an empty array; `temperature_at` runs its own
 * lower-bound search and treats a stored time within EPSILON of the query
 * as a hit.
 */
module CorePolylineConst {
  import opened Floats
  import opened CurveTypes
  import PolylineShared
  import CorePolyline

  /** The `[(f64, f64); N]` array is passed and stored by value. */
  datatype ImplPolylineConst = ImplPolylineConst(points: seq<Point>)

  /**
   * `from_array`: walks the points in the given order and stops at the
   * first one that is non-finite (`InvalidValue`) or within EPSILON of its
   * predecessor (`DuplicateTime`); finiteness is checked first at each index.
   */
  method FromArray(points: seq<Point>) returns (r: Result<ImplPolylineConst>)
    ensures r.Ok? <==> forall i :: 0 <= i < |points| ==> Accepted(points, i)
    ensures r.Ok? ==> r.value.points == points
    ensures r.Err? ==> exists i :: FirstRejected(points, i) && r.error == Rejection(points, i)
  {
    var i := 0;
    while i < |points|
      invariant 0 <= i <= |points|
      invariant forall k :: 0 <= k < i ==> Accepted(points, k)
    {
      if !PointFinite(points[i]) {
        assert FirstRejected(points, i);
        return Err(InvalidValue);
      }
      if i > 0 && Close(points[i].time, points[i - 1].time) {
        assert FirstRejected(points, i);
        return Err(DuplicateTime);
      }
      i := i + 1;
    }
    return Ok(ImplPolylineConst(points));
  }

  /**
   * What an accepted array is: finite and separated in the given order. It
   * need not be sorted, and it may be empty.
   */
  lemma FromArrayAccepts(points: seq<Point>)
    ensures (forall i :: 0 <= i < |points| ==> Accepted(points, i)) <==> AllFinite(points) && Separated(points)
    ensures var down := [Pt(1.0, 0.0), Pt(0.0, 0.0)];
      (forall i :: 0 <= i < |down| ==> Accepted(down, i)) && !SortedByTime(down)
  {
    AcceptedIffFiniteAndSeparated(points);
    var down := [Pt(1.0, 0.0), Pt(0.0, 0.0)];
    assert !CloseAt(down, 1);
    assert Time(down[0]) > Time(down[1]);
  }

  /**
   * Validation precedence. `[(0,1), (0,2), (NaN,3)]` first fails at index 1
   * with `DuplicateTime` here, while `ImplPolyline::new`, which checks
   * finiteness of all points before any duplicate, answers `InvalidValue`.
   */
  lemma PrecedenceDiffersFromNew()
    ensures var ps := [Pt(0.0, 1.0), Pt(0.0, 2.0), Point(NaN, Finite(3.0))];
      && FirstRejected(ps, 1)
      && Rejection(ps, 1) == DuplicateTime
      && (forall i :: FirstRejected(ps, i) ==> i == 1)
      && CorePolyline.New(ps) == Err(InvalidValue)
  {
    var ps := [Pt(0.0, 1.0), Pt(0.0, 2.0), Point(NaN, Finite(3.0))];
    assert Accepted(ps, 0);
    assert CloseAt(ps, 1);
    assert !PointFinite(ps[2]);
  }

  /**
   * The first index whose time is not below `t` (`|ps|` if there is none):
   * where the search loop of `temperature_at` ends on a sorted array.
   */
  function LowerBound(ps: seq<Point>, t: real): (k: nat)
    ensures k <= |ps|
    ensures forall j :: 0 <= j < k ==> Time(ps[j]) < t
    ensures k == |ps| || t <= Time(ps[k])
  {
    if |ps| == 0 || t <= Time(ps[0]) then 0
    else 1 + LowerBound(ps[1..], t)
  }

  /** On a sorted array the two-sided bracket the search loop keeps pins down the lower bound. */
  lemma BracketIsLowerBound(ps: seq<Point>, t: real, idx: nat)
    requires SortedByTime(ps) && idx <= |ps|
    requires idx == 0 || Time(ps[idx - 1]) < t
    requires idx == |ps| || t <= Time(ps[idx])
    ensures idx == LowerBound(ps, t)
  {
  }

  /**
   * What `temperature_at` returns at an interior query once the search has
   * settled on `idx`: the stored temperature when `points[idx]` is within
   * EPSILON of the query, the interpolation between `idx - 1` and `idx`
   * otherwise.
   */
  function SnapOrInterp(ps: seq<Point>, idx: nat, t: real): (r: real)
    requires 1 <= idx < |ps| && Time(ps[idx - 1]) < t <= Time(ps[idx])
    ensures (Temp(ps[idx - 1]) <= r <= Temp(ps[idx])) || (Temp(ps[idx]) <= r <= Temp(ps[idx - 1]))
    ensures t == Time(ps[idx]) ==> r == Temp(ps[idx])
  {
    if Abs(Time(ps[idx]) - t) < EPSILON then Temp(ps[idx])
    else
      InterpBetween(ps[idx - 1], ps[idx], t);
      Interp(ps[idx - 1], ps[idx], t)
  }

  /**
   * The lookup of the const curve on a sorted finite array, stated without
   * the loop: guards, flat ends, then snap-or-interpolate at the lower bound.
   */
  function Lookup(ps: seq<Point>, time: F64): (r: Result<real>)
    requires AllFinite(ps)
    ensures r.Err? <==> !IsFinite(time)
    ensures r.Err? ==> r.error == InvalidValue
  {
    if !IsFinite(time) then Err(InvalidValue)
    else if |ps| == 0 then Ok(0.0)
    else
      var t := time.val;
      if t <= Time(ps[0]) then Ok(Temp(ps[0]))
      else if t >= Time(ps[|ps| - 1]) then Ok(Temp(ps[|ps| - 1]))
      else Ok(SnapOrInterp(ps, LowerBound(ps, t), t))
  }

  /**
   * `temperature_at` of the const curve. On every finite array, sorted or
   * not, the search stays in bounds and ends on an index in 1..N-1 with
   * `points[idx-1].0 < time <= points[idx].0`, so both points read by the
   * interpolation exist and have distinct times. On a sorted array the
   * result is `Lookup`.
   */
  method TemperatureAt(curve: ImplPolylineConst, time: F64) returns (r: Result<real>)
    requires AllFinite(curve.points)
    ensures r.Err? <==> !IsFinite(time)
    ensures r.Err? ==> r.error == InvalidValue
    ensures IsFinite(time) && |curve.points| == 0 ==> r == Ok(0.0)
    ensures var ps := curve.points;
      IsFinite(time) && |ps| > 0 && time.val <= Time(ps[0]) ==> r == Ok(Temp(ps[0]))
    ensures var ps := curve.points;
      IsFinite(time) && |ps| > 0 && Time(ps[0]) < time.val && Time(ps[|ps| - 1]) <= time.val
      ==> r == Ok(Temp(ps[|ps| - 1]))
    ensures var ps := curve.points;
      IsFinite(time) && |ps| > 0 && Time(ps[0]) < time.val < Time(ps[|ps| - 1])
      ==> exists idx :: 1 <= idx < |ps| && Time(ps[idx - 1]) < time.val <= Time(ps[idx])
                        && r == Ok(SnapOrInterp(ps, idx, time.val))
    ensures SortedByTime(curve.points) ==> r == Lookup(curve.points, time)
  {
    var ps := curve.points;
    var n := |ps|;
    if !IsFinite(time) {
      return Err(InvalidValue);
    }
    if n == 0 {
      return Ok(0.0);
    }
    var t := time.val;
    if t <= Time(ps[0]) {
      return Ok(Temp(ps[0]));
    }
    if t >= Time(ps[n - 1]) {
      return Ok(Temp(ps[n - 1]));
    }
    var idx := Search(ps, t);
    if idx < n && Abs(Time(ps[idx]) - t) < EPSILON {
      r := Ok(Temp(ps[idx]));
    } else {
      r := Ok(Interp(ps[idx - 1], ps[idx], t));
    }
    assert r == Ok(SnapOrInterp(ps, idx, t));
  }

  /**
   * The search loop of `temperature_at`: halves `[left, right)` until it is
   * empty, keeping every time left of `left` below `t` and the time at
   * `right` at or above it. It stays in bounds on any finite array, and on a
   * sorted one it ends on the lower bound.
   */
  method Search(ps: seq<Point>, t: real) returns (idx: nat)
    requires AllFinite(ps)
    ensures idx <= |ps|
    ensures idx == 0 || Time(ps[idx - 1]) < t
    ensures idx == |ps| || t <= Time(ps[idx])
    ensures SortedByTime(ps) ==> idx == LowerBound(ps, t)
  {
    var left := 0;
    var right := |ps|;
    while left < right
      invariant 0 <= left <= right <= |ps|
      invariant left == 0 || Time(ps[left - 1]) < t
      invariant right == |ps| || t <= Time(ps[right])
      decreases right - left
    {
      var mid := (left + right) / 2;
      if Time(ps[mid]) < t {
        left := mid + 1;
      } else {
        right := mid;
      }
    }
    idx := left;
    if SortedByTime(ps) {
      BracketIsLowerBound(ps, t, idx);
    }
  }

  /**
   * Away from the snap, the const lookup is the reference curve: on a valid
   * curve, whenever every stored time within EPSILON of the query equals
   * the query, `Lookup` and `Reference` agree.
   */
  lemma LookupMatchesReference(ps: seq<Point>, time: F64)
    requires IsValidCurve(ps) && IsFinite(time)
    requires forall k :: 0 <= k < |ps| && Abs(Time(ps[k]) - time.val) < EPSILON ==> Time(ps[k]) == time.val
    ensures Lookup(ps, time) == Ok(Reference(ps, time.val))
  {
    var t := time.val;
    var n := |ps|;
    if t <= Time(ps[0]) {
    } else if t >= Time(ps[n - 1]) {
      ReferenceAfterLast(ps, t);
    } else {
      var idx := LowerBound(ps, t);
      if Abs(Time(ps[idx]) - t) < EPSILON {
        ReferenceAtPoint(ps, idx);
      } else {
        ReferenceOnSegment(ps, idx - 1, t);
      }
    }
  }

  /**
   * Under the same condition the const lookup agrees with the shared lookup
   * that the other curves use.
   */
  lemma LookupMatchesShared(ps: seq<Point>, time: F64)
    requires IsValidCurve(ps) && IsFinite(time)
    requires forall k :: 0 <= k < |ps| && Abs(Time(ps[k]) - time.val) < EPSILON ==> Time(ps[k]) == time.val
    ensures Lookup(ps, time) == PolylineShared.PolylineTemperatureAt(ps, time)
  {
    LookupMatchesReference(ps, time);
    PolylineShared.LookupMatchesReference(ps, time);
  }

  /**
   * Whatever the query, an interior answer of the snap is the temperature of
   * a stored point whose time is within EPSILON of the query.
   */
  lemma SnapReturnsNearbyPoint(ps: seq<Point>, time: F64)
    requires IsValidCurve(ps) && IsFinite(time)
    requires Time(ps[0]) < time.val < Time(ps[|ps| - 1])
    ensures var k := LowerBound(ps, time.val);
      1 <= k < |ps| && Time(ps[k - 1]) < time.val <= Time(ps[k])
      && (Abs(Time(ps[k]) - time.val) < EPSILON ==> Lookup(ps, time) == Ok(Temp(ps[k])))
      && (Abs(Time(ps[k]) - time.val) >= EPSILON ==> Lookup(ps, time) == Ok(Reference(ps, time.val)))
  {
    var k := LowerBound(ps, time.val);
    if Abs(Time(ps[k]) - time.val) >= EPSILON {
      ReferenceOnSegment(ps, k - 1, time.val);
    }
  }

  /**
   * Where the two lookups part: on `[(0,0), (1,100)]` a query half an
   * EPSILON before 1 snaps to 100 here, while the shared lookup
   * interpolates to `100 - 50 * EPSILON`.
   */
  lemma SnapDivergesFromShared()
    ensures var ps := [Pt(0.0, 0.0), Pt(1.0, 100.0)];
      var time := Finite(1.0 - EPSILON / 2.0);
      && Lookup(ps, time) == Ok(100.0)
      && PolylineShared.PolylineTemperatureAt(ps, time) == Ok(100.0 - 50.0 * EPSILON)
  {
    var ps := [Pt(0.0, 0.0), Pt(1.0, 100.0)];
    var t := 1.0 - EPSILON / 2.0;
    assert LowerBound(ps, t) == 1;
    assert Abs(Time(ps[1]) - t) == EPSILON / 2.0;
    PolylineShared.LookupOnSegment(ps, 0, Finite(t));
    assert Interp(ps[0], ps[1], t) == 0.0 + (t - 0.0) / (1.0 - 0.0) * (100.0 - 0.0);
  }
}
