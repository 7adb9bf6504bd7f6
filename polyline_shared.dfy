/**
 * `polyline_temperature_at` (core/src/time_temperature_curve/polyline_shared.rs):
 * the lookup shared by the curve implementations. Guards on the query, flat
 * extrapolation at both ends, then a binary search and linear interpolation.
 */
module PolylineShared {
  import opened Floats
  import opened CurveTypes

  /** `Ok(idx)` / `Err(idx)` of `slice::binary_search_by`. */
  datatype SearchResult = Found(index: nat) | NotFound(insertAt: nat)

  /**
   * The three-way halving search of `binary_search_by` over the times in
   * `ps[lo..hi]`, with the comparator `t.partial_cmp(&time)`. The contract
   * holds for every input, sorted or not: a hit is a point at exactly `t`,
   * and a miss lies between a smaller time on its left and a larger one on
   * its right (as far as those exist).
   */
  function BinarySearchBy(ps: seq<Point>, t: real, lo: nat, hi: nat): (r: SearchResult)
    requires lo <= hi <= |ps|
    requires lo == 0 || Time(ps[lo - 1]) < t
    requires hi == |ps| || t < Time(ps[hi])
    ensures r.Found? ==> lo <= r.index < hi && Time(ps[r.index]) == t
    ensures r.NotFound? ==> lo <= r.insertAt <= hi
    ensures r.NotFound? ==> r.insertAt == 0 || Time(ps[r.insertAt - 1]) < t
    ensures r.NotFound? ==> r.insertAt == |ps| || t < Time(ps[r.insertAt])
    decreases hi - lo
  {
    if lo == hi then NotFound(lo)
    else
      var mid := lo + (hi - lo) / 2;
      if Time(ps[mid]) < t then BinarySearchBy(ps, t, mid + 1, hi)
      else if t < Time(ps[mid]) then BinarySearchBy(ps, t, lo, mid)
      else Found(mid)
  }

  function BinarySearch(ps: seq<Point>, t: real): SearchResult {
    BinarySearchBy(ps, t, 0, |ps|)
  }

  /**
   * `polyline_temperature_at(points, time)`. Points are finite: the source
   * compares times with `partial_cmp(..).unwrap()`, which panics on NaN, and
   * every curve reaching it has been checked for finiteness.
   */
  function PolylineTemperatureAt(ps: seq<Point>, time: F64): (r: Result<real>)
    requires AllFinite(ps)
    ensures r.Err? <==> !IsFinite(time)
    ensures r.Err? ==> r.error == InvalidValue
  {
    if !IsFinite(time) then Err(InvalidValue)
    else if |ps| == 0 then Ok(0.0)
    else
      var t := time.val;
      if t <= Time(ps[0]) then Ok(Temp(ps[0]))
      else if t >= Time(ps[|ps| - 1]) then Ok(Temp(ps[|ps| - 1]))
      else match BinarySearch(ps, t)
        case Found(idx) => Ok(Temp(ps[idx]))
        case NotFound(idx) => Ok(Interp(ps[idx - 1], ps[idx], t))
  }

  /** An empty slice gives 0.0 for every finite query. */
  lemma EmptyCurve(time: F64)
    requires IsFinite(time)
    ensures PolylineTemperatureAt([], time) == Ok(0.0)
  {
  }

  /** Flat extrapolation: at or before the first time the first temperature, at or after the last the last. */
  lemma FlatExtrapolation(ps: seq<Point>, time: F64)
    requires AllFinite(ps) && |ps| > 0 && IsFinite(time)
    ensures time.val <= Time(ps[0]) ==> PolylineTemperatureAt(ps, time) == Ok(Temp(ps[0]))
    ensures Time(ps[0]) < time.val && Time(ps[|ps| - 1]) <= time.val
            ==> PolylineTemperatureAt(ps, time) == Ok(Temp(ps[|ps| - 1]))
    ensures StrictlyIncreasing(ps) && Time(ps[|ps| - 1]) <= time.val
            ==> PolylineTemperatureAt(ps, time) == Ok(Temp(ps[|ps| - 1]))
  {
    if StrictlyIncreasing(ps) && Time(ps[|ps| - 1]) <= time.val && time.val <= Time(ps[0]) {
      assert |ps| == 1;
    }
  }

  /**
   * Between the end points, a miss of the search is an index in 1..len-1
   * whose neighbours bracket the query strictly, so both `points[idx - 1]`
   * and `points[idx]` are in bounds. This needs no sortedness. On a strictly
   * increasing curve the index is the insertion point of the query.
   */
  lemma InsertionIndex(ps: seq<Point>, t: real)
    requires |ps| > 0 && Time(ps[0]) < t < Time(ps[|ps| - 1])
    requires BinarySearch(ps, t).NotFound?
    ensures var idx := BinarySearch(ps, t).insertAt;
      && 1 <= idx <= |ps| - 1
      && Time(ps[idx - 1]) < t < Time(ps[idx])
      && (StrictlyIncreasing(ps) ==>
            (forall j :: 0 <= j < idx ==> Time(ps[j]) < t) &&
            (forall j :: idx <= j < |ps| ==> t < Time(ps[j])))
  {
    var idx := BinarySearch(ps, t).insertAt;
    if StrictlyIncreasing(ps) {
      forall j | 0 <= j < idx ensures Time(ps[j]) < t {
        assert Time(ps[j]) <= Time(ps[idx - 1]);
      }
      forall j | idx <= j < |ps| ensures t < Time(ps[j]) {
        assert Time(ps[idx]) <= Time(ps[j]);
      }
    }
  }

  /** On a strictly increasing curve the search hits exactly the stored times. */
  lemma SearchHitsStoredTime(ps: seq<Point>, k: nat)
    requires StrictlyIncreasing(ps) && k < |ps|
    ensures BinarySearch(ps, Time(ps[k])) == Found(k)
  {
    var t := Time(ps[k]);
    assert forall j :: 0 <= j < |ps| && j != k ==> Time(ps[j]) != t by {
      forall j | 0 <= j < |ps| && j != k ensures Time(ps[j]) != t {
        if j < k { assert Time(ps[j]) < t; } else { assert t < Time(ps[j]); }
      }
    }
  }

  /** The lookup agrees with the reference curve on every valid curve and finite query. */
  lemma LookupMatchesReference(ps: seq<Point>, time: F64)
    requires IsValidCurve(ps) && IsFinite(time)
    ensures PolylineTemperatureAt(ps, time) == Ok(Reference(ps, time.val))
  {
    var t := time.val;
    var n := |ps|;
    if t <= Time(ps[0]) {
    } else if t >= Time(ps[n - 1]) {
      ReferenceAfterLast(ps, t);
    } else {
      match BinarySearch(ps, t)
      case Found(idx) =>
        ReferenceAtPoint(ps, idx);
      case NotFound(idx) =>
        ReferenceOnSegment(ps, idx - 1, t);
    }
  }

  /**
   * Exact hit: at a stored time of a valid curve the stored temperature is
   * returned as it is.
   */
  lemma LookupAtStoredTime(ps: seq<Point>, k: nat)
    requires IsValidCurve(ps) && k < |ps|
    ensures PolylineTemperatureAt(ps, Finite(Time(ps[k]))) == Ok(Temp(ps[k]))
  {
    LookupMatchesReference(ps, Finite(Time(ps[k])));
    ReferenceAtPoint(ps, k);
  }

  /**
   * Interpolation: anywhere on the closed segment between two neighbouring
   * points, the result is `T0 + (time - t0) / (t1 - t0) * (T1 - T0)`.
   */
  lemma LookupOnSegment(ps: seq<Point>, k: nat, time: F64)
    requires IsValidCurve(ps) && k + 1 < |ps| && IsFinite(time)
    requires Time(ps[k]) <= time.val <= Time(ps[k + 1])
    ensures PolylineTemperatureAt(ps, time) == Ok(Interp(ps[k], ps[k + 1], time.val))
  {
    LookupMatchesReference(ps, time);
    ReferenceOnClosedSegment(ps, k, time.val);
  }

  /** A one-point curve is constant. */
  lemma SinglePoint(p: Point, time: F64)
    requires PointFinite(p) && IsFinite(time)
    ensures PolylineTemperatureAt([p], time) == Ok(Temp(p))
  {
  }

  /** The curve [(0,20),(10,100),(20,50)] sampled at -5, 0, 5, 10, 15, 20, 25. */
  lemma Scenario()
    ensures var ps := [Pt(0.0, 20.0), Pt(10.0, 100.0), Pt(20.0, 50.0)];
      && PolylineTemperatureAt(ps, Finite(-5.0)) == Ok(20.0)
      && PolylineTemperatureAt(ps, Finite(0.0)) == Ok(20.0)
      && PolylineTemperatureAt(ps, Finite(5.0)) == Ok(60.0)
      && PolylineTemperatureAt(ps, Finite(10.0)) == Ok(100.0)
      && PolylineTemperatureAt(ps, Finite(15.0)) == Ok(75.0)
      && PolylineTemperatureAt(ps, Finite(20.0)) == Ok(50.0)
      && PolylineTemperatureAt(ps, Finite(25.0)) == Ok(50.0)
  {
    var ps := [Pt(0.0, 20.0), Pt(10.0, 100.0), Pt(20.0, 50.0)];
    assert IsValidCurve(ps);
    LookupOnSegment(ps, 0, Finite(5.0));
    assert Interp(ps[0], ps[1], 5.0) == 20.0 + 5.0 / 10.0 * 80.0 == 60.0;
    LookupAtStoredTime(ps, 1);
    LookupOnSegment(ps, 1, Finite(15.0));
    assert Interp(ps[1], ps[2], 15.0) == 100.0 + 5.0 / 10.0 * -50.0 == 75.0;
  }
}
