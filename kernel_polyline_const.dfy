/**
 * `ImplPolylineConst` of the kernel crate
 * (kernel/src/time_temperature_curve/impl_polyline_const.rs). `from_array`
 * runs the same per-index checks as the core one but panics instead of
 * returning an error; `temperature_at` hands the stored array to the shared
 * lookup.
 */
module KernelPolylineConst {
  import opened Floats
  import opened CurveTypes
  import PolylineShared
  import CorePolylineConst

  datatype ImplPolylineConst = ImplPolylineConst(points: seq<Point>)

  /**
   * How `from_array` ends: with a curve, or with a panic whose message
   * starts with the name of the error kind.
   */
  datatype Outcome = Built(curve: ImplPolylineConst) | Panicked(kind: CurveError)

  /**
   * `from_array`: panics with `InvalidValue` at the first non-finite point
   * and with `DuplicateTime` at the first point within EPSILON of its
   * predecessor, whichever index comes first; otherwise stores the array
   * as it is.
   */
  method FromArray(points: seq<Point>) returns (r: Outcome)
    ensures r.Built? <==> AllFinite(points) && Separated(points)
    ensures r.Built? ==> r.curve.points == points
    ensures r.Panicked? ==> exists i :: FirstRejected(points, i) && r.kind == Rejection(points, i)
  {
    var i := 0;
    while i < |points|
      invariant 0 <= i <= |points|
      invariant forall k :: 0 <= k < i ==> Accepted(points, k)
    {
      if !PointFinite(points[i]) {
        assert FirstRejected(points, i);
        AcceptedIffFiniteAndSeparated(points);
        return Panicked(InvalidValue);
      }
      if i > 0 && Close(points[i].time, points[i - 1].time) {
        assert FirstRejected(points, i);
        AcceptedIffFiniteAndSeparated(points);
        return Panicked(DuplicateTime);
      }
      i := i + 1;
    }
    AcceptedIffFiniteAndSeparated(points);
    return Built(ImplPolylineConst(points));
  }

  /**
   * The kernel constructor panics on exactly the arrays the core one
   * rejects, and with the same error kind; on the others both store the
   * array unchanged.
   */
  method BothConstructors(points: seq<Point>) returns (kernel: Outcome, core: Result<CorePolylineConst.ImplPolylineConst>)
    ensures kernel.Built? <==> core.Ok?
    ensures kernel.Built? ==> kernel.curve.points == core.value.points == points
    ensures kernel.Panicked? ==> kernel.kind == core.error
  {
    kernel := FromArray(points);
    core := CorePolylineConst.FromArray(points);
    AcceptedIffFiniteAndSeparated(points);
    if kernel.Panicked? {
      var i :| FirstRejected(points, i) && kernel.kind == Rejection(points, i);
      var j :| FirstRejected(points, j) && core.error == Rejection(points, j);
      FirstRejectedUnique(points, i, j);
    }
  }

  /** A failing array has exactly one first failing index. */
  lemma {:induction false} FirstRejectedUnique(ps: seq<Point>, i: int, j: int)
    requires FirstRejected(ps, i) && FirstRejected(ps, j)
    ensures i == j
  {
  }

  /** `temperature_at` is the shared lookup over the stored array. */
  function TemperatureAt(curve: ImplPolylineConst, time: F64): (r: Result<real>)
    requires AllFinite(curve.points)
    ensures r.Err? <==> !IsFinite(time)
    ensures r.Err? ==> r.error == InvalidValue
    ensures |curve.points| == 0 && IsFinite(time) ==> r == Ok(0.0)
    ensures IsValidCurve(curve.points) && IsFinite(time) ==> r == Ok(Reference(curve.points, time.val))
  {
    var r := PolylineShared.PolylineTemperatureAt(curve.points, time);
    if IsValidCurve(curve.points) && IsFinite(time) then
      PolylineShared.LookupMatchesReference(curve.points, time);
      r
    else r
  }

  /**
   * The `VALID` constant of the kernel tests, `[(0,10), (5,20), (10,30)]`,
   * sampled at -1, 0, 2.5, 5, 7.5, 10 and 15.
   */
  lemma Scenario()
    ensures var c := ImplPolylineConst([Pt(0.0, 10.0), Pt(5.0, 20.0), Pt(10.0, 30.0)]);
      && TemperatureAt(c, Finite(-1.0)) == Ok(10.0)
      && TemperatureAt(c, Finite(0.0)) == Ok(10.0)
      && TemperatureAt(c, Finite(2.5)) == Ok(15.0)
      && TemperatureAt(c, Finite(5.0)) == Ok(20.0)
      && TemperatureAt(c, Finite(7.5)) == Ok(25.0)
      && TemperatureAt(c, Finite(10.0)) == Ok(30.0)
      && TemperatureAt(c, Finite(15.0)) == Ok(30.0)
  {
    var ps := [Pt(0.0, 10.0), Pt(5.0, 20.0), Pt(10.0, 30.0)];
    assert IsValidCurve(ps);
    PolylineShared.LookupOnSegment(ps, 0, Finite(2.5));
    assert Interp(ps[0], ps[1], 2.5) == 10.0 + 2.5 / 5.0 * 10.0 == 15.0;
    PolylineShared.LookupAtStoredTime(ps, 1);
    PolylineShared.LookupOnSegment(ps, 1, Finite(7.5));
    assert Interp(ps[1], ps[2], 7.5) == 20.0 + 2.5 / 5.0 * 10.0 == 25.0;
  }

  /**
   * The two arrays of the commented-out compile-fail examples: a NaN
   * temperature panics with `InvalidValue`, a repeated time with
   * `DuplicateTime`.
   */
  lemma RejectedExamples()
    ensures var nan := [Point(Finite(0.0), NaN), Pt(1.0, 2.0)];
      FirstRejected(nan, 0) && Rejection(nan, 0) == InvalidValue
    ensures var dup := [Pt(0.0, 1.0), Pt(0.0, 2.0)];
      FirstRejected(dup, 1) && Rejection(dup, 1) == DuplicateTime
  {
    var dup := [Pt(0.0, 1.0), Pt(0.0, 2.0)];
    assert Accepted(dup, 0) && CloseAt(dup, 1);
  }
}
