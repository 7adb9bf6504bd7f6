/**
 * `ImplPolyline` of the kernel crate (kernel/src/time_temperature_curve/impl_polyline.rs).
 * Its constructor repeats the core crate's validation check for check, so
 * the model reuses that definition. Its lookup calls the kernel's own
 * `polyline_shared`; that file is not part of this model, and its core twin
 * (PolylineShared) stands in for it.
 */
module KernelPolyline {
  import opened Floats
  import opened CurveTypes
  import CorePolyline
  import PolylineShared

  datatype ImplPolyline = ImplPolyline(points: seq<Point>)

  /**
   * `ImplPolyline::new`: all-or-nothing. The error is decided in the order
   * empty, non-finite, duplicate time; a curve that is returned is finite,
   * non-empty, strictly increasing with neighbours at least EPSILON apart,
   * and holds exactly the input points.
   */
  function New(points: seq<Point>): (r: Result<ImplPolyline>)
    ensures r == Err(EmptyPoints) <==> |points| == 0
    ensures r == Err(InvalidValue) <==> |points| > 0 && !AllFinite(points)
    ensures r == Err(DuplicateTime) <==> |points| > 0 && AllFinite(points) && !r.Ok?
    ensures r.Ok? <==> |points| > 0 && AllFinite(points) && Separated(CorePolyline.SortByTime(points))
    ensures r.Ok? ==> r.value.points == CorePolyline.SortByTime(points)
    ensures r.Ok? ==> IsValidCurve(r.value.points) && multiset(r.value.points) == multiset(points)
    ensures r.Ok? ==> forall i :: 0 < i < |r.value.points| ==>
                        Time(r.value.points[i]) - Time(r.value.points[i - 1]) >= EPSILON
  {
    match CorePolyline.New(points)
    case Ok(c) =>
      assert forall i :: 0 < i < |c.points| ==> Time(c.points[i]) - Time(c.points[i - 1]) >= EPSILON by {
        forall i | 0 < i < |c.points| ensures Time(c.points[i]) - Time(c.points[i - 1]) >= EPSILON {
          assert !CloseAt(c.points, i);
          assert Time(c.points[i - 1]) < Time(c.points[i]);
        }
      }
      Ok(ImplPolyline(c.points))
    case Err(e) => Err(e)
  }

  /** Two points whose times differ by less than EPSILON, in either order, make `new` fail with `DuplicateTime`. */
  lemma NewRejectsNearDuplicates(p: Point, q: Point)
    requires PointFinite(p) && PointFinite(q) && Close(p.time, q.time)
    ensures New([p, q]) == Err(DuplicateTime)
    ensures New([q, p]) == Err(DuplicateTime)
  {
    var ps := [p, q];
    var qs := [q, p];
    assert AllFinite(ps) && AllFinite(qs);
    var sorted := if Time(p) <= Time(q) then ps else qs;
    assert SortedByTime(sorted) && CloseAt(sorted, 1);
    CorePolyline.NewIndependentOfSort(ps, sorted);
    CorePolyline.NewIndependentOfSort(qs, sorted);
  }

  /** `temperature_at` is the shared lookup over the stored points. */
  function TemperatureAt(curve: ImplPolyline, time: F64): (r: Result<real>)
    requires AllFinite(curve.points)
    ensures r.Err? <==> !IsFinite(time)
    ensures r.Err? ==> r.error == InvalidValue
    ensures IsValidCurve(curve.points) && IsFinite(time) ==> r == Ok(Reference(curve.points, time.val))
  {
    var r := PolylineShared.PolylineTemperatureAt(curve.points, time);
    if IsValidCurve(curve.points) && IsFinite(time) then
      PolylineShared.LookupMatchesReference(curve.points, time);
      r
    else r
  }

  /** A non-finite query on a curve built by `new` gives `InvalidValue`. */
  lemma NonFiniteQuery(points: seq<Point>, time: F64)
    requires New(points).Ok? && !IsFinite(time)
    ensures TemperatureAt(New(points).value, time) == Err(InvalidValue)
  {
  }

  /** Every curve `new` returns interpolates each of its segments, ends included. */
  lemma NewCurveInterpolates(points: seq<Point>, k: nat, time: F64)
    requires New(points).Ok? && IsFinite(time)
    requires var ps := New(points).value.points;
      k + 1 < |ps| && Time(ps[k]) <= time.val <= Time(ps[k + 1])
    ensures var ps := New(points).value.points;
      TemperatureAt(New(points).value, time) == Ok(Interp(ps[k], ps[k + 1], time.val))
  {
    PolylineShared.LookupOnSegment(New(points).value.points, k, time);
  }

  /** The tests of the kernel file: a one-point curve is flat. */
  lemma TestSinglePoint()
    ensures TemperatureAt(New([Pt(0.0, 42.0)]).value, Finite(-10.0)) == Ok(42.0)
    ensures TemperatureAt(New([Pt(0.0, 42.0)]).value, Finite(0.0)) == Ok(42.0)
    ensures TemperatureAt(New([Pt(0.0, 42.0)]).value, Finite(10.0)) == Ok(42.0)
  {
    CorePolyline.SinglePointCurve(Pt(0.0, 42.0), Finite(0.0));
  }

  /** The tests of the kernel file: rejected inputs. */
  lemma TestRejections()
    ensures New([]) == Err(EmptyPoints)
    ensures New([Pt(0.0, 1.0), Pt(0.0, 2.0)]) == Err(DuplicateTime)
    ensures New([Pt(0.0, 1.0), Point(NaN, Finite(2.0))]) == Err(InvalidValue)
    ensures New([Pt(0.0, 1.0), Point(Infinity(false), Finite(2.0))]) == Err(InvalidValue)
  {
    CorePolyline.NewExamples();
  }

  /** The tests of the kernel file: NaN and both infinities are rejected as queries. */
  lemma TestInvalidQueries()
    ensures var c := New([Pt(0.0, 1.0), Pt(1.0, 2.0)]);
      && c.Ok?
      && TemperatureAt(c.value, NaN) == Err(InvalidValue)
      && TemperatureAt(c.value, Infinity(false)) == Err(InvalidValue)
      && TemperatureAt(c.value, Infinity(true)) == Err(InvalidValue)
  {
    var two := [Pt(0.0, 1.0), Pt(1.0, 2.0)];
    assert AllFinite(two) && !CloseAt(two, 1);
    CorePolyline.NewIndependentOfSort(two, two);
  }

  /** The interpolation test of the kernel file: [(0,20),(10,100),(20,50)] sampled at -5, 0, 5, 10, 15, 20, 25. */
  lemma TestInterpolation()
    ensures var c := New([Pt(0.0, 20.0), Pt(10.0, 100.0), Pt(20.0, 50.0)]);
      && c.Ok?
      && TemperatureAt(c.value, Finite(-5.0)) == Ok(20.0)
      && TemperatureAt(c.value, Finite(0.0)) == Ok(20.0)
      && TemperatureAt(c.value, Finite(5.0)) == Ok(60.0)
      && TemperatureAt(c.value, Finite(10.0)) == Ok(100.0)
      && TemperatureAt(c.value, Finite(15.0)) == Ok(75.0)
      && TemperatureAt(c.value, Finite(20.0)) == Ok(50.0)
      && TemperatureAt(c.value, Finite(25.0)) == Ok(50.0)
  {
    var q := [Pt(0.0, 20.0), Pt(10.0, 100.0), Pt(20.0, 50.0)];
    assert AllFinite(q) && SortedByTime(q);
    assert !CloseAt(q, 1) && !CloseAt(q, 2);
    NewKeepsValidInput(q);
    PolylineShared.Scenario();
  }

  /** Input that is already sorted, finite and separated is stored as it is. */
  lemma NewKeepsValidInput(q: seq<Point>)
    requires |q| > 0 && AllFinite(q) && SortedByTime(q) && Separated(q)
    ensures New(q) == Ok(ImplPolyline(q))
  {
    CorePolyline.NewIndependentOfSort(q, q);
  }
}
