/**
 * Vocabulary shared by every time-temperature curve: the error enum, the
 * result type, points and the predicates the constructors check, and a
 * reference definition of the piecewise-linear curve that the lookups are
 * proved against.
 */
module CurveTypes {
  import opened Floats

  /** `TimeTemperatureCurveError` (identical in the core and kernel crates). */
  datatype CurveError = EmptyPoints | DuplicateTime | InvalidValue

  datatype Result<T> = Ok(value: T) | Err(error: CurveError)

  /** A `(f64, f64)` pair: `.0` is the time, `.1` the temperature. */
  datatype Point = Point(time: F64, temp: F64)

  /** A point with finite time and temperature. */
  function Pt(t: real, temp: real): Point {
    Point(Finite(t), Finite(temp))
  }

  function Time(p: Point): real { Value(p.time) }

  function Temp(p: Point): real { Value(p.temp) }

  predicate PointFinite(p: Point) {
    IsFinite(p.time) && IsFinite(p.temp)
  }

  predicate AllFinite(ps: seq<Point>) {
    forall i :: 0 <= i < |ps| ==> PointFinite(ps[i])
  }

  predicate SortedByTime(ps: seq<Point>) {
    forall i, j :: 0 <= i < j < |ps| ==> Time(ps[i]) <= Time(ps[j])
  }

  predicate StrictlyIncreasing(ps: seq<Point>) {
    forall i, j :: 0 <= i < j < |ps| ==> Time(ps[i]) < Time(ps[j])
  }

  /** What every curve built by a validating constructor satisfies. */
  predicate IsValidCurve(ps: seq<Point>) {
    |ps| > 0 && AllFinite(ps) && StrictlyIncreasing(ps)
  }

  /** The times of `ps[i-1]` and `ps[i]` are within EPSILON of each other. */
  predicate CloseAt(ps: seq<Point>, i: int)
    requires 0 < i < |ps|
  {
    Close(ps[i - 1].time, ps[i].time)
  }

  /** No two neighbours (in the given order) are within EPSILON. */
  predicate Separated(ps: seq<Point>) {
    forall i :: 0 < i < |ps| ==> !CloseAt(ps, i)
  }

  /**
   * Point `i` passes the per-index checks of the `from_array` loops: it is
   * finite, and its time is not within EPSILON of its predecessor's.
   */
  predicate Accepted(ps: seq<Point>, i: int)
    requires 0 <= i < |ps|
  {
    PointFinite(ps[i]) && (i == 0 || !CloseAt(ps, i))
  }

  /** `i` is the first index that fails the per-index checks. */
  predicate FirstRejected(ps: seq<Point>, i: int) {
    0 <= i < |ps| && !Accepted(ps, i) && forall k :: 0 <= k < i ==> Accepted(ps, k)
  }

  /** The error the `from_array` loops raise at a failing index: finiteness is checked first. */
  function Rejection(ps: seq<Point>, i: int): CurveError
    requires 0 <= i < |ps|
  {
    if !PointFinite(ps[i]) then InvalidValue else DuplicateTime
  }

  lemma {:induction false} AcceptedIffFiniteAndSeparated(ps: seq<Point>)
    ensures (forall i :: 0 <= i < |ps| ==> Accepted(ps, i)) <==> AllFinite(ps) && Separated(ps)
  {
    if forall i :: 0 <= i < |ps| ==> Accepted(ps, i) {
      assert AllFinite(ps) by {
        forall i | 0 <= i < |ps| ensures PointFinite(ps[i]) { assert Accepted(ps, i); }
      }
      assert Separated(ps) by {
        forall i | 0 < i < |ps| ensures !CloseAt(ps, i) { assert Accepted(ps, i); }
      }
    }
  }

  /** A sorted, neighbour-separated, finite sequence is strictly increasing. */
  lemma SeparatedSortedIsStrict(ps: seq<Point>)
    requires AllFinite(ps) && SortedByTime(ps) && Separated(ps)
    ensures StrictlyIncreasing(ps)
  {
    forall i, j | 0 <= i < j < |ps| ensures Time(ps[i]) < Time(ps[j]) {
      assert !CloseAt(ps, i + 1);
      assert PointFinite(ps[i]) && PointFinite(ps[i + 1]);
      assert Time(ps[i]) <= Time(ps[i + 1]);
    }
  }

  /** Linear interpolation between two points with distinct times: `T0 + (t - t0) / (t1 - t0) * (T1 - T0)`. */
  function Interp(p0: Point, p1: Point, t: real): real
    requires Time(p0) != Time(p1)
  {
    Temp(p0) + (t - Time(p0)) / (Time(p1) - Time(p0)) * (Temp(p1) - Temp(p0))
  }

  /** Inside a segment with increasing times, the interpolation stays between the two end temperatures. */
  lemma InterpBetween(p0: Point, p1: Point, t: real)
    requires Time(p0) < Time(p1) && Time(p0) <= t <= Time(p1)
    ensures var r := Interp(p0, p1, t);
      (Temp(p0) <= r <= Temp(p1)) || (Temp(p1) <= r <= Temp(p0))
  {
    var u := (t - Time(p0)) / (Time(p1) - Time(p0));
    UnitFraction(t - Time(p0), Time(p1) - Time(p0));
    ScaleBetween(u, Temp(p1) - Temp(p0));
    assert Interp(p0, p1, t) == Temp(p0) + u * (Temp(p1) - Temp(p0));
  }

  /** `a / d` lies in `[0, 1]` when `0 <= a <= d` and `d > 0`. */
  lemma UnitFraction(a: real, d: real)
    requires 0.0 <= a <= d && d > 0.0
    ensures 0.0 <= a / d <= 1.0
  {
  }

  /** A fraction `u` in `[0, 1]` of a non-negative `e` lies between 0 and `e`. */
  lemma ScaleNonNegative(u: real, e: real)
    requires 0.0 <= u <= 1.0 && e >= 0.0
    ensures 0.0 <= u * e <= e
  {
    assert u * e >= 0.0;
    assert (1.0 - u) * e >= 0.0;
  }

  /** A fraction `u` in `[0, 1]` of `d` lies between 0 and `d`. */
  lemma ScaleBetween(u: real, d: real)
    requires 0.0 <= u <= 1.0
    ensures d >= 0.0 ==> 0.0 <= u * d <= d
    ensures d <= 0.0 ==> d <= u * d <= 0.0
  {
    if d >= 0.0 {
      ScaleNonNegative(u, d);
    } else {
      ScaleNonNegative(u, -d);
      assert u * (-d) == -(u * d);
    }
  }

  lemma InterpAtEnds(p0: Point, p1: Point)
    requires Time(p0) != Time(p1)
    ensures Interp(p0, p1, Time(p0)) == Temp(p0)
    ensures Interp(p0, p1, Time(p1)) == Temp(p1)
  {
    var d := Time(p1) - Time(p0);
    assert d / d == 1.0;
  }

  /**
   * Reference semantics of a curve, written as a walk along the segments
   * rather than a search: the first temperature at or before the first time,
   * linear on each segment, the last temperature at or after the last time.
   */
  function Reference(ps: seq<Point>, t: real): real
    requires |ps| > 0 && StrictlyIncreasing(ps)
    decreases |ps|
  {
    if |ps| == 1 || t <= Time(ps[0]) then Temp(ps[0])
    else if t <= Time(ps[1]) then Interp(ps[0], ps[1], t)
    else Reference(ps[1..], t)
  }

  /** Flat extrapolation to the right of the last point. */
  lemma {:induction false} ReferenceAfterLast(ps: seq<Point>, t: real)
    requires |ps| > 0 && StrictlyIncreasing(ps)
    requires t >= Time(ps[|ps| - 1])
    ensures Reference(ps, t) == Temp(ps[|ps| - 1])
  {
    if |ps| > 1 {
      assert Time(ps[0]) < Time(ps[|ps| - 1]);
      if t <= Time(ps[1]) {
        assert |ps| == 2 && t == Time(ps[1]);
        InterpAtEnds(ps[0], ps[1]);
      } else {
        ReferenceAfterLast(ps[1..], t);
      }
    }
  }

  /** Inside segment k (left end excluded) the reference is that segment's interpolation. */
  lemma {:induction false} ReferenceOnSegment(ps: seq<Point>, k: nat, t: real)
    requires StrictlyIncreasing(ps) && k + 1 < |ps|
    requires Time(ps[k]) < t <= Time(ps[k + 1])
    ensures Reference(ps, t) == Interp(ps[k], ps[k + 1], t)
  {
    if k > 0 {
      assert Time(ps[1]) <= Time(ps[k]);
      ReferenceOnSegment(ps[1..], k - 1, t);
    }
  }

  /** On each closed segment [t_k, t_k+1] the reference is that segment's interpolation. */
  lemma ReferenceOnClosedSegment(ps: seq<Point>, k: nat, t: real)
    requires StrictlyIncreasing(ps) && k + 1 < |ps|
    requires Time(ps[k]) <= t <= Time(ps[k + 1])
    ensures Reference(ps, t) == Interp(ps[k], ps[k + 1], t)
  {
    InterpAtEnds(ps[k], ps[k + 1]);
    if t == Time(ps[k]) {
      if k == 0 {
        assert Reference(ps, t) == Temp(ps[0]);
      } else {
        ReferenceOnSegment(ps, k - 1, t);
        InterpAtEnds(ps[k - 1], ps[k]);
      }
    } else {
      ReferenceOnSegment(ps, k, t);
    }
  }

  /** At a stored time the reference is that point's temperature. */
  lemma ReferenceAtPoint(ps: seq<Point>, k: nat)
    requires StrictlyIncreasing(ps) && k < |ps|
    ensures Reference(ps, Time(ps[k])) == Temp(ps[k])
  {
    if k + 1 < |ps| {
      ReferenceOnClosedSegment(ps, k, Time(ps[k]));
      InterpAtEnds(ps[k], ps[k + 1]);
    } else {
      ReferenceAfterLast(ps, Time(ps[k]));
    }
  }
}
