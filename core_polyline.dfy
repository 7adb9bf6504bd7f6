/**
 * `ImplPolyline` of the core crate (core/src/time_temperature_curve/impl_polyline.rs):
 * a heap-backed curve whose constructor validates, sorts and checks for
 * duplicate times, and whose lookup is an inline copy of the shared one.
 */
module CorePolyline {
  import opened Floats
  import opened CurveTypes
  import PolylineShared

  datatype ImplPolyline = ImplPolyline(points: seq<Point>)

  /**
   * Stable insertion of `p` into `s`: before the first element whose time is
   * not smaller.
   */
  function InsertByTime(p: Point, s: seq<Point>): (r: seq<Point>)
    ensures multiset(r) == multiset(s) + multiset{p}
    ensures |r| == |s| + 1
    ensures r[0] == p || (|s| > 0 && r[0] == s[0])
  {
    if s == [] || Time(p) <= Time(s[0]) then [p] + s
    else
      assert s == [s[0]] + s[1..];
      [s[0]] + InsertByTime(p, s[1..])
  }

  lemma {:induction false} InsertKeepsSorted(p: Point, s: seq<Point>)
    requires SortedByTime(s)
    ensures SortedByTime(InsertByTime(p, s))
  {
    if s != [] && Time(p) > Time(s[0]) {
      var rest := InsertByTime(p, s[1..]);
      InsertKeepsSorted(p, s[1..]);
      var r := [s[0]] + rest;
      assert InsertByTime(p, s) == r;
      forall i, j | 0 <= i < j < |r| ensures Time(r[i]) <= Time(r[j]) {
        if i == 0 {
          assert Time(s[0]) <= Time(rest[0]);
          assert Time(rest[0]) <= Time(rest[j - 1]);
        } else {
          assert r[i] == rest[i - 1] && r[j] == rest[j - 1];
        }
      }
    }
  }

  /**
   * The ordering `points.sort_by(|a, b| a.0.partial_cmp(&b.0).unwrap())`
   * produces. Only its being a sorted permutation matters: see
   * `NewIndependentOfSort`.
   */
  function SortByTime(s: seq<Point>): (r: seq<Point>)
    ensures multiset(r) == multiset(s)
    ensures |r| == |s|
    ensures SortedByTime(r)
  {
    if s == [] then []
    else
      assert s == [s[0]] + s[1..];
      InsertKeepsSorted(s[0], SortByTime(s[1..]));
      InsertByTime(s[0], SortByTime(s[1..]))
  }

  /**
   * `ImplPolyline::new`: empty input, then non-finite values, then (after
   * sorting) neighbouring times within EPSILON.
   */
  function New(points: seq<Point>): (r: Result<ImplPolyline>)
    ensures r == Err(EmptyPoints) <==> |points| == 0
    ensures r == Err(InvalidValue) <==> |points| > 0 && !AllFinite(points)
    ensures r.Ok? ==> IsValidCurve(r.value.points) && Separated(r.value.points)
    ensures r.Ok? ==> multiset(r.value.points) == multiset(points)
  {
    if |points| == 0 then Err(EmptyPoints)
    else if exists i :: 0 <= i < |points| && !PointFinite(points[i]) then Err(InvalidValue)
    else
      var sorted := SortByTime(points);
      if exists i :: 0 < i < |sorted| && CloseAt(sorted, i) then Err(DuplicateTime)
      else
        assert AllFinite(sorted) by {
          forall i | 0 <= i < |sorted| ensures PointFinite(sorted[i]) {
            assert sorted[i] in multiset(points);
          }
        }
        SeparatedSortedIsStrict(sorted);
        Ok(ImplPolyline(sorted))
  }

  /** Two sequences with the same elements, one sorted and one strictly increasing, are equal. */
  lemma {:induction false} SortedEqualsStrict(a: seq<Point>, b: seq<Point>)
    requires SortedByTime(a) && StrictlyIncreasing(b)
    requires multiset(a) == multiset(b)
    ensures a == b
  {
    assert |a| == |multiset(a)| == |b|;
    if |a| > 0 {
      SameHead(a, b);
      TailsSameElements(a, b);
      var a', b' := a[1..], b[1..];
      assert SortedByTime(a') by {
        forall i, j | 0 <= i < j < |a'| ensures Time(a'[i]) <= Time(a'[j]) {
          assert a'[i] == a[i + 1] && a'[j] == a[j + 1];
        }
      }
      assert StrictlyIncreasing(b') by {
        forall i, j | 0 <= i < j < |b'| ensures Time(b'[i]) < Time(b'[j]) {
          assert b'[i] == b[i + 1] && b'[j] == b[j + 1];
        }
      }
      SortedEqualsStrict(a', b');
      assert a == [a[0]] + a' && b == [b[0]] + b';
    }
  }

  lemma TailsSameElements(a: seq<Point>, b: seq<Point>)
    requires multiset(a) == multiset(b) && |a| > 0 && |b| > 0 && a[0] == b[0]
    ensures multiset(a[1..]) == multiset(b[1..])
  {
    assert a == [a[0]] + a[1..];
    assert b == [b[0]] + b[1..];
    assert multiset(a) == multiset{a[0]} + multiset(a[1..]);
    assert multiset(b) == multiset{b[0]} + multiset(b[1..]);
    assert multiset(a[1..]) == multiset(a) - multiset{a[0]};
    assert multiset(b[1..]) == multiset(b) - multiset{b[0]};
  }

  lemma SameHead(a: seq<Point>, b: seq<Point>)
    requires SortedByTime(a) && StrictlyIncreasing(b)
    requires multiset(a) == multiset(b) && |a| > 0 && |b| > 0
    ensures a[0] == b[0]
  {
    assert a[0] in multiset(b);
    var k :| 0 <= k < |b| && b[k] == a[0];
    assert b[0] in multiset(a);
    var m :| 0 <= m < |a| && a[m] == b[0];
    assert Time(a[0]) <= Time(a[m]);
    assert Time(b[k]) <= Time(b[0]);
  }

  /**
   * The result of `new` does not depend on the sort algorithm: for ANY sorted
   * permutation `q` of the finite input, `new` succeeds with exactly `q` when
   * `q`'s neighbours are separated, and reports `DuplicateTime` otherwise.
   */
  lemma NewIndependentOfSort(points: seq<Point>, q: seq<Point>)
    requires |points| > 0 && AllFinite(points)
    requires SortedByTime(q) && multiset(q) == multiset(points)
    ensures New(points) == if Separated(q) then Ok(ImplPolyline(q)) else Err(DuplicateTime)
  {
    var s := SortByTime(points);
    assert AllFinite(q) by {
      forall i | 0 <= i < |q| ensures PointFinite(q[i]) {
        assert q[i] in multiset(points);
      }
    }
    assert AllFinite(s) by {
      forall i | 0 <= i < |s| ensures PointFinite(s[i]) {
        assert s[i] in multiset(points);
      }
    }
    if Separated(q) {
      SeparatedSortedIsStrict(q);
      SortedEqualsStrict(s, q);
    } else if Separated(s) {
      SeparatedSortedIsStrict(s);
      SortedEqualsStrict(q, s);
      assert false;
    }
  }

  /**
   * Duplicate detection does not depend on input order: permuting the input
   * never changes the outcome of `new`.
   */
  lemma NewPermutationInvariant(p: seq<Point>, q: seq<Point>)
    requires multiset(p) == multiset(q)
    ensures New(p) == New(q)
  {
    assert |p| == |multiset(p)| == |q|;
    if |p| > 0 {
      if AllFinite(p) {
        assert AllFinite(q) by {
          forall i | 0 <= i < |q| ensures PointFinite(q[i]) {
            assert q[i] in multiset(p);
            var j :| 0 <= j < |p| && p[j] == q[i];
          }
        }
        NewIndependentOfSort(p, SortByTime(p));
        NewIndependentOfSort(q, SortByTime(p));
      } else {
        var i :| 0 <= i < |p| && !PointFinite(p[i]);
        assert p[i] in multiset(q);
        var j :| 0 <= j < |q| && q[j] == p[i];
      }
    }
  }

  /** The constructor's tests: empty, NaN and infinite inputs, and a duplicate in either order. */
  lemma NewExamples()
    ensures New([]) == Err(EmptyPoints)
    ensures New([Point(Finite(0.0), NaN)]) == Err(InvalidValue)
    ensures New([Pt(0.0, 1.0), Point(NaN, Finite(2.0))]) == Err(InvalidValue)
    ensures New([Pt(0.0, 1.0), Point(Infinity(false), Finite(2.0))]) == Err(InvalidValue)
    ensures New([Pt(0.0, 1.0), Pt(0.0, 2.0)]) == Err(DuplicateTime)
    ensures New([Pt(1.0, 5.0), Pt(1.0, 9.0)]) == Err(DuplicateTime)
    ensures New([Pt(1.0, 9.0), Pt(1.0, 5.0)]) == Err(DuplicateTime)
  {
    var nanTemp := [Point(Finite(0.0), NaN)];
    assert !PointFinite(nanTemp[0]);
    var nanTime := [Pt(0.0, 1.0), Point(NaN, Finite(2.0))];
    assert !PointFinite(nanTime[1]);
    var infTime := [Pt(0.0, 1.0), Point(Infinity(false), Finite(2.0))];
    assert !PointFinite(infTime[1]);
    NewDuplicatePair(0.0, 1.0, 2.0);
    NewDuplicatePair(1.0, 5.0, 9.0);
    NewDuplicatePair(1.0, 9.0, 5.0);
  }

  lemma NewDuplicatePair(t: real, a: real, b: real)
    ensures New([Pt(t, a), Pt(t, b)]) == Err(DuplicateTime)
  {
    var q := [Pt(t, a), Pt(t, b)];
    assert AllFinite(q);
    assert CloseAt(q, 1);
    NewIndependentOfSort(q, q);
  }

  /**
   * `ImplPolyline::temperature_at`: the core file carries its own copy of
   * the shared lookup; on every curve and query it returns what
   * `polyline_temperature_at` returns.
   */
  function TemperatureAt(curve: ImplPolyline, time: F64): (r: Result<real>)
    requires AllFinite(curve.points)
    ensures r == PolylineShared.PolylineTemperatureAt(curve.points, time)
  {
    var ps := curve.points;
    if !IsFinite(time) then Err(InvalidValue)
    else if |ps| == 0 then Ok(0.0)
    else
      var t := time.val;
      if t <= Time(ps[0]) then Ok(Temp(ps[0]))
      else if t >= Time(ps[|ps| - 1]) then Ok(Temp(ps[|ps| - 1]))
      else match PolylineShared.BinarySearch(ps, t)
        case Found(idx) => Ok(Temp(ps[idx]))
        case NotFound(idx) => Ok(Interp(ps[idx - 1], ps[idx], t))
  }

  /** A curve built from one point returns that point's temperature at every finite time. */
  lemma SinglePointCurve(p: Point, time: F64)
    requires PointFinite(p) && IsFinite(time)
    ensures New([p]) == Ok(ImplPolyline([p]))
    ensures TemperatureAt(ImplPolyline([p]), time) == Ok(Temp(p))
  {
    assert SortByTime([p]) == [p];
    PolylineShared.SinglePoint(p, time);
  }

  /** A curve from `new` answers every finite query with the reference curve, and rejects non-finite queries. */
  lemma NewCurveLookup(points: seq<Point>, time: F64)
    requires New(points).Ok?
    ensures var c := New(points).value;
      TemperatureAt(c, time) == if IsFinite(time) then Ok(Reference(c.points, time.val)) else Err(InvalidValue)
  {
    if IsFinite(time) {
      PolylineShared.LookupMatchesReference(New(points).value.points, time);
    }
  }

  /** The curve [(0,20),(10,100),(20,50)] given out of order is sorted by `new`. */
  lemma ScenarioSorted()
    ensures New([Pt(10.0, 100.0), Pt(0.0, 20.0), Pt(20.0, 50.0)])
         == Ok(ImplPolyline([Pt(0.0, 20.0), Pt(10.0, 100.0), Pt(20.0, 50.0)]))
  {
    var input := [Pt(10.0, 100.0), Pt(0.0, 20.0), Pt(20.0, 50.0)];
    var q := [Pt(0.0, 20.0), Pt(10.0, 100.0), Pt(20.0, 50.0)];
    assert input == [input[0]] + [input[1]] + [input[2]];
    assert q == [input[1]] + [input[0]] + [input[2]];
    assert multiset(q) == multiset(input);
    assert AllFinite(input);
    assert SortedByTime(q);
    assert !CloseAt(q, 1) && !CloseAt(q, 2);
    NewIndependentOfSort(input, q);
  }

  /** ... and sampled as in the tests. */
  lemma Scenario()
    ensures var c := New([Pt(10.0, 100.0), Pt(0.0, 20.0), Pt(20.0, 50.0)]);
      && c.Ok?
      && TemperatureAt(c.value, Finite(-5.0)) == Ok(20.0)
      && TemperatureAt(c.value, Finite(0.0)) == Ok(20.0)
      && TemperatureAt(c.value, Finite(5.0)) == Ok(60.0)
      && TemperatureAt(c.value, Finite(10.0)) == Ok(100.0)
      && TemperatureAt(c.value, Finite(15.0)) == Ok(75.0)
      && TemperatureAt(c.value, Finite(20.0)) == Ok(50.0)
      && TemperatureAt(c.value, Finite(25.0)) == Ok(50.0)
  {
    ScenarioSorted();
    PolylineShared.Scenario();
  }
}
