# tawa-rs thermal-control core, modelled in Dafny

tawa-rs is a small toolkit for embedded thermal control. This project models its core and proves properties about it:

- **Time-temperature curves.** A curve is a polyline of `(time, temp)` points. The shared lookup `polyline_temperature_at` works like this:
  - it rejects a NaN or infinite query;
  - it returns `0.0` for an empty curve;
  - outside the range of the points it returns the end temperature;
  - inside the range it binary-searches and interpolates linearly.

  The curve is implemented four times:
  - `ImplPolyline::new` in the `core` crate and in the `kernel` crate. It validates, sorts, then rejects near-duplicate times.
  - `ImplPolylineConst::from_array`, also once per crate. It validates in the given order.
- **PID controller.** The state is the previous error and the integral. `update` clamps the integral to the output limits (anti-windup). The derivative term is 0 when `dt <= 0`. `reset` zeroes the state.
- **Folder.** It holds up to sixteen entry slots. Entries are appended at the end and removed by shifting later slots left.
- **Key-value store.** It hands out keys of the form `"<prefix>_<id>"` and resolves them again by splitting at the last `_`.

Modules, one per source file:

| module | file | models |
|---|---|---|
| `Floats` | `floats.dfy` | `f64` as an exact real or a NaN/infinity tag; `f64::EPSILON`; the `abs() < EPSILON` test |
| `CurveTypes` | `curve_types.dfy` | the error enum, points, validity predicates; `Reference`, a segment-walk definition of the curve that the lookups are proved against |
| `PolylineShared` | `polyline_shared.dfy` | `polyline_temperature_at` and `binary_search_by` |
| `CorePolyline` | `core_polyline.dfy` | the core `ImplPolyline` |
| `KernelPolyline` | `kernel_polyline.dfy` | the kernel `ImplPolyline` |
| `CorePolylineConst` | `core_polyline_const.dfy` | the core `ImplPolylineConst`: a loop validator, and a lower-bound loop with an EPSILON snap |
| `KernelPolylineConst` | `kernel_polyline_const.dfy` | the kernel `ImplPolylineConst`: a panicking loop validator, and a lookup that delegates to the shared one |
| `Pid` | `pid.dfy` | `PID` as a class over `PIDConstants`, `PIDState` and `PIDLimits` |
| `Folders` | `folder.dfy` | `Folder` as a class over a 16-slot array and a count |
| `KvStore` | `kv_store.dfy` | `KvStoreBTreeImpl` as a class over a map and `next_id`, plus the key format and key parsing |

## How the model is built

- **Numbers.** Values are exact reals. NaN and the infinities are separate tags, so `is_finite` and the `abs() < EPSILON` comparison act as they do in IEEE arithmetic on those values. EPSILON is 2^-52.
- **Sorting.** `Vec::sort_by` is modelled by a stable insertion sort. `CorePolyline.NewIndependentOfSort` proves that `new` gives the same result for any sorted permutation, so the choice of sort does not matter.
- **Searching.** `binary_search_by` is the classic three-way halving search. Its contract holds for any input, sorted or not:
  - a hit is a point with exactly the query's time;
  - a miss lies between a smaller time and a larger one.

### Where the implementations differ

The four curve implementations differ from each other, and in places from what their documentation suggests. The model follows the code.

- **`ImplPolylineConst` validation.**
  - Neither `from_array` sorts its input or rejects an empty array (`CorePolylineConst.FromArrayAccepts`).
  - Validation goes index by index, and at each index finiteness is checked before the duplicate test. So `[(0,1),(0,2),(NaN,3)]` gives `DuplicateTime` from `from_array` but `InvalidValue` from `new` (`CorePolylineConst.PrecedenceDiffersFromNew`).
  - The kernel `from_array` repeats the loop instead of wrapping the core one. It panics on exactly the inputs the core one rejects, with the same error kind (`KernelPolylineConst.BothConstructors`).
- **Core `ImplPolylineConst` lookup.** This lookup counts the first stored time at or above the query as a hit when it is within EPSILON of the query. A stored time just below the query is never snapped to. The shared lookup needs exact equality.
  - Away from that case the two lookups agree (`CorePolylineConst.LookupMatchesShared`).
  - Near a stored time they can differ: `CorePolylineConst.SnapDivergesFromShared`.
- **Lower-bound loop on unsorted arrays.** The core const lookup's search loop stays in bounds on any array of finite points, sorted or not. It always ends on an index `idx` with `points[idx-1].0 < time <= points[idx].0`.

## Model

| member | source | states |
|---|---|---|
| `Floats.Close` | core/src/time_temperature_curve/impl_polyline.rs:20 | two doubles are close only when both are finite, and then exactly when each lies strictly within EPSILON of the other |
| `CurveTypes.AcceptedIffFiniteAndSeparated` | core/src/time_temperature_curve/impl_polyline_const.rs:12-23 | every index passes the per-index checks of `from_array` iff all points are finite and no neighbours (in the given order) are within EPSILON |
| `CurveTypes.SeparatedSortedIsStrict` | core/src/time_temperature_curve/impl_polyline.rs:19-22 | a finite, sorted, neighbour-separated sequence is strictly increasing in time |
| `CurveTypes.InterpBetween` | core/src/time_temperature_curve/polyline_shared.rs:20-23 | on a segment with increasing times, every query inside it gets a temperature between the two end temperatures |
| `CurveTypes.InterpAtEnds` | core/src/time_temperature_curve/polyline_shared.rs:20-23 | the interpolation formula gives `T0` at `t0` and `T1` at `t1` |
| `CurveTypes.ReferenceAfterLast` | core/src/time_temperature_curve/polyline_shared.rs:14-15 | at or after the last time, the reference curve is the last temperature |
| `CurveTypes.ReferenceOnSegment` | core/src/time_temperature_curve/polyline_shared.rs:19-23 | for `t_k < t <= t_k+1`, the reference curve is the interpolation between points k and k+1 |
| `CurveTypes.ReferenceOnClosedSegment` | core/src/time_temperature_curve/polyline_shared.rs:17-23 | the same on the closed segment `[t_k, t_k+1]` |
| `CurveTypes.ReferenceAtPoint` | core/src/time_temperature_curve/polyline_shared.rs:17-18 | at a stored time, the reference curve is that point's temperature |
| `PolylineShared.BinarySearchBy` | core/src/time_temperature_curve/polyline_shared.rs:17 | on any input, a hit is an index whose time equals the query, and a miss is an index whose left neighbour is smaller and whose right neighbour is larger |
| `PolylineShared.PolylineTemperatureAt` | core/src/time_temperature_curve/polyline_shared.rs:4-26 | the result is an error exactly for a non-finite query, and that error is `InvalidValue` |
| `PolylineShared.EmptyCurve` | core/src/time_temperature_curve/polyline_shared.rs:8-10 | an empty slice gives `Ok(0.0)` for every finite query |
| `PolylineShared.FlatExtrapolation` | core/src/time_temperature_curve/polyline_shared.rs:11-16 | at or before the first time: the first temperature; at or after the last time: the last temperature |
| `PolylineShared.InsertionIndex` | core/src/time_temperature_curve/polyline_shared.rs:19-21 | a miss strictly inside the range has `1 <= idx <= len-1` and `points[idx-1].0 < time < points[idx].0`, sorted or not; on a strictly increasing curve, idx is the insertion point |
| `PolylineShared.SearchHitsStoredTime` | core/src/time_temperature_curve/polyline_shared.rs:17-18 | on a strictly increasing curve, the search for a stored time finds that point's index |
| `PolylineShared.LookupMatchesReference` | core/src/time_temperature_curve/polyline_shared.rs:4-26 | on every valid curve and finite query, the lookup equals the reference curve |
| `PolylineShared.LookupAtStoredTime` | core/src/time_temperature_curve/polyline_shared.rs:17-18 | at a stored time, the stored temperature is returned exactly |
| `PolylineShared.LookupOnSegment` | core/src/time_temperature_curve/polyline_shared.rs:19-23 | on a closed segment, the result is `T0 + (time - t0)/(t1 - t0) * (T1 - T0)` |
| `PolylineShared.SinglePoint` | core/src/time_temperature_curve/polyline_shared.rs:37-43 | a one-point curve is constant |
| `PolylineShared.Scenario` | core/src/time_temperature_curve/polyline_shared.rs:45-55 | `[(0,20),(10,100),(20,50)]` gives 20, 20, 60, 100, 75, 50, 50 at -5, 0, 5, 10, 15, 20, 25 |
| `CorePolyline.InsertByTime` | core/src/time_temperature_curve/impl_polyline.rs:19 | inserting adds exactly one element (multiset) |
| `CorePolyline.InsertKeepsSorted` | core/src/time_temperature_curve/impl_polyline.rs:19 | inserting into a sorted sequence keeps it sorted |
| `CorePolyline.SortByTime` | core/src/time_temperature_curve/impl_polyline.rs:19 | the result is a sorted permutation of the input |
| `CorePolyline.New` | core/src/time_temperature_curve/impl_polyline.rs:12-24 | `EmptyPoints` iff empty; `InvalidValue` iff non-empty with a non-finite value; success gives a valid, separated curve that is a permutation of the input |
| `CorePolyline.SortedEqualsStrict` | core/src/time_temperature_curve/impl_polyline.rs:19-23 | a sorted permutation of a strictly increasing sequence is that sequence |
| `CorePolyline.NewIndependentOfSort` | core/src/time_temperature_curve/impl_polyline.rs:19-23 | for any sorted permutation q of finite input, `new` gives `Ok(q)` if q is separated and `DuplicateTime` otherwise |
| `CorePolyline.NewPermutationInvariant` | core/src/time_temperature_curve/impl_polyline.rs:19-21 | permuting the input never changes the result of `new` |
| `CorePolyline.NewExamples` | core/src/time_temperature_curve/impl_polyline.rs:83-95 | the test inputs: empty, NaN and infinite values, and duplicates in both orders, give the stated errors |
| `CorePolyline.NewDuplicatePair` | core/src/time_temperature_curve/impl_polyline.rs:84-87 | two finite points with the same time give `DuplicateTime` |
| `CorePolyline.TemperatureAt` | core/src/time_temperature_curve/impl_polyline.rs:28-50 | the inline lookup equals `polyline_temperature_at` on every curve and query |
| `CorePolyline.SinglePointCurve` | core/src/time_temperature_curve/impl_polyline.rs:63-69 | `new([p])` succeeds, and the curve returns p's temperature at every finite time |
| `CorePolyline.NewCurveLookup` | core/src/time_temperature_curve/impl_polyline.rs:28-50 | a curve from `new` answers every finite query with the reference curve, and every other query with `InvalidValue` |
| `CorePolyline.ScenarioSorted` | core/src/time_temperature_curve/impl_polyline.rs:19-23 | out-of-order input is stored sorted |
| `CorePolyline.Scenario` | core/src/time_temperature_curve/impl_polyline.rs:71-81 | all seven interpolation test values (-5, 0, 5, 10, 15, 20, 25 give 20, 20, 60, 100, 75, 50, 50), for input given out of order |
| `KernelPolyline.New` | kernel/src/time_temperature_curve/impl_polyline.rs:15-33 | the three errors in order; it succeeds exactly when the input is non-empty and finite and its sorted order has no neighbours within EPSILON, and then it holds that sorted order: a valid permutation with adjacent gaps `>= EPSILON` |
| `KernelPolyline.NewKeepsValidInput` | kernel/src/time_temperature_curve/impl_polyline.rs:25-32 | input that is already sorted, finite and separated is accepted and stored unchanged |
| `KernelPolyline.NewRejectsNearDuplicates` | kernel/src/time_temperature_curve/impl_polyline.rs:26-31 | two finite points whose times differ by less than EPSILON give `DuplicateTime`, in either order |
| `KernelPolyline.TemperatureAt` | kernel/src/time_temperature_curve/impl_polyline.rs:37-39 | an error exactly for a non-finite query; on valid curves, the reference curve |
| `KernelPolyline.NonFiniteQuery` | kernel/src/time_temperature_curve/impl_polyline.rs:97-112 | a non-finite query on a curve from `new` gives `InvalidValue` |
| `KernelPolyline.NewCurveInterpolates` | kernel/src/time_temperature_curve/impl_polyline.rs:37-39 | every curve from `new` interpolates each of its segments, ends included |
| `KernelPolyline.TestSinglePoint` | kernel/src/time_temperature_curve/impl_polyline.rs:54-60 | a one-point curve gives 42 at -10, 0 and 10 |
| `KernelPolyline.TestRejections` | kernel/src/time_temperature_curve/impl_polyline.rs:74-95 | the empty, duplicate, NaN and infinity inputs give the stated errors |
| `KernelPolyline.TestInvalidQueries` | kernel/src/time_temperature_curve/impl_polyline.rs:97-112 | NaN and both infinities are rejected as queries |
| `KernelPolyline.TestInterpolation` | kernel/src/time_temperature_curve/impl_polyline.rs:62-72 | the interpolation test values |
| `CorePolylineConst.FromArray` | core/src/time_temperature_curve/impl_polyline_const.rs:11-24 | `Ok` iff every index passes the checks, and then the array is stored unchanged; otherwise the error belongs to the first failing index, with finiteness checked first |
| `CorePolylineConst.FromArrayAccepts` | core/src/time_temperature_curve/impl_polyline_const.rs:11-23 | acceptance means finite and separated in the given order; an unsorted array can be accepted |
| `CorePolylineConst.PrecedenceDiffersFromNew` | core/src/time_temperature_curve/impl_polyline_const.rs:13-20 | `[(0,1),(0,2),(NaN,3)]` first fails at index 1 with `DuplicateTime`, while `ImplPolyline::new` gives `InvalidValue` |
| `CorePolylineConst.LowerBound` | core/src/time_temperature_curve/impl_polyline_const.rs:42-53 | every earlier time is below the query, and the time at the result (if any) is not |
| `CorePolylineConst.Search` | core/src/time_temperature_curve/impl_polyline_const.rs:42-53 | on any finite array the loop ends in bounds on an index whose left neighbour is below the query and whose own time is not; on a sorted array that index is the lower bound |
| `CorePolylineConst.SnapOrInterp` | core/src/time_temperature_curve/impl_polyline_const.rs:54-60 | the answer inside a bracket lies between the two bracketing temperatures, and is the stored temperature at a stored time |
| `CorePolylineConst.Lookup` | core/src/time_temperature_curve/impl_polyline_const.rs:28-61 | an error exactly for a non-finite query, and that error is `InvalidValue` |
| `CorePolylineConst.TemperatureAt` | core/src/time_temperature_curve/impl_polyline_const.rs:28-61 | error and empty cases; flat ends; on any finite array an in-bounds bracket `points[idx-1].0 < time <= points[idx].0` with snap-or-interpolate there; on sorted arrays it equals `Lookup` |
| `CorePolylineConst.LookupMatchesReference` | core/src/time_temperature_curve/impl_polyline_const.rs:54-60 | on a valid curve, when every stored time within EPSILON of the query equals it, the result is the reference curve |
| `CorePolylineConst.LookupMatchesShared` | core/src/time_temperature_curve/impl_polyline_const.rs:54-55 | under the same condition, it agrees with the shared lookup |
| `CorePolylineConst.SnapReturnsNearbyPoint` | core/src/time_temperature_curve/impl_polyline_const.rs:54-60 | an interior query returns the temperature of the bracketing point when that point is within EPSILON, and the reference curve otherwise |
| `CorePolylineConst.SnapDivergesFromShared` | core/src/time_temperature_curve/impl_polyline_const.rs:54-55 | on `[(0,0),(1,100)]` at `1 - EPSILON/2`, this lookup gives 100 and the shared one gives `100 - 50*EPSILON` |
| `KernelPolylineConst.FromArray` | kernel/src/time_temperature_curve/impl_polyline_const.rs:15-29 | returns iff all points are finite and separated, storing the array unchanged; otherwise it panics with the kind of the first failing index |
| `KernelPolylineConst.BothConstructors` | kernel/src/time_temperature_curve/impl_polyline_const.rs:16-27 | the kernel panics exactly when the core returns `Err`, with the same kind; otherwise both store the input |
| `KernelPolylineConst.TemperatureAt` | kernel/src/time_temperature_curve/impl_polyline_const.rs:33-38 | an error exactly for a non-finite query; an empty array gives 0.0; on valid curves, the reference curve |
| `KernelPolylineConst.Scenario` | kernel/src/time_temperature_curve/impl_polyline_const.rs:45-57 | `[(0,10),(5,20),(10,30)]` gives 10, 10, 15, 20, 25, 30, 30 at -1, 0, 2.5, 5, 7.5, 10, 15 |
| `KernelPolylineConst.RejectedExamples` | kernel/src/time_temperature_curve/impl_polyline_const.rs:62-69 | the NaN array fails at index 0 with `InvalidValue`, and the duplicate array fails at index 1 with `DuplicateTime` |
| `Pid.Clamp` | kernel/src/algos/pid.rs:42-45 | the result lies in `[lo, hi]` and equals x when x already does |
| `Pid.ClampIsNearest` | kernel/src/algos/pid.rs:54 | the clamped value is the point of the range nearest to x |
| `Pid.Derivative` | kernel/src/algos/pid.rs:46-50 | `d * dt == error - prev_error` when `dt > 0`, and `d == 0` otherwise |
| `Pid.Step` | kernel/src/algos/pid.rs:38-57 | after an update, the integral and the output lie within the limits, and `prev_error` is the new error; an integral inside the limits is not clamped; the output is `kp*e + ki*integral + kd*derivative` (with the new integral) when that lies within the limits, and the limit it overshoots otherwise; likewise, a wound-up integral beyond a limit becomes that limit |
| `Pid.Pid.constructor` | kernel/src/algos/pid.rs:27-36 | stores the gains and limits as given, with a zero state |
| `Pid.Pid.Update` | kernel/src/algos/pid.rs:38-57 | the new state and the output are `Step`'s; gains and limits are unchanged; the bounds and `prev_error` as above |
| `Pid.Pid.Reset` | kernel/src/algos/pid.rs:59-62 | both state fields become 0; gains and limits are unchanged |
| `Pid.NonPositiveDtIgnoresPrevError` | kernel/src/algos/pid.rs:46-50 | with `dt <= 0`, the previous error has no influence on the update |
| `Pid.SingleUpdateTests` | kernel/src/algos/pid.rs:76-150 | the zero-error, proportional and clamping tests: 0, 4, 10 |
| `Pid.TwoUpdateTests` | kernel/src/algos/pid.rs:104-182 | integral 2 then 4; derivative -1; setpoint change 2 then 12 |
| `Pid.Run` | kernel/src/algos/pid.rs:198-200 | after at least one update with fixed inputs, the integral lies within the limits |
| `Pid.WindupHoldsAtLimit` | kernel/src/algos/pid.rs:40-45 | once at the upper limit, a non-negative `error*dt` keeps the integral there for any number of updates |
| `Pid.WindupScenario` | kernel/src/algos/pid.rs:185-206 | `ki=1`, limits ±5, error 10, `dt=1`: after any n >= 1 updates the integral is 5 and the next output is 5 |
| `Pid.IntegralWindup` | kernel/src/algos/pid.rs:185-206 | the same test driven through the class: twenty updates, then integral 5 and output 5 |
| `Pid.ResetClearsState` | kernel/src/algos/pid.rs:152-166 | after an update and a reset, both state fields are 0 |
| `Pid.ResetActsLikeFresh` | kernel/src/algos/pid.rs:59-62 | after a reset, the next update returns what a fresh controller's first update returns |
| `Folders.RemoveFirst` | kernel/src/folders/folder.rs:36-44 | removes one occurrence (multiset), shortens the sequence by one if `e` is present, and changes nothing otherwise |
| `Folders.RemoveFirstAt` | kernel/src/folders/folder.rs:36-44 | if position i holds the first `e`, removing cuts out exactly position i |
| `Folders.Folder.constructor` | kernel/src/folders/folder.rs:17-23 | the name as given, count 0, all slots empty |
| `Folders.Folder.AddEntry` | kernel/src/folders/folder.rs:24-32 | succeeds iff a slot is free; then it writes slot `count` only, and the live entries gain `entry` at the end; when full, nothing changes |
| `Folders.Folder.RemoveFile` | kernel/src/folders/folder.rs:33-49 | true iff `File(id)` is live; the live entries lose their first `File(id)` and keep their order; when false, nothing changes |
| `Folders.Folder.RemoveFolder` | kernel/src/folders/folder.rs:50-66 | the same for `Folder(idx)` |
| `Folders.Folder.RemoveFirstMatch` | kernel/src/folders/folder.rs:34-48 | the scan: it stops at the first match, and the slot shape is preserved |
| `Folders.Folder.ShiftOut` | kernel/src/folders/folder.rs:37-43 | the shift loop: later slots move left by one, the last filled slot is emptied, and the live entries lose position i |
| `Folders.ShiftLeftKeepsShape` | kernel/src/folders/folder.rs:37-43 | shifting keeps "filled below count, empty above", and removes exactly that entry |
| `Folders.Filled` | kernel/src/folders/folder.rs:24-32 | successive `add_entry` calls on a new folder hold the added entries in order |
| `Folders.RemoveKeepsOrder` | kernel/src/folders/folder.rs:33-49 | removing `File(1)` from `[File(1), Folder(2), File(1)]` leaves `[Folder(2), File(1)]` |
| `Folders.RemoveMissing` | kernel/src/folders/folder.rs:50-66 | `Folder(3)` is not `File(3)`: the removal reports false |
| `Folders.CapacityIsSixteen` | kernel/src/folders/folder.rs:24-32 | sixteen additions succeed and the seventeenth fails |
| `KvStore.Decimal` | core/src/data/impl_btree.rs:30 | the rendering is digits without leading zeros, whose value is n |
| `KvStore.ParseU64` | core/src/data/impl_btree.rs:21 | an accepted string starts with a digit or `+`, and its value fits in a `u64` |
| `KvStore.ParseU64Examples` | core/src/data/impl_btree.rs:21 | `+007` parses as 7; the empty string, `+`, `-1` and `1a` do not parse |
| `KvStore.ParseDecimal` | core/src/data/impl_btree.rs:21 | the rendering of n parses back to n when `n <= u64::MAX`, and is refused otherwise |
| `KvStore.LastIndexOf` | core/src/data/impl_btree.rs:18 | the result holds c, with no c after it; no result means c does not occur |
| `KvStore.LastIndexOfSplit` | core/src/data/impl_btree.rs:18 | a `c` followed by c-free text is the last `c` |
| `KvStore.ParsePrefixId` | core/src/data/impl_btree.rs:17-23 | no `_` gives nothing; a result is the text before the last `_`, plus the parsed tail after it |
| `KvStore.FormatKey` | core/src/data/impl_btree.rs:30 | the key is the prefix, then `_`, then a run of digits that spells the id |
| `KvStore.KeyRoundTrip` | core/src/data/impl_btree.rs:17-30 | the key `prefix_id` parses back to `(prefix, id)`, even when the prefix contains `_` |
| `KvStore.KeysDistinct` | core/src/data/impl_btree.rs:76-83 | distinct ids give distinct keys |
| `KvStore.KvStoreBTree.constructor` | core/src/data/impl_btree.rs:14-16 | an empty map, `next_id` 0, the prefix as given |
| `KvStore.KvStoreBTree.Get` | core/src/data/impl_btree.rs:34-40 | a value only for a key that parses with this store's prefix and a present id, and then the value stored under that id |
| `KvStore.KvStoreBTree.Insert` | core/src/data/impl_btree.rs:27-33 | the key is `prefix_<old next_id>`; the id was unused; the map gains exactly that entry; `next_id` increases by 1; the key finds the value; earlier keys keep their values |
| `KvStore.KvStoreBTree.Remove` | core/src/data/impl_btree.rs:41-50 | true iff the key found a value; only that id leaves the map; afterwards the key finds nothing |
| `KvStore.OtherPrefixFindsNothing` | core/src/data/impl_btree.rs:36-38 | a key made with another prefix finds nothing |
| `KvStore.BadTailFindsNothing` | core/src/data/impl_btree.rs:18-21 | a key with no `_`, or whose tail is not a `u64`, finds nothing |
| `KvStore.InsertAndGet` | core/src/data/impl_btree.rs:57-63 | the first key of store "curve" is `curve_0` and finds 42; `other_0` finds nothing |
| `KvStore.RemoveTwice` | core/src/data/impl_btree.rs:65-73 | get, then a successful remove, then nothing found, then a failed remove |
| `KvStore.MultipleInserts` | core/src/data/impl_btree.rs:75-83 | two inserts give the keys `bar_0` and `bar_1`, each finding its own value |

## Left out

- Floating-point rounding is not modelled: `f64` and `f32` values are exact reals. The stated test values hold exactly over the reals. A claim that depends on rounding, such as the size of the snap window in the const lookup, holds only for exact values.
- `PolylineShared.PolylineTemperatureAt` requires finite points. With a NaN time in the slice, the source's `partial_cmp(..).unwrap()` panics when the search probes the NaN entry, and otherwise the lookup returns a value computed from the entries it reads. A NaN temperature is never compared, and only makes the result NaN. An infinite point time is not modelled either. A +∞ last time makes every query past the second-to-last point return that point's temperature, because the ratio `(time - t0) / ∞` is 0. A −∞ first time makes queries in the first segment return NaN, because the ratio is ∞/∞. The constructors reject such points, but `polyline_temperature_at` is a `pub fn` and `ImplPolyline::points` is a `pub` field in both crates, so a non-finite slice can reach the lookup without any constructor.
- `CorePolyline.TemperatureAt`, `KernelPolyline.TemperatureAt` and `KernelPolylineConst.TemperatureAt` require finite points for the same reason.
- `CorePolylineConst.TemperatureAt` requires finite points. `points` is a public field, so a curve can be built without `from_array` and hold a NaN or infinite entry. On such an array the source's comparisons with NaN are all false. It can then read `points[idx - 1]` with `idx == 0` and panic, or return a NaN temperature. Neither is modelled.
- `CorePolylineConst.Search` and `CorePolylineConst.Lookup` require finite points for the same reason.
- `PolylineShared.BinarySearchBy` does not model the probe order of the standard library's search. On strictly increasing input every such search gives the same answers. On an unsorted array, which the const constructors accept, only the bracket contract is claimed.
- `Vec::sort_by` is modelled by an insertion sort. This is justified by `CorePolyline.NewIndependentOfSort`.
- The kernel's `polyline_shared.rs` is not part of this model. Its core twin stands in for it.
- The `TimeTemperatureCurve` and `KvStore` traits are not modelled as interfaces. Each implementation is modelled directly.
- The `Display` and `Error` implementations are not modelled. They only format text.
- Compile-time evaluation of `const fn` and the trybuild harness in `core/tests/try_polyline_const.rs` are not modelled. A panic in the kernel `from_array` is the `Panicked` outcome.
- `Pid.Pid.Update` requires `output_min <= output_max`, the condition `f32::clamp` asserts. A NaN limit, which also makes `clamp` panic, is not modelled.
- `KvStore.KvStoreBTree.Insert` requires `next_id < u64::MAX`. At that point `next_id += 1` panics in a debug build and wraps in a release build; the wrap is not modelled.
- `KvStore.KvStoreBTree.Insert` and `KvStore.KvStoreBTree.Remove` require `Valid()`, which says every id in the map is below `next_id`. This assumes `map` is changed only through `insert` and `remove`. `map` is a `pub` field in the source, so outside code can store an id at or above `next_id`; a later `insert` then silently overwrites that entry. That case is not modelled.
- The store's value type is a type parameter. `get` returns the value rather than a reference to it.
- `Folders.Folder.RemoveFile`: `remove_file` and `remove_folder` repeat the same loop in the source. In the model both call one loop method, `RemoveFirstMatch`.
- The folder methods require the slot shape "filled below `count`, empty above". `new` establishes it and every method keeps it. The fields are public in the source, so outside code could break it; that case is not modelled.
- `ItemId` (`u64`) and `usize` folder indices are unbounded naturals. Nothing in the folder does arithmetic on them.
- Combining a curve with the PID controller to track a profile is not part of this model. No code for it exists in the files modelled.
