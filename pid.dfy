/**
 * The PID controller of the kernel crate (kernel/src/algos/pid.rs): gains
 * and output limits fixed at construction, and a state of the previous
 * error and the accumulated integral that `update` advances and `reset`
 * clears. `f32` values are modelled as exact reals.
 */
module Pid {

  /** `PIDConstants`: proportional, integral and derivative gains. */
  datatype PidConstants = PidConstants(kp: real, ki: real, kd: real)

  /** `PIDLimits`: the range of the output, which also bounds the integral. */
  datatype PidLimits = PidLimits(outputMin: real, outputMax: real)

  /** `PIDState`: the error seen by the last `update` and the clamped integral. */
  datatype PidState = PidState(prevError: real, integral: real)

  /** What one `update` leaves behind and returns. */
  datatype StepResult = StepResult(state: PidState, output: real)

  /**
   * `f32::clamp`, which asserts `min <= max`: the value itself inside the
   * range, the nearer bound outside it.
   */
  function Clamp(x: real, lo: real, hi: real): (r: real)
    requires lo <= hi
    ensures lo <= r <= hi
    ensures lo <= x <= hi ==> r == x
  {
    if x < lo then lo else if x > hi then hi else x
  }

  /** The clamped value is the point of `[lo, hi]` nearest to `x`. */
  lemma ClampIsNearest(x: real, lo: real, hi: real, y: real)
    requires lo <= hi && lo <= y <= hi
    ensures Dist(Clamp(x, lo, hi), x) <= Dist(y, x)
  {
  }

  function Dist(a: real, b: real): (d: real)
    ensures d >= 0.0 && (d == a - b || d == b - a)
  {
    if a < b then b - a else a - b
  }

  /** The derivative term: the error's rate of change over `dt`, and 0 when `dt` is not positive. */
  function Derivative(error: real, prevError: real, dt: real): (d: real)
    ensures dt > 0.0 ==> d * dt == error - prevError
    ensures dt <= 0.0 ==> d == 0.0
  {
    if dt > 0.0 then (error - prevError) / dt else 0.0
  }

  /**
   * One `update` as a function of the state before it: the error is
   * `desired - measurement`; the integral grows by `error * dt` and is then
   * clamped to the output limits (anti-windup); the output is the weighted
   * sum of error, new integral and derivative, clamped to the same limits;
   * the error is remembered for the next derivative.
   */
  function Step(c: PidConstants, l: PidLimits, s: PidState, dt: real, desired: real, measurement: real): (res: StepResult)
    requires l.outputMin <= l.outputMax
    ensures l.outputMin <= res.state.integral <= l.outputMax
    ensures l.outputMin <= res.output <= l.outputMax
    ensures res.state.prevError == desired - measurement
    ensures var error := desired - measurement;
      var wound := s.integral + error * dt;
      l.outputMin <= wound <= l.outputMax ==> res.state.integral == wound
    ensures var wound := s.integral + (desired - measurement) * dt;
      && (wound > l.outputMax ==> res.state.integral == l.outputMax)
      && (wound < l.outputMin ==> res.state.integral == l.outputMin)
    ensures var error := desired - measurement;
      var raw := c.kp * error + c.ki * res.state.integral + c.kd * Derivative(error, s.prevError, dt);
      && (l.outputMin <= raw <= l.outputMax ==> res.output == raw)
      && (raw < l.outputMin ==> res.output == l.outputMin)
      && (raw > l.outputMax ==> res.output == l.outputMax)
  {
    var error := desired - measurement;
    var integral := Clamp(s.integral + error * dt, l.outputMin, l.outputMax);
    var output := c.kp * error + c.ki * integral + c.kd * Derivative(error, s.prevError, dt);
    StepResult(PidState(error, integral), Clamp(output, l.outputMin, l.outputMax))
  }

  class Pid {
    var constants: PidConstants
    var state: PidState
    var limits: PidLimits

    /** `PID::new`: the given gains and limits, a zero state. */
    constructor (constants: PidConstants, limits: PidLimits)
      ensures this.constants == constants && this.limits == limits
      ensures state == PidState(0.0, 0.0)
    {
      this.constants := constants;
      this.state := PidState(0.0, 0.0);
      this.limits := limits;
    }

    /**
     * `PID::update`: advances the state by one `Step` and returns its
     * output; gains and limits are left alone.
     */
    method Update(dt: real, desired: real, measurement: real) returns (output: real)
      requires limits.outputMin <= limits.outputMax
      modifies this
      ensures var s := Step(old(constants), old(limits), old(state), dt, desired, measurement);
        state == s.state && output == s.output
      ensures constants == old(constants) && limits == old(limits)
      ensures limits.outputMin <= state.integral <= limits.outputMax
      ensures limits.outputMin <= output <= limits.outputMax
      ensures state.prevError == desired - measurement
    {
      ghost var step := Step(constants, limits, state, dt, desired, measurement);
      var error := desired - measurement;
      var wound := state.integral + error * dt;
      state := state.(integral := Clamp(wound, limits.outputMin, limits.outputMax));
      assert state.integral == step.state.integral;
      var derivative := Derivative(error, state.prevError, dt);
      var raw := constants.kp * error + constants.ki * state.integral + constants.kd * derivative;
      output := Clamp(raw, limits.outputMin, limits.outputMax);
      assert output == step.output;
      state := state.(prevError := error);
    }

    /** `PID::reset`: both state fields back to 0; gains and limits are left alone. */
    method Reset()
      modifies this
      ensures state == PidState(0.0, 0.0)
      ensures constants == old(constants) && limits == old(limits)
    {
      state := state.(prevError := 0.0);
      state := state.(integral := 0.0);
    }
  }

  /**
   * With `dt <= 0` the previous error plays no part: the derivative term is
   * 0, and the integral is only re-clamped.
   */
  lemma NonPositiveDtIgnoresPrevError(c: PidConstants, l: PidLimits, s: PidState, dt: real, desired: real, measurement: real, other: real)
    requires l.outputMin <= l.outputMax && dt <= 0.0
    ensures Step(c, l, s, dt, desired, measurement)
         == Step(c, l, s.(prevError := other), dt, desired, measurement)
    ensures dt == 0.0 ==> Step(c, l, s, dt, desired, measurement).state.integral
                          == Clamp(s.integral, l.outputMin, l.outputMax)
  {
    assert Derivative(desired - measurement, s.prevError, dt) == 0.0;
    assert Derivative(desired - measurement, other, dt) == 0.0;
  }

  const Zero := PidState(0.0, 0.0)
  const DefaultLimits := PidLimits(-100.0, 100.0)

  /** The single-update tests: zero error, proportional only, and output clamping. */
  lemma SingleUpdateTests()
    ensures Step(PidConstants(1.0, 0.0, 0.0), DefaultLimits, Zero, 1.0, 10.0, 10.0).output == 0.0
    ensures Step(PidConstants(2.0, 0.0, 0.0), DefaultLimits, Zero, 1.0, 10.0, 8.0).output == 4.0
    ensures Step(PidConstants(100.0, 0.0, 0.0), PidLimits(-10.0, 10.0), Zero, 1.0, 10.0, 0.0).output == 10.0
  {
  }

  /** The two-update tests: integral 2 then 4, derivative -1, and a setpoint change giving 2 then 12. */
  lemma TwoUpdateTests()
    ensures var c := PidConstants(0.0, 1.0, 0.0);
      var s1 := Step(c, DefaultLimits, Zero, 1.0, 10.0, 8.0);
      s1.output == 2.0 && Step(c, DefaultLimits, s1.state, 1.0, 10.0, 8.0).output == 4.0
    ensures var c := PidConstants(0.0, 0.0, 1.0);
      var s1 := Step(c, DefaultLimits, Zero, 1.0, 10.0, 8.0);
      Step(c, DefaultLimits, s1.state, 1.0, 10.0, 9.0).output == -1.0
    ensures var c := PidConstants(1.0, 0.0, 0.0);
      var s1 := Step(c, DefaultLimits, Zero, 1.0, 10.0, 8.0);
      s1.output == 2.0 && Step(c, DefaultLimits, s1.state, 1.0, 20.0, 8.0).output == 12.0
  {
  }

  /** The state after `n` updates with the same inputs. */
  function Run(c: PidConstants, l: PidLimits, s: PidState, n: nat, dt: real, desired: real, measurement: real): (r: PidState)
    requires l.outputMin <= l.outputMax
    ensures l.outputMin <= r.integral <= l.outputMax || (n == 0 && r == s)
    decreases n
  {
    if n == 0 then s
    else Run(c, l, Step(c, l, s, dt, desired, measurement).state, n - 1, dt, desired, measurement)
  }

  /**
   * Anti-windup: once the integral has reached the upper limit, a
   * non-negative error keeps it there and keeps the integral's share of the
   * output at that limit.
   */
  lemma {:induction false} WindupHoldsAtLimit(c: PidConstants, l: PidLimits, s: PidState, n: nat, dt: real, desired: real, measurement: real)
    requires l.outputMin <= l.outputMax
    requires s.integral == l.outputMax && (desired - measurement) * dt >= 0.0
    ensures Run(c, l, s, n, dt, desired, measurement).integral == l.outputMax
    decreases n
  {
    if n > 0 {
      var s1 := Step(c, l, s, dt, desired, measurement).state;
      assert s1.integral == l.outputMax;
      WindupHoldsAtLimit(c, l, s1, n - 1, dt, desired, measurement);
    }
  }

  /**
   * The windup test: `ki = 1`, limits ±5, error 10 and `dt = 1`. After any
   * positive number of updates the integral is exactly 5, and the next
   * output is 5.
   */
  lemma WindupScenario(n: nat)
    requires n >= 1
    ensures var c := PidConstants(0.0, 1.0, 0.0);
      var l := PidLimits(-5.0, 5.0);
      var s := Run(c, l, Zero, n, 1.0, 10.0, 0.0);
      s.integral == 5.0 && Step(c, l, s, 1.0, 10.0, 0.0).output == 5.0
  {
    var c := PidConstants(0.0, 1.0, 0.0);
    var l := PidLimits(-5.0, 5.0);
    var s1 := Step(c, l, Zero, 1.0, 10.0, 0.0).state;
    assert s1.integral == 5.0;
    WindupHoldsAtLimit(c, l, s1, n - 1, 1.0, 10.0, 0.0);
  }

  /** The windup test driven through the object: twenty updates, then one more. */
  method IntegralWindup() returns (integral: real, output: real)
    ensures integral == 5.0 && output == 5.0
  {
    var pid := new Pid(PidConstants(0.0, 1.0, 0.0), PidLimits(-5.0, 5.0));
    for i := 0 to 20
      invariant pid.constants == PidConstants(0.0, 1.0, 0.0) && pid.limits == PidLimits(-5.0, 5.0)
      invariant i == 0 ==> pid.state == Zero
      invariant i > 0 ==> pid.state.integral == 5.0
    {
      var _ := pid.Update(1.0, 10.0, 0.0);
    }
    integral := pid.state.integral;
    output := pid.Update(1.0, 10.0, 0.0);
  }

  /** The reset test: after an update and a reset both state fields are 0. */
  method ResetClearsState() returns (prevError: real, integral: real)
    ensures prevError == 0.0 && integral == 0.0
  {
    var pid := new Pid(PidConstants(1.0, 1.0, 1.0), DefaultLimits);
    var _ := pid.Update(1.0, 10.0, 8.0);
    pid.Reset();
    prevError := pid.state.prevError;
    integral := pid.state.integral;
  }

  /**
   * After `reset`, the next `update` behaves exactly like the first update
   * of a controller freshly built with the same gains and limits, whatever
   * happened before the reset.
   */
  method ResetActsLikeFresh(c: PidConstants, l: PidLimits, dt0: real, desired0: real, measurement0: real, dt: real, desired: real, measurement: real)
    returns (afterReset: real, firstUpdate: real)
    requires l.outputMin <= l.outputMax
    ensures afterReset == firstUpdate
  {
    var used := new Pid(c, l);
    var _ := used.Update(dt0, desired0, measurement0);
    used.Reset();
    afterReset := used.Update(dt, desired, measurement);
    var other := new Pid(c, l);
    firstUpdate := other.Update(dt, desired, measurement);
  }
}
