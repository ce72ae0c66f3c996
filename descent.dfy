/** The fixed-step integrator: from an initial height it advances time,
    velocity and height until touchdown or until the time budget is spent,
    recording every sample in three parallel series. */
module Descent {
  import opened Physics
  import opened Regimes

  /** The time budget a caller uses when it names none, in s. */
  const DEFAULT_MAX_T: real := 300.0

  /** Acceleration of the jumper at velocity `v` under regime `r`: gravity
      minus the drag force k1*v + k2*v^2 divided by the mass. */
  function Acceleration(v: real, r: Regime): real {
    G - (r.k1 * v + r.k2 * v * v) / M
  }

  /** The regime lookup the integrator consults once per step: the drag
      regime at a given height for this schedule and air density. */
  function Schedule(triggers: seq<Trigger>, rho: real, k1: LinearDrag): real -> Regime {
    h => GetCoefficients(h, triggers, rho, k1)
  }

  /** Velocity one step after (h, v), with the regime `regimeAt` gives at
      height h. */
  function NextVelocity(h: real, v: real, regimeAt: real -> Regime): real {
    v + Acceleration(v, regimeAt(h)) * DT
  }

  /** The sizing formula does what it is for: under quadratic drag alone, an
      area from CalculateArea makes the target speed the terminal one, where
      drag cancels gravity and the acceleration vanishes. */
  lemma TerminalVelocityOfSizedArea(v: real, cx: real, rho: real)
    requires v != 0.0 && cx != 0.0 && rho != 0.0
    ensures Acceleration(v, Regime(0.0, 0.5 * cx * rho * CalculateArea(v, cx, rho))) == 0.0
  {
    var s := CalculateArea(v, cx, rho);
    assert 0.5 * cx * rho * s * v * v == M * G;
    assert (0.0 * v + 0.5 * cx * rho * s * v * v) / M == G;
  }

  /** With non-negative drag coefficients, a faster descent never
      accelerates more: the acceleration does not increase with speed. */
  lemma AccelerationFallsWithSpeed(v: real, w: real, r: Regime)
    requires r.k1 >= 0.0 && r.k2 >= 0.0 && 0.0 <= v <= w
    ensures Acceleration(w, r) <= Acceleration(v, r)
  {
    assert r.k1 * v <= r.k1 * w;
    assert v * v <= w * w;
    assert r.k2 * v * v <= r.k2 * w * w by {
      assert r.k2 * (w * w - v * v) >= 0.0;
    }
  }

  /** The loop goes on while the jumper is above ground and time is left. */
  predicate Airborne(t: real, h: real, maxT: real) {
    h > 0.0 && t < maxT
  }

  /** One integration step from (t, h, v) to (t', h', v'): time advances by
      DT, the height falls by the velocity held BEFORE the step, and the
      velocity follows NextVelocity. */
  ghost predicate IsStep(regimeAt: real -> Regime, t: real, h: real, v: real, t': real, h': real, v': real)
  {
    t' == t + DT && h' == h - v * DT && v' == NextVelocity(h, v, regimeAt)
  }

  /** Samples i and i + 1 of the three series are one step apart. */
  ghost predicate StepAt(regimeAt: real -> Regime, ts: seq<real>, hs: seq<real>, vs: seq<real>, i: int)
  {
    0 <= i && i + 1 < |ts| && i + 1 < |hs| && i + 1 < |vs| &&
    IsStep(regimeAt, ts[i], hs[i], vs[i], ts[i + 1], hs[i + 1], vs[i + 1])
  }

  /** `ts`, `hs`, `vs` are the run from `h0` so far: equal lengths, the
      initial sample (0, h0, 0), every sample but the last airborne, and
      consecutive samples related by one step. */
  ghost predicate IsPartialRun(h0: real, regimeAt: real -> Regime, maxT: real,
                               ts: seq<real>, hs: seq<real>, vs: seq<real>)
  {
    |ts| == |hs| == |vs| >= 1 &&
    ts[0] == 0.0 && hs[0] == h0 && vs[0] == 0.0 &&
    (forall i :: 0 <= i < |ts| - 1 ==> Airborne(ts[i], hs[i], maxT)) &&
    (forall i :: 0 <= i < |ts| - 1 ==> StepAt(regimeAt, ts, hs, vs, i))
  }

  /** The complete run: a partial run whose last sample is no longer
      airborne (touchdown, or the time budget spent). */
  ghost predicate IsTrajectory(h0: real, regimeAt: real -> Regime, maxT: real,
                               ts: seq<real>, hs: seq<real>, vs: seq<real>)
  {
    IsPartialRun(h0, regimeAt, maxT, ts, hs, vs) &&
    !Airborne(ts[|ts| - 1], hs[|ts| - 1], maxT)
  }

  /** Some whole number of steps reaches any time budget. */
  lemma StepsToReach(maxT: real) returns (n: nat)
    ensures maxT <= n as real * DT
  {
    n := if maxT <= 0.0 then 0 else (maxT / DT).Floor + 1;
  }

  /** Runs the jump from rest at height `h0` in air of density `rho`,
      looking up the drag regime of the deployment schedule once per step,
      for at most `maxT` seconds of simulated time (DEFAULT_MAX_T when the
      caller names none). */
  method SimulateJump(h0: real, triggers: seq<Trigger>, rho: real, k1: LinearDrag,
                      maxT: real := DEFAULT_MAX_T)
    returns (ts: seq<real>, hs: seq<real>, vs: seq<real>)
    ensures IsTrajectory(h0, Schedule(triggers, rho, k1), maxT, ts, hs, vs)
    ensures maxT <= 0.0 ==> |ts| == 1
    ensures |ts| == 1 || ((|ts| - 1) as real) < maxT / DT + 1.0
    ensures h0 <= 0.0 ==> |ts| == 1
  {
    ts, hs, vs := Integrate(h0, Schedule(triggers, rho, k1), maxT);
  }

  /** The semi-implicit Euler loop of SimulateJump, written against the
      regime lookup it is given: each step reads the regime at the current
      height, updates the velocity, lowers the height by the velocity held
      before the step and appends the new sample. */
  method Integrate(h0: real, regimeAt: real -> Regime, maxT: real)
    returns (ts: seq<real>, hs: seq<real>, vs: seq<real>)
    ensures IsTrajectory(h0, regimeAt, maxT, ts, hs, vs)
    ensures maxT <= 0.0 ==> |ts| == 1
    ensures |ts| == 1 || ((|ts| - 1) as real) < maxT / DT + 1.0
    ensures h0 <= 0.0 ==> |ts| == 1
  {
    ghost var bound := StepsToReach(maxT);
    ts, hs, vs := [0.0], [h0], [0.0];
    var h, v, t := h0, 0.0, 0.0;
    while h > 0.0 && t < maxT
      invariant IsPartialRun(h0, regimeAt, maxT, ts, hs, vs)
      invariant ts[|ts| - 1] == t && hs[|ts| - 1] == h && vs[|ts| - 1] == v
      invariant t == (|ts| - 1) as real * DT
      invariant |ts| == 1 || ((|ts| - 1) as real) < maxT / DT + 1.0
      decreases bound - (|ts| - 1)
    {
      var r := regimeAt(h);
      var dv := Acceleration(v, r);
      var vNew := v + dv * DT;
      var hNew := h - v * DT;
      assert IsStep(regimeAt, t, h, v, t + DT, hNew, vNew);
      ExtendRun(h0, regimeAt, maxT, ts, hs, vs, t + DT, hNew, vNew);
      StepCount(|ts| - 1, maxT, bound);
      t := t + DT;
      ts, hs, vs := ts + [t], hs + [hNew], vs + [vNew];
      h, v := hNew, vNew;
    }
  }

  /** A step taken at time n*DT < maxT keeps the step count within its
      bounds. */
  lemma StepCount(n: nat, maxT: real, bound: nat)
    requires n as real * DT < maxT <= bound as real * DT
    ensures n < bound
    ensures ((n + 1) as real) < maxT / DT + 1.0
  {
  }

  /** Appending a sample one step after an airborne last sample extends a
      partial run. */
  lemma ExtendRun(h0: real, regimeAt: real -> Regime, maxT: real,
                  ts: seq<real>, hs: seq<real>, vs: seq<real>, t': real, h': real, v': real)
    requires IsPartialRun(h0, regimeAt, maxT, ts, hs, vs)
    requires Airborne(ts[|ts| - 1], hs[|ts| - 1], maxT)
    requires IsStep(regimeAt, ts[|ts| - 1], hs[|ts| - 1], vs[|ts| - 1], t', h', v')
    ensures IsPartialRun(h0, regimeAt, maxT, ts + [t'], hs + [h'], vs + [v'])
  {
    var ts1, hs1, vs1 := ts + [t'], hs + [h'], vs + [v'];
    forall i | 0 <= i < |ts| ensures StepAt(regimeAt, ts1, hs1, vs1, i) {
      if i < |ts| - 1 {
        assert StepAt(regimeAt, ts, hs, vs, i);
      }
    }
    forall i | 0 <= i < |ts| ensures Airborne(ts1[i], hs1[i], maxT) {
      assert ts1[i] == ts[i] && hs1[i] == hs[i];
    }
  }

  lemma {:induction false} SamplesAgree(h0: real, regimeAt: real -> Regime, maxT: real,
                                        ts: seq<real>, hs: seq<real>, vs: seq<real>,
                                        ts': seq<real>, hs': seq<real>, vs': seq<real>, k: nat)
    requires IsTrajectory(h0, regimeAt, maxT, ts, hs, vs)
    requires IsTrajectory(h0, regimeAt, maxT, ts', hs', vs')
    requires k < |ts| && k < |ts'|
    ensures ts[k] == ts'[k] && hs[k] == hs'[k] && vs[k] == vs'[k]
  {
    if k > 0 {
      SamplesAgree(h0, regimeAt, maxT, ts, hs, vs, ts', hs', vs', k - 1);
      assert StepAt(regimeAt, ts, hs, vs, k - 1);
      assert StepAt(regimeAt, ts', hs', vs', k - 1);
      var t, h, v := ts[k - 1], hs[k - 1], vs[k - 1];
      assert IsStep(regimeAt, t, h, v, ts[k], hs[k], vs[k]);
      assert IsStep(regimeAt, t, h, v, ts'[k], hs'[k], vs'[k]);
    }
  }

  /** The run is determined by its inputs: two series that both satisfy the
      trajectory description are identical, so SimulateJump's contract fixes
      its output completely and repeated runs give the same series. */
  lemma TrajectoryIsUnique(h0: real, regimeAt: real -> Regime, maxT: real,
                           ts: seq<real>, hs: seq<real>, vs: seq<real>,
                           ts': seq<real>, hs': seq<real>, vs': seq<real>)
    requires IsTrajectory(h0, regimeAt, maxT, ts, hs, vs)
    requires IsTrajectory(h0, regimeAt, maxT, ts', hs', vs')
    ensures ts == ts' && hs == hs' && vs == vs'
  {
    if |ts| < |ts'| {
      SamplesAgree(h0, regimeAt, maxT, ts, hs, vs, ts', hs', vs', |ts| - 1);
      assert false;
    } else if |ts'| < |ts| {
      SamplesAgree(h0, regimeAt, maxT, ts, hs, vs, ts', hs', vs', |ts'| - 1);
      assert false;
    }
    forall k | 0 <= k < |ts| ensures ts[k] == ts'[k] && hs[k] == hs'[k] && vs[k] == vs'[k] {
      SamplesAgree(h0, regimeAt, maxT, ts, hs, vs, ts', hs', vs', k);
    }
  }

  /** Time carries no drift: sample i is taken at exactly i*DT. */
  lemma {:induction false} SampleTimes(h0: real, regimeAt: real -> Regime, maxT: real,
                                       ts: seq<real>, hs: seq<real>, vs: seq<real>, i: nat)
    requires IsTrajectory(h0, regimeAt, maxT, ts, hs, vs)
    requires i < |ts|
    ensures ts[i] == i as real * DT
  {
    if i > 0 {
      SampleTimes(h0, regimeAt, maxT, ts, hs, vs, i - 1);
      assert StepAt(regimeAt, ts, hs, vs, i - 1);
    }
  }

  /** While the jumper moves downwards (v >= 0) the height never increases. */
  lemma HeightFallsWhileDescending(h0: real, regimeAt: real -> Regime, maxT: real,
                                   ts: seq<real>, hs: seq<real>, vs: seq<real>, i: nat)
    requires IsTrajectory(h0, regimeAt, maxT, ts, hs, vs)
    requires i < |hs| - 1 && vs[i] >= 0.0
    ensures hs[i + 1] <= hs[i]
  {
    assert StepAt(regimeAt, ts, hs, vs, i);
    assert vs[i] * DT >= 0.0;
  }

  /** In a run of SimulateJump, each step uses the coefficients
      GetCoefficients returns for the schedule at the pre-step height. */
  lemma ScheduledStep(h0: real, triggers: seq<Trigger>, rho: real, k1: LinearDrag, maxT: real,
                      ts: seq<real>, hs: seq<real>, vs: seq<real>, i: nat)
    requires IsTrajectory(h0, Schedule(triggers, rho, k1), maxT, ts, hs, vs)
    requires i < |ts| - 1
    ensures ts[i + 1] == ts[i] + DT && hs[i + 1] == hs[i] - vs[i] * DT
    ensures vs[i + 1] == vs[i] + Acceleration(vs[i], GetCoefficients(hs[i], triggers, rho, k1)) * DT
  {
    assert StepAt(Schedule(triggers, rho, k1), ts, hs, vs, i);
  }
}
