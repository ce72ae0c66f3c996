# Skydiver descent with staged parachute deployment

A Dafny model of the core of a one-file simulation (`main.py`) of a skydiver
falling through air whose drag changes with the deployed equipment. The model
covers three parts, with Python floats abstracted to exact `real`s:

- **Area sizing** (`Physics`, `physics.dfy`). `CalculateArea` is the
  closed-form solution of `M*G = 0.5*cx*rho*S*v^2` for `S`. The module also
  holds the constants `M`, `G`, `CX_BODY`, `CX_PARA` and `DT`, and the
  reference areas `S_BODY`, `S_SMALL` and `S_LARGE` (target speeds 50, 35 and
  8 m/s). The areas are computed once, at the default density
  `RHO_REF = 1.225`, exactly as the script computes them at import.
- **Regime selection** (`Regimes`, `regimes.dfy`). `GetCoefficients` is
  `get_coefficients`:
  - it sorts the schedule of `Trigger(threshold, area, cx)` entries with a
    stable sort by threshold (`SortByThreshold`);
  - it scans for the first threshold strictly above the current height
    (`FirstAbove`);
  - it recognises the trigger's linear coefficient from its area, using a
    0.01 tolerance (`LinearFor`);
  - it computes `k2 = 0.5*cx*rho*area`.

  With no threshold above the height, it falls back to the body regime.
  `IsChoice` is a description, independent of the sort, of which trigger must
  win: the smallest threshold strictly above the height, and among equal
  thresholds the earliest in the schedule. The lemmas prove that the
  sort-and-scan picks exactly that trigger.
- **Integration loop** (`Descent`, `descent.dfy`). `SimulateJump` is
  `simulate_jump`. It hands the schedule's regime lookup (`Schedule`, the
  function `h => GetCoefficients(h, triggers, rho, k1)`) to `Integrate`.
  `Integrate` is the method's `while` loop over `(t, h, v)`, written against
  whatever lookup it is given. Each step:
  - reads the regime at the pre-step height;
  - updates the velocity;
  - lowers the height by the *pre-step* velocity times `DT`;
  - appends the new sample to three parallel sequences.

  It stops once `h <= 0` or `t >= maxT`. `IsTrajectory` states what a
  complete run is. `TrajectoryIsUnique` shows that this description fixes the
  output, so a run is a function of its inputs.

Air density is an explicit parameter `rho`; the script instead mutates a
global. The script derives the viscous coefficients `K1_BODY`, `K1_SMALL` and
`K1_LARGE` with `np.pi` and `np.sqrt`, so callers supply them as a
`LinearDrag(body, small, large)` record.

Two behaviours of the code that the model keeps as written:
- `simulate_jump` accepts any initial height. With `h0 <= 0` it returns only
  the initial sample; it does not reject the input.
- The selected trigger is the one with the smallest threshold strictly above
  the height, not one at or below it.

## Model

| member | source | states |
|---|---|---|
| `Physics.CalculateArea` | main.py:15-18 | the returned area balances weight and drag at the target speed: `0.5*cx*rho*S*v^2 == M*G`; it is positive exactly when `cx*rho` is |
| `Physics.AreaIsUnique` | main.py:15-18 | any area that balances weight and drag at speed `v` equals `CalculateArea(v, cx, rho)`, so the sizing formula is the inverse of the force balance |
| `Physics.ReferenceAreasApart` | main.py:21-23 | the three reference areas, computed at the default density, are positive and lie at least 0.02 apart |
| `Regimes.Insert` | main.py:36 | inserting one trigger adds exactly that trigger to the multiset of the list |
| `Regimes.InsertSorted` | main.py:36 | inserting into a list sorted by threshold keeps it sorted |
| `Regimes.SortByThreshold` | main.py:36 | the sorted schedule is a permutation of the input and is ascending by threshold |
| `Regimes.SortIsStable` | main.py:36 | for every threshold value, the triggers carrying it keep their input order (stability of `sorted`) |
| `Regimes.FirstAbove` | main.py:38-39 | the scan returns nothing exactly when no threshold is strictly above `h`; otherwise it returns the element at some index whose threshold is strictly above `h` and before which every threshold is at or below `h` |
| `Regimes.ChoiceIsUnique` | main.py:36-39 | at most one index satisfies the selection rule, so it determines a single trigger |
| `Regimes.InsertFirstAbove` | main.py:36-39 | after inserting `x` in sorted position, the scan picks `x` exactly when `x` is above `h` and no trigger of the rest has a strictly lower threshold above `h` |
| `Regimes.SortedScanPicksChoice` | main.py:36-39 | whenever index `i` satisfies the selection rule (smallest threshold strictly above `h`, earliest among equals), scanning the sorted schedule returns that trigger |
| `Regimes.ChoiceExists` | main.py:38-39 | if any threshold is strictly above `h`, some index satisfies the selection rule |
| `Regimes.SelectionSpec` | main.py:36-39 | sort-then-scan finds nothing exactly when every threshold is at or below `h` (a threshold equal to `h` is never chosen), otherwise finds the trigger at the rule's index |
| `Regimes.LinearForReferenceAreas` | main.py:40-45 | the body, small-canopy and large-canopy reference areas are each mapped to their own linear coefficient |
| `Regimes.LinearForWindows` | main.py:40-45 | with distinct coefficients, the small canopy's is chosen exactly within 0.01 of `S_SMALL`, the large canopy's exactly within 0.01 of `S_LARGE`, the body's exactly outside both windows |
| `Regimes.CoefficientsSpec` | main.py:33-51 | with no threshold strictly above `h`, the result is `(K1_BODY, 0.5*CX_BODY*rho*S_BODY)`; otherwise it is the chosen trigger's `(LinearFor(area), 0.5*cx*rho*area)` |
| `Regimes.CoefficientsNonNegative` | main.py:33-51 | with non-negative density, areas and shape coefficients and positive linear coefficients, `k1 > 0` and `k2 >= 0` |
| `Regimes.RegimeNonNegative` | main.py:40-47 | a trigger with non-negative area and shape coefficient yields `k1 > 0` and `k2 >= 0` |
| `Regimes.BodyRegimeNonNegative` | main.py:50-51 | the body-only fallback yields `k1 > 0` and `k2 >= 0` for non-negative density |
| `Regimes.LinearFor` | main.py:40-45 | the linear coefficient recognised from an area; its contract lives in `LinearForReferenceAreas` (each reference area gets its own coefficient) and `LinearForWindows` (each coefficient is chosen exactly within its 0.01 window) |
| `Regimes.BodyRegime` | main.py:50-51 | the free-fall regime `(K1_BODY, 0.5*CX_BODY*rho*S_BODY)`; `BodyRegimeNonNegative` states it is non-negative and `CoefficientsSpec` that it is used when no threshold lies above `h` |
| `Regimes.TriggerRegime` | main.py:40-47 | the regime of an active trigger, `(LinearFor(area), 0.5*cx*rho*area)`; `RegimeNonNegative` states it is non-negative and `CoefficientsSpec` that it is used for the chosen trigger |
| `Regimes.GetCoefficients` | main.py:33-51 | `get_coefficients` itself; its contract lives in `CoefficientsSpec` (body fallback, else the regime of the trigger the selection rule picks), `SelectionSpec` and `ChoiceExists` (a trigger is picked exactly when some threshold lies strictly above `h`) and `CoefficientsNonNegative` |
| `Descent.Acceleration` | main.py:66 | gravity minus drag per unit mass; its contract lives in `TerminalVelocityOfSizedArea` and `AccelerationFallsWithSpeed` |
| `Descent.TerminalVelocityOfSizedArea` | main.py:15-18 | under quadratic drag alone, an area sized by `CalculateArea` for speed `v` gives zero acceleration at `v`: the target speed is the terminal speed |
| `Descent.AccelerationFallsWithSpeed` | main.py:66 | with non-negative `k1` and `k2`, the acceleration at a higher non-negative speed is never larger than at a lower one |
| `Descent.NextVelocity` | main.py:64-68 | the velocity after one step; its contract is the step relation `IsStep`, stated for every consecutive pair of samples in `Integrate`'s contract and used by `TrajectoryIsUnique` and `ScheduledStep` |
| `Descent.Schedule` | main.py:64 | the regime lookup `h => GetCoefficients(h, triggers, rho, k1)` that `simulate_jump` consults each step; `ScheduledStep` states what it contributes to a run |
| `Descent.SimulateJump` | main.py:54-80 | `simulate_jump` itself: its output is a complete run (`IsTrajectory`) for the lookup `Schedule(triggers, rho, k1)`, with the same bounds as `Integrate`. `maxT` defaults to `DEFAULT_MAX_T` = 300 s, as `max_t` does |
| `Descent.Integrate` | main.py:55-78 | the loop of `simulate_jump`. Its output is a complete run. The three sequences have equal length. The run starts at `(0, h0, 0)`. Each consecutive pair is one step: `t' = t + DT`, `h' = h - v*DT` with the pre-step `v`, and `v' = v + (G - (k1*v + k2*v^2)/M)*DT` with `(k1, k2)` looked up at the pre-step height. Every sample but the last is airborne (`h > 0` and `t < maxT`); the last is not. A run with `h0 <= 0` or `maxT <= 0` has one sample. A run with more than one sample has fewer than `maxT/DT + 1` steps |
| `Descent.ScheduledStep` | main.py:63-69 | in a run of `SimulateJump`, each step uses the `(k1, k2)` that `GetCoefficients` returns for the schedule at the pre-step height, and advances time by `DT` and height by `-v*DT` |
| `Descent.ExtendRun` | main.py:63-78 | appending one step after an airborne last sample keeps the three series a valid partial run |
| `Descent.TrajectoryIsUnique` | main.py:54-80 | two sample series that both satisfy the run description for the same inputs are identical, so repeated runs give identical series |
| `Descent.SampleTimes` | main.py:61-71 | sample `i` is taken at exactly `i*DT` |
| `Descent.HeightFallsWhileDescending` | main.py:69 | while the velocity is non-negative, the next height is not above the current one |

## Left out

- `run_scenarios` (main.py:83-170, and its `__main__` call at 172-173) only builds scenarios and consumes simulation output. It plots, prints, saves images, searches for a safe opening altitude and sweeps densities. Its outcomes depend on floating-point values that an exact-real model cannot reproduce.
- The save, mutate and restore of the global density (main.py:84, 154-163): density is the parameter `rho` of `GetCoefficients`, `Schedule` and `SimulateJump`; `NextVelocity` and `Integrate` receive it through the regime lookup.
- `K1_BODY`, `K1_SMALL`, `K1_LARGE`, `R_SMALL`, `R_LARGE`, `MU_AIR` and `R_BODY` (main.py:10-13, 25-28): they need `np.pi` and `np.sqrt`, so the linear coefficients are caller-supplied values (`LinearDrag`).
- The module-level prints (main.py:30-31) and the `np.array` conversion on return (main.py:80): the model returns Dafny sequences.
- Floating-point rounding: every quantity is an exact real. Accumulated time therefore has no drift, and overflow, NaN and infinities are not modelled. No claim about numerical accuracy or physical outcomes (terminal speeds, landing speed) is made.
- CalculateArea: a zero target speed, shape coefficient or density raises `ZeroDivisionError` in the script; the model states this as a precondition instead of modelling the exception.
- SortByThreshold: Python's `sorted` is Timsort; the model uses a stable insertion sort. Sortedness, permutation and stability together fix the result, so both sorts produce the same list.
