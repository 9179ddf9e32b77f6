/** The Euler-stepped hybrid automaton and the trajectory auditor, in exact reals
    (src/mvpc/phys/hybrid_automata.py). */
module HybridAutomata {
  import opened Wrappers
  import opened RateGuards

  type Vars = map<string, real>

  datatype HybridState = HybridState(mode: string, time: real, vars: Vars)

  type FlowMap = HybridState -> Vars

  function Derivative(flow: FlowMap, s: HybridState, name: string): real {
    var derivatives := flow(s);
    if name in derivatives then derivatives[name] else 0.0
  }

  /** One step's arguments; an empty `nextMode` stands for an absent one. */
  datatype Input = Input(dt: real, flow: FlowMap, nextMode: string)

  function Euler(v: real, d: real, dt: real): real {
    v + d * dt
  }

  function Next(s: HybridState, input: Input): HybridState {
    HybridState(if input.nextMode != "" then input.nextMode else s.mode, s.time + input.dt,
                map name | name in s.vars :: Euler(s.vars[name], Derivative(input.flow, s, name), input.dt))
  }

  function Last(states: seq<HybridState>): HybridState
    requires |states| > 0
  {
    states[|states| - 1]
  }

  /** The states a run passes through, the first included. */
  function Run(first: HybridState, inputs: seq<Input>): (states: seq<HybridState>)
    ensures |states| == |inputs| + 1
    decreases |inputs|
  {
    if |inputs| == 0 then [first]
    else
      var before := Run(first, inputs[..|inputs| - 1]);
      before + [Next(Last(before), inputs[|inputs| - 1])]
  }

  class HybridAutomaton {
    var current: HybridState
    var trajectory: seq<HybridState>
    ghost var inputs: seq<Input>

    /** The recorded trajectory is the run of the steps taken, and its last state is current. */
    ghost predicate Valid()
      reads this
    {
      && |trajectory| > 0
      && trajectory == Run(trajectory[0], inputs)
      && current == Last(trajectory)
    }

    constructor (initialMode: string, initialVars: Vars)
      ensures Valid() && inputs == [] && trajectory == [HybridState(initialMode, 0.0, initialVars)]
    {
      current := HybridState(initialMode, 0.0, initialVars);
      trajectory := [current];
      inputs := [];
    }

    method Step(dt: real, flow: FlowMap, nextMode: string)
      requires Valid()
      modifies this
      ensures Valid() && inputs == old(inputs) + [Input(dt, flow, nextMode)]
      ensures current == Next(old(current), Input(dt, flow, nextMode))
      ensures trajectory == old(trajectory) + [current]
    {
      ghost var input := Input(dt, flow, nextMode);
      ghost var next := Next(current, input);
      var derivatives := flow(current);
      var newVars: Vars := map[];
      var pending := current.vars.Keys;
      while pending != {}
        invariant pending <= current.vars.Keys
        invariant newVars.Keys == current.vars.Keys - pending
        invariant forall name :: name in newVars ==> name in next.vars && newVars[name] == next.vars[name]
        decreases pending
      {
        var name :| name in pending;
        var der := if name in derivatives then derivatives[name] else 0.0;
        newVars := newVars[name := Euler(current.vars[name], der, dt)];
        pending := pending - {name};
      }
      assert newVars == next.vars by {
        assert newVars.Keys == next.vars.Keys;
      }
      current := HybridState(if nextMode != "" then nextMode else current.mode, current.time + dt, newVars);
      trajectory := trajectory + [current];
      inputs := inputs + [input];
      assert inputs[..|inputs| - 1] == old(inputs);
    }
  }

  // ----- What holds along every run

  lemma {:induction false} RunStart(first: HybridState, inputs: seq<Input>)
    ensures Run(first, inputs)[0] == first
    decreases |inputs|
  {
    if |inputs| > 0 {
      RunStart(first, inputs[..|inputs| - 1]);
    }
  }

  lemma {:induction false} RunStep(first: HybridState, inputs: seq<Input>, k: nat)
    requires k < |inputs|
    ensures Run(first, inputs)[k + 1] == Next(Run(first, inputs)[k], inputs[k])
    decreases |inputs|
  {
    var init := inputs[..|inputs| - 1];
    if k < |init| {
      RunStep(first, init, k);
    }
  }

  /** The set of variables never changes. */
  lemma {:induction false} VarsKept(first: HybridState, inputs: seq<Input>, k: nat)
    requires k <= |inputs|
    ensures Run(first, inputs)[k].vars.Keys == first.vars.Keys
  {
    RunStart(first, inputs);
    if k > 0 {
      VarsKept(first, inputs, k - 1);
      RunStep(first, inputs, k - 1);
    }
  }

  /** The mode in force is the one most recently named; steps that name none keep it. */
  lemma {:induction false} ModeInForce(first: HybridState, inputs: seq<Input>, k: nat, m: nat)
    requires k <= m <= |inputs|
    requires k > 0 ==> inputs[k - 1].nextMode != ""
    requires forall i :: k <= i < m ==> inputs[i].nextMode == ""
    ensures Run(first, inputs)[m].mode == if k > 0 then inputs[k - 1].nextMode else first.mode
    decreases m - k
  {
    RunStart(first, inputs);
    if k < m {
      ModeInForce(first, inputs, k, m - 1);
      RunStep(first, inputs, m - 1);
    } else if k > 0 {
      RunStep(first, inputs, k - 1);
    }
  }

  function Times(states: seq<HybridState>): (r: seq<real>)
    ensures |r| == |states| && forall k :: 0 <= k < |r| ==> r[k] == states[k].time
  {
    seq(|states|, k requires 0 <= k < |states| => states[k].time)
  }

  function Profile(states: seq<HybridState>, name: string): (r: seq<real>)
    requires forall k :: 0 <= k < |states| ==> name in states[k].vars
    ensures |r| == |states| && forall k :: 0 <= k < |r| ==> r[k] == states[k].vars[name]
  {
    seq(|states|, k requires 0 <= k < |states| => states[k].vars[name])
  }

  function RunProfile(first: HybridState, inputs: seq<Input>, name: string): (r: seq<real>)
    requires name in first.vars
    ensures |r| == |inputs| + 1
    ensures forall k :: 0 <= k < |r| ==>
      name in Run(first, inputs)[k].vars && r[k] == Run(first, inputs)[k].vars[name]
  {
    var states := Run(first, inputs);
    assert forall k :: 0 <= k < |states| ==> name in states[k].vars by {
      forall k | 0 <= k < |states|
        ensures name in states[k].vars
      {
        VarsKept(first, inputs, k);
      }
    }
    Profile(states, name)
  }

  /** The step moves time forward and the variable at most at the given rate. */
  ghost predicate GentleStep(s: HybridState, input: Input, name: string, maxRate: real) {
    input.dt > 0.0 && Abs(Derivative(input.flow, s, name)) <= maxRate
  }

  lemma SampledStep(times: seq<real>, values: seq<real>, maxRate: real, i: nat, s: HybridState, input: Input,
                    name: string)
    requires 1 <= i < |times| && i < |values| && name in s.vars
    requires times[i - 1] == s.time && values[i - 1] == s.vars[name]
    requires times[i] == s.time + input.dt
    requires values[i] == Euler(s.vars[name], Derivative(input.flow, s, name), input.dt)
    ensures StepBounded(times, values, maxRate, i) <==> GentleStep(s, input, name, maxRate)
  {
    var d := Derivative(input.flow, s, name);
    assert times[i] - times[i - 1] == input.dt && values[i] - values[i - 1] == d * input.dt;
    if input.dt > 0.0 {
      WithinRate(d, input.dt, maxRate);
    }
  }

  lemma WithinRate(d: real, dt: real, maxRate: real)
    requires dt > 0.0
    ensures Abs(d * dt) <= maxRate * dt <==> Abs(d) <= maxRate
  {
    assert Abs(d * dt) == Abs(d) * dt;
    assert maxRate * dt - Abs(d) * dt == (maxRate - Abs(d)) * dt;
  }

  lemma RunSamples(first: HybridState, inputs: seq<Input>, name: string, k: nat)
    requires name in first.vars && k < |inputs|
    ensures
      var s := Run(first, inputs)[k];
      && name in s.vars
      && Times(Run(first, inputs))[k] == s.time
      && Times(Run(first, inputs))[k + 1] == s.time + inputs[k].dt
      && RunProfile(first, inputs, name)[k] == s.vars[name]
      && RunProfile(first, inputs, name)[k + 1]
         == Euler(s.vars[name], Derivative(inputs[k].flow, s, name), inputs[k].dt)
  {
    VarsKept(first, inputs, k);
    RunStep(first, inputs, k);
  }

  lemma StepIsBounded(first: HybridState, inputs: seq<Input>, name: string, maxRate: real, i: nat,
                      times: seq<real>, profile: seq<real>)
    requires name in first.vars && 1 <= i <= |inputs|
    requires times == Times(Run(first, inputs)) && profile == RunProfile(first, inputs, name)
    ensures StepBounded(times, profile, maxRate, i)
       <==> GentleStep(Run(first, inputs)[i - 1], inputs[i - 1], name, maxRate)
  {
    var s, input := Run(first, inputs)[i - 1], inputs[i - 1];
    RunSamples(first, inputs, name, i - 1);
    SampledStep(times, profile, maxRate, i, s, input, name);
  }

  /** The rate audit accepts a run's samples exactly when every step went forward in time with a
      derivative within the bound. */
  lemma RunPassesRateAudit(first: HybridState, inputs: seq<Input>, name: string, maxRate: real)
    requires name in first.vars
    ensures RateFaults(Times(Run(first, inputs)), RunProfile(first, inputs, name), maxRate, name, |inputs| + 1) == []
       <==> forall k :: 0 <= k < |inputs| ==> GentleStep(Run(first, inputs)[k], inputs[k], name, maxRate)
  {
    var times, profile := Times(Run(first, inputs)), RunProfile(first, inputs, name);
    RateFaultsLocal(times, profile, maxRate, name, |inputs| + 1);
    forall i | 1 <= i < |inputs| + 1
      ensures StepBounded(times, profile, maxRate, i)
         <==> GentleStep(Run(first, inputs)[i - 1], inputs[i - 1], name, maxRate)
    {
      StepIsBounded(first, inputs, name, maxRate, i, times, profile);
    }
    if RateFaults(times, profile, maxRate, name, |inputs| + 1) == [] {
      forall k | 0 <= k < |inputs|
        ensures GentleStep(Run(first, inputs)[k], inputs[k], name, maxRate)
      {
        assert StepBounded(times, profile, maxRate, k + 1);
      }
    }
  }

  /** A run of gentle steps stays in a cone: between any two samples the variable moves at most
      `maxRate` per unit of time. */
  lemma {:induction false} RunStaysInCone(first: HybridState, inputs: seq<Input>, name: string, maxRate: real)
    requires name in first.vars
    requires forall k :: 0 <= k < |inputs| ==> GentleStep(Run(first, inputs)[k], inputs[k], name, maxRate)
    ensures forall i, j :: 0 <= i < j <= |inputs| ==>
      Bounded(Times(Run(first, inputs)), RunProfile(first, inputs, name), maxRate, i, j)
  {
    RunPassesRateAudit(first, inputs, name, maxRate);
    RateAuditMeaning(Times(Run(first, inputs)), RunProfile(first, inputs, name), maxRate, name, |inputs| + 1);
  }

  // ----- How far a run moves

  /** The derivative a step uses: zero for a variable its flow leaves out. */
  ghost predicate HasSlope(first: HybridState, inputs: seq<Input>, name: string, k: nat, slope: real)
    requires k < |inputs|
  {
    var derivatives := inputs[k].flow(Run(first, inputs)[k]);
    slope == if name in derivatives then derivatives[name] else 0.0
  }

  /** Over a step time moves by its dt, and a variable by its derivative times that. */
  lemma StepMoves(first: HybridState, inputs: seq<Input>, name: string, k: nat, slope: real)
    requires name in first.vars && k < |inputs| && HasSlope(first, inputs, name, k, slope)
    ensures
      var s, t := Run(first, inputs)[k], Run(first, inputs)[k + 1];
      && t.time - s.time == inputs[k].dt && name in s.vars && name in t.vars
      && t.vars[name] - s.vars[name] == slope * (t.time - s.time)
  {
    VarsKept(first, inputs, k);
    RunStep(first, inputs, k);
  }

  /** From the earlier sample to the later, the value moves at least `lo` and at most `hi` per unit of time. */
  ghost predicate Between(times: seq<real>, values: seq<real>, lo: real, hi: real, i: nat, j: nat)
    requires i < |times| && i < |values| && j < |times| && j < |values|
  {
    lo * (times[j] - times[i]) <= values[j] - values[i] <= hi * (times[j] - times[i])
  }

  lemma LinesCompose(times: seq<real>, values: seq<real>, lo: real, hi: real, i: nat, j: nat, k: nat)
    requires i <= j <= k < |times| && k < |values|
    requires Between(times, values, lo, hi, i, j) && Between(times, values, lo, hi, j, k)
    ensures Between(times, values, lo, hi, i, k)
  {
    SumOfSteps(lo, times[j] - times[i], times[k] - times[j]);
    SumOfSteps(hi, times[j] - times[i], times[k] - times[j]);
    assert (times[j] - times[i]) + (times[k] - times[j]) == times[k] - times[i];
  }

  lemma {:induction false} StepStaysBetween(first: HybridState, inputs: seq<Input>, name: string, lo: real, hi: real,
                                            k: nat, times: seq<real>, values: seq<real>)
    requires name in first.vars && k < |inputs| && inputs[k].dt >= 0.0
    requires forall d :: HasSlope(first, inputs, name, k, d) ==> lo <= d <= hi
    requires times == Times(Run(first, inputs)) && values == RunProfile(first, inputs, name)
    ensures Between(times, values, lo, hi, k, k + 1)
  {
    var d := Derivative(inputs[k].flow, Run(first, inputs)[k], name);
    assert HasSlope(first, inputs, name, k, d);
    StepMoves(first, inputs, name, k, d);
    StepBetween(lo, d, hi, times[k + 1] - times[k]);
  }

  /** Along a run forward in time with derivatives between two bounds, a variable stays between two lines. */
  lemma {:induction false} RunStaysBetween(first: HybridState, inputs: seq<Input>, name: string, lo: real, hi: real,
                                           i: nat, j: nat)
    requires name in first.vars && i <= j <= |inputs|
    requires forall k :: i <= k < j ==> inputs[k].dt >= 0.0
    requires forall k, d :: i <= k < j && HasSlope(first, inputs, name, k, d) ==> lo <= d <= hi
    ensures Between(Times(Run(first, inputs)), RunProfile(first, inputs, name), lo, hi, i, j)
    decreases j - i
  {
    var times, values := Times(Run(first, inputs)), RunProfile(first, inputs, name);
    if i < j {
      RunStaysBetween(first, inputs, name, lo, hi, i, j - 1);
      StepStaysBetween(first, inputs, name, lo, hi, j - 1, times, values);
      LinesCompose(times, values, lo, hi, i, j - 1, j);
    }
  }

  lemma StepBetween(lo: real, d: real, hi: real, dt: real)
    requires lo <= d <= hi && dt >= 0.0
    ensures lo * dt <= d * dt <= hi * dt
  {
    assert (d - lo) * dt >= 0.0 && (hi - d) * dt >= 0.0;
  }

  lemma SumOfSteps(rate: real, before: real, dt: real)
    ensures rate * (before + dt) == rate * before + rate * dt
  {
  }

  /** A variable with one derivative throughout moves on a straight line, for steps of either sign. */
  lemma {:induction false} RunIsLine(first: HybridState, inputs: seq<Input>, name: string, slope: real, k: nat)
    requires name in first.vars && k <= |inputs|
    requires forall i :: 0 <= i < k ==> HasSlope(first, inputs, name, i, slope)
    ensures RunProfile(first, inputs, name)[k]
         == first.vars[name] + slope * (Times(Run(first, inputs))[k] - first.time)
  {
    RunStart(first, inputs);
    if k > 0 {
      RunIsLine(first, inputs, name, slope, k - 1);
      StepMoves(first, inputs, name, k - 1, slope);
      SumOfSteps(slope, Times(Run(first, inputs))[k - 1] - first.time, inputs[k - 1].dt);
    }
  }

  lemma PositiveStep(d: real, dt: real)
    requires d > 0.0 && dt > 0.0
    ensures d * dt > 0.0
  {
  }

  /** With steps forward in time and positive derivatives a variable grows. */
  lemma {:induction false} RunGrows(first: HybridState, inputs: seq<Input>, name: string, i: nat, j: nat)
    requires name in first.vars && i < j <= |inputs|
    requires forall k :: i <= k < j ==> inputs[k].dt > 0.0
    requires forall k, d :: i <= k < j && HasSlope(first, inputs, name, k, d) ==> d > 0.0
    ensures RunProfile(first, inputs, name)[i] < RunProfile(first, inputs, name)[j]
    decreases j - i
  {
    var d := Derivative(inputs[j - 1].flow, Run(first, inputs)[j - 1], name);
    assert HasSlope(first, inputs, name, j - 1, d);
    StepMoves(first, inputs, name, j - 1, d);
    var s, t := Run(first, inputs)[j - 1], Run(first, inputs)[j];
    assert t.time - s.time > 0.0;
    PositiveStep(d, t.time - s.time);
    if i < j - 1 {
      RunGrows(first, inputs, name, i, j - 1);
    }
  }

  // ----- The trajectory auditor

  datatype SafetyBounds = SafetyBounds(maxVelocity: real, maxTemperature: real, maxKineticEnergy: real)

  const DEFAULT_BOUNDS := SafetyBounds(100.0, 350.0, 1000000.0)

  datatype SafetyViolation =
    | Velocity(time: real, value: real, limit: real)
    | Thermal(time: real, value: real, limit: real)
    | KineticEnergy(time: real, value: real, limit: real)

  function KineticEnergyOf(mass: real, v: real): real {
    0.5 * mass * (v * v)
  }

  function SampleFaults(t: real, v: real, temp: real, mass: real, bounds: SafetyBounds): seq<SafetyViolation> {
    var ke := KineticEnergyOf(mass, v);
    (if v > bounds.maxVelocity then [Velocity(t, v, bounds.maxVelocity)] else [])
    + (if temp > bounds.maxTemperature then [Thermal(t, temp, bounds.maxTemperature)] else [])
    + (if ke > bounds.maxKineticEnergy then [KineticEnergy(t, ke, bounds.maxKineticEnergy)] else [])
  }

  function SafetyFaults(times: seq<real>, vs: seq<real>, temps: seq<real>, mass: real, bounds: SafetyBounds, n: nat)
    : seq<SafetyViolation>
    requires n <= |times| && n <= |vs| && n <= |temps|
  {
    if n == 0 then []
    else SafetyFaults(times, vs, temps, mass, bounds, n - 1)
         + SampleFaults(times[n - 1], vs[n - 1], temps[n - 1], mass, bounds)
  }

  method AuditTrajectory(times: seq<real>, vs: seq<real>, temps: seq<real>, mass: real, given: Option<SafetyBounds>)
    returns (ok: bool, violations: seq<SafetyViolation>)
    ensures ok <==> violations == []
    ensures violations == SafetyFaults(times, vs, temps, mass,
                                       if given.Some? then given.value else SafetyBounds(100.0, 350.0, 1000000.0),
                                       Min(|times|, Min(|vs|, |temps|)))
  {
    var bounds := if given.Some? then given.value else DEFAULT_BOUNDS;
    violations := [];
    for k := 0 to Min(|times|, Min(|vs|, |temps|))
      invariant violations == SafetyFaults(times, vs, temps, mass, bounds, k)
    {
      if vs[k] > bounds.maxVelocity {
        violations := violations + [Velocity(times[k], vs[k], bounds.maxVelocity)];
      }
      if temps[k] > bounds.maxTemperature {
        violations := violations + [Thermal(times[k], temps[k], bounds.maxTemperature)];
      }
      var ke := KineticEnergyOf(mass, vs[k]);
      if ke > bounds.maxKineticEnergy {
        violations := violations + [KineticEnergy(times[k], ke, bounds.maxKineticEnergy)];
      }
    }
    ok := |violations| == 0;
  }

  /** What is reported about a sample. */
  ghost predicate SafetyFinding(t: real, v: real, temp: real, mass: real, bounds: SafetyBounds,
                                found: SafetyViolation) {
    || (v > bounds.maxVelocity && found == Velocity(t, v, bounds.maxVelocity))
    || (temp > bounds.maxTemperature && found == Thermal(t, temp, bounds.maxTemperature))
    || (&& 0.5 * mass * (v * v) > bounds.maxKineticEnergy
        && found == KineticEnergy(t, 0.5 * mass * (v * v), bounds.maxKineticEnergy))
  }

  /** The auditor reports exactly the samples that exceed a bound. */
  lemma {:induction false} SafetyFindings(times: seq<real>, vs: seq<real>, temps: seq<real>, mass: real,
                                          bounds: SafetyBounds, n: nat, found: SafetyViolation)
    requires n <= |times| && n <= |vs| && n <= |temps|
    ensures found in SafetyFaults(times, vs, temps, mass, bounds, n)
       <==> exists k :: 0 <= k < n && SafetyFinding(times[k], vs[k], temps[k], mass, bounds, found)
  {
    if n > 0 {
      SafetyFindings(times, vs, temps, mass, bounds, n - 1, found);
    }
  }

  ghost predicate OnlyKinetic(violations: seq<SafetyViolation>) {
    forall k :: 0 <= k < |violations| ==> violations[k].KineticEnergy?
  }

  lemma {:induction false} WithinLimitsOnlyKinetic(times: seq<real>, vs: seq<real>, temps: seq<real>, mass: real,
                                                   bounds: SafetyBounds, n: nat)
    requires n <= |times| && n <= |vs| && n <= |temps|
    requires forall k :: 0 <= k < n ==> vs[k] <= bounds.maxVelocity && temps[k] <= bounds.maxTemperature
    ensures OnlyKinetic(SafetyFaults(times, vs, temps, mass, bounds, n))
  {
    if n > 0 {
      WithinLimitsOnlyKinetic(times, vs, temps, mass, bounds, n - 1);
      assert OnlyKinetic(SampleFaults(times[n - 1], vs[n - 1], temps[n - 1], mass, bounds));
    }
  }

  ghost predicate AllInBand(truth: seq<real>, measured: seq<real>, noise: real) {
    |truth| == |measured| && forall k :: 0 <= k < |truth| ==> InBand(truth[k], measured[k], noise)
  }

  lemma PassingBoundsTruth(times: seq<real>, truth: seq<real>, measured: seq<real>, maxValue: real, maxRate: real,
                           noise: real, k: nat)
    requires Passes(times, measured, maxValue, maxRate, noise)
    requires AllInBand(truth, measured, noise) && k < |times| && k < |truth|
    ensures truth[k] <= maxValue
  {
    assert BandWithin(measured[k], noise, maxValue, None);
    assert InBand(truth[k], measured[k], noise);
    assert Within(truth[k], maxValue, None);
  }

  /** Measured samples that pass the combined audit leave no velocity or temperature violation in
      any true trajectory inside the noise band. */
  lemma GuardedTruthIsSafe(times: seq<real>, limits: Limits, mass: real, maxKineticEnergy: real,
                           vs: seq<real>, temps: seq<real>, trueVs: seq<real>, trueTemps: seq<real>)
    requires PassesBoth(times, vs, temps, limits)
    requires AllInBand(trueVs, vs, limits.noise) && AllInBand(trueTemps, temps, limits.noise)
    ensures OnlyKinetic(SafetyFaults(times, trueVs, trueTemps, mass,
                                     SafetyBounds(limits.maxVelocity, limits.maxTemperature, maxKineticEnergy),
                                     Min(|times|, Min(|trueVs|, |trueTemps|))))
  {
    var n := Min(|times|, Min(|trueVs|, |trueTemps|));
    var bounds := SafetyBounds(limits.maxVelocity, limits.maxTemperature, maxKineticEnergy);
    forall k | 0 <= k < n
      ensures trueVs[k] <= bounds.maxVelocity && trueTemps[k] <= bounds.maxTemperature
    {
      PassingBoundsTruth(times, trueVs, vs, limits.maxVelocity, limits.maxAccel, limits.noise, k);
      PassingBoundsTruth(times, trueTemps, temps, limits.maxTemperature, limits.maxThermalRate, limits.noise, k);
    }
    WithinLimitsOnlyKinetic(times, trueVs, trueTemps, mass, bounds, n);
  }
}
