/** Interval and rate-of-change guards over sampled trajectories, in exact reals
    (src/mvpc/phys/interval_guards.py). */
module RateGuards {
  import opened Wrappers

  function Abs(x: real): (r: real)
    ensures r >= 0.0 && (r == x || r == -x)
  {
    if x < 0.0 then -x else x
  }

  function Min(a: nat, b: nat): (r: nat)
    ensures r <= a && r <= b && (r == a || r == b)
  {
    if a < b then a else b
  }

  datatype Interval = Interval(lo: real, hi: real) {
    ghost predicate Has(u: real) {
      lo <= u <= hi
    }

    function ExpandRelative(frac: real): Interval {
      var mid := 0.5 * (lo + hi);
      var pad := Abs(mid) * frac + frac;
      Ordered(lo - pad, hi + pad)
    }
  }

  /** Building an interval puts its ends in order. */
  function Ordered(lo: real, hi: real): Interval {
    if lo > hi then Interval(hi, lo) else Interval(lo, hi)
  }

  function PointToInterval(value: real, noise: real): Interval {
    Ordered(value, value).ExpandRelative(noise)
  }

  /** The band around a sample: every value no further than the noise share of |value| + 1. */
  ghost predicate InBand(u: real, value: real, noise: real) {
    Abs(u - value) <= Abs(noise) * (Abs(value) + 1.0)
  }

  /** A sample's interval is its band, for noise of either sign. */
  lemma PointIntervalIsBand(value: real, noise: real)
    ensures forall u :: PointToInterval(value, noise).Has(u) <==> InBand(u, value, noise)
    ensures InBand(value, value, noise)
  {
    var p := Abs(noise) * (Abs(value) + 1.0);
    PointIntervalEnds(value, noise, p);
    assert Abs(value - value) == 0.0;
  }

  lemma PointIntervalEnds(value: real, noise: real, p: real)
    requires p == Abs(noise) * (Abs(value) + 1.0)
    ensures p >= 0.0 && PointToInterval(value, noise) == Interval(value - p, value + p)
  {
    var pad := Abs(value) * noise + noise;
    PadWidth(Abs(value), noise);
    assert Ordered(value, value) == Interval(value, value);
    assert 0.5 * (value + value) == value;
    assert PointToInterval(value, noise) == Ordered(value - pad, value + pad);
  }

  lemma PadWidth(size: real, noise: real)
    requires size >= 0.0
    ensures Abs(size * noise + noise) == Abs(noise) * (size + 1.0) >= 0.0
  {
    assert size * noise + noise == noise * (size + 1.0);
    assert -(noise * (size + 1.0)) == (-noise) * (size + 1.0);
    assert noise >= 0.0 ==> noise * (size + 1.0) >= 0.0;
    assert noise < 0.0 ==> (-noise) * (size + 1.0) >= 0.0;
  }

  datatype Violation =
    | AboveMax(name: string, time: real, band: Interval, limit: real)
    | BelowMin(name: string, time: real, band: Interval, limit: real)
    | TimeNotIncreasing(index: nat)
    | RateTooHigh(name: string, rate: real, time: real, limit: real)

  // ----- Interval audit

  function BandFaults(time: real, value: real, maxValue: real, minValue: Option<real>, noise: real, name: string)
    : seq<Violation>
  {
    var iv := PointToInterval(value, noise);
    (if iv.hi > maxValue then [AboveMax(name, time, iv, maxValue)] else [])
    + (if minValue.Some? && iv.lo < minValue.value then [BelowMin(name, time, iv, minValue.value)] else [])
  }

  /** The violations of the first n samples, in order. */
  function IntervalFaults(times: seq<real>, values: seq<real>, maxValue: real, minValue: Option<real>, noise: real,
                          name: string, n: nat): seq<Violation>
    requires n <= |times| && n <= |values|
  {
    if n == 0 then []
    else IntervalFaults(times, values, maxValue, minValue, noise, name, n - 1)
         + BandFaults(times[n - 1], values[n - 1], maxValue, minValue, noise, name)
  }

  method AuditIntervalTrajectory(times: seq<real>, values: seq<real>, maxValue: real, minValue: Option<real>,
                                 noise: real, name: string)
    returns (ok: bool, violations: seq<Violation>)
    ensures ok <==> violations == []
    ensures violations
         == IntervalFaults(times, values, maxValue, minValue, noise, name, Min(|times|, |values|))
  {
    violations := [];
    for k := 0 to Min(|times|, |values|)
      invariant violations == IntervalFaults(times, values, maxValue, minValue, noise, name, k)
    {
      var iv := PointToInterval(values[k], noise);
      if iv.hi > maxValue {
        violations := violations + [AboveMax(name, times[k], iv, maxValue)];
      }
      if minValue.Some? && iv.lo < minValue.value {
        violations := violations + [BelowMin(name, times[k], iv, minValue.value)];
      }
    }
    ok := |violations| == 0;
  }

  ghost predicate Within(u: real, maxValue: real, minValue: Option<real>) {
    u <= maxValue && (minValue.Some? ==> minValue.value <= u)
  }

  ghost predicate BandWithin(value: real, noise: real, maxValue: real, minValue: Option<real>) {
    forall u :: InBand(u, value, noise) ==> Within(u, maxValue, minValue)
  }

  lemma NoBandFaults(time: real, value: real, maxValue: real, minValue: Option<real>, noise: real, name: string)
    ensures BandFaults(time, value, maxValue, minValue, noise, name) == []
       <==> BandWithin(value, noise, maxValue, minValue)
  {
    PointIntervalIsBand(value, noise);
    var iv := PointToInterval(value, noise);
    assert iv.lo <= iv.hi;
    assert iv.Has(iv.lo) && iv.Has(iv.hi);
    assert InBand(iv.lo, value, noise) && InBand(iv.hi, value, noise);
    if BandFaults(time, value, maxValue, minValue, noise, name) == [] {
      forall u | InBand(u, value, noise)
        ensures Within(u, maxValue, minValue)
      {
        assert iv.Has(u);
      }
    }
  }

  /** The interval audit accepts exactly when every value in every sample's band respects the limits. */
  lemma {:induction false} IntervalAuditMeaning(times: seq<real>, values: seq<real>, maxValue: real,
                                                minValue: Option<real>, noise: real, name: string, n: nat)
    requires n <= |times| && n <= |values|
    ensures IntervalFaults(times, values, maxValue, minValue, noise, name, n) == []
       <==> forall k :: 0 <= k < n ==> BandWithin(values[k], noise, maxValue, minValue)
  {
    if n > 0 {
      IntervalAuditMeaning(times, values, maxValue, minValue, noise, name, n - 1);
      NoBandFaults(times[n - 1], values[n - 1], maxValue, minValue, noise, name);
    }
  }

  /** The violation a sample's band gives rise to, with the band itself. */
  ghost predicate BandFinding(time: real, value: real, maxValue: real, minValue: Option<real>, noise: real,
                              name: string, v: Violation) {
    var width := Abs(noise) * (Abs(value) + 1.0);
    || (value + width > maxValue && v == AboveMax(name, time, Interval(value - width, value + width), maxValue))
    || (&& minValue.Some? && value - width < minValue.value
        && v == BelowMin(name, time, Interval(value - width, value + width), minValue.value))
  }

  lemma FaultsOfBand(time: real, value: real, maxValue: real, minValue: Option<real>, noise: real, name: string,
                     v: Violation)
    ensures v in BandFaults(time, value, maxValue, minValue, noise, name)
       <==> BandFinding(time, value, maxValue, minValue, noise, name, v)
  {
    PointIntervalEnds(value, noise, Abs(noise) * (Abs(value) + 1.0));
  }

  /** The interval audit reports exactly the samples whose band leaves the limits. */
  lemma {:induction false} IntervalFindings(times: seq<real>, values: seq<real>, maxValue: real, minValue: Option<real>,
                                            noise: real, name: string, n: nat, v: Violation)
    requires n <= |times| && n <= |values|
    ensures v in IntervalFaults(times, values, maxValue, minValue, noise, name, n)
       <==> exists k :: 0 <= k < n && BandFinding(times[k], values[k], maxValue, minValue, noise, name, v)
  {
    if n > 0 {
      IntervalFindings(times, values, maxValue, minValue, noise, name, n - 1, v);
      FaultsOfBand(times[n - 1], values[n - 1], maxValue, minValue, noise, name, v);
    }
  }

  // ----- Rate audit

  function StepFaults(times: seq<real>, values: seq<real>, maxRate: real, name: string, i: nat): seq<Violation>
    requires 1 <= i < |times| && i < |values|
  {
    var dt := times[i] - times[i - 1];
    if dt <= 0.0 then [TimeNotIncreasing(i)]
    else
      var rate := Abs((values[i] - values[i - 1]) / dt);
      if rate > maxRate then [RateTooHigh(name, rate, times[i], maxRate)] else []
  }

  /** The violations of the steps into samples 1 to n - 1, in order. */
  function RateFaults(times: seq<real>, values: seq<real>, maxRate: real, name: string, n: nat): seq<Violation>
    requires n <= |times| && n <= |values|
  {
    if n <= 1 then []
    else RateFaults(times, values, maxRate, name, n - 1) + StepFaults(times, values, maxRate, name, n - 1)
  }

  method AuditRateOfChange(times: seq<real>, values: seq<real>, maxRate: real, name: string)
    returns (ok: bool, violations: seq<Violation>)
    ensures ok <==> violations == []
    ensures violations == RateFaults(times, values, maxRate, name, Min(|times|, |values|))
  {
    violations := [];
    var n := Min(|times|, |values|);
    var i := 1;
    while i < n
      invariant 1 <= i && (i <= n || n == 0)
      invariant violations == RateFaults(times, values, maxRate, name, Min(i, n))
    {
      var dt := times[i] - times[i - 1];
      i := i + 1;
      if dt <= 0.0 {
        violations := violations + [TimeNotIncreasing(i - 1)];
        continue;
      }
      var rate := (values[i - 1] - values[i - 2]) / dt;
      if Abs(rate) > maxRate {
        violations := violations + [RateTooHigh(name, Abs(rate), times[i - 1], maxRate)];
      }
    }
    ok := |violations| == 0;
  }

  /** From the earlier sample to the later, time grows and the value moves at most `maxRate` per unit of time. */
  ghost predicate Bounded(times: seq<real>, values: seq<real>, maxRate: real, i: nat, j: nat)
    requires i < |times| && i < |values| && j < |times| && j < |values|
  {
    times[i] < times[j] && Abs(values[j] - values[i]) <= maxRate * (times[j] - times[i])
  }

  /** The same for a sample and the one before it. */
  ghost predicate StepBounded(times: seq<real>, values: seq<real>, maxRate: real, i: nat)
    requires 1 <= i < |times| && i < |values|
  {
    Bounded(times, values, maxRate, i - 1, i)
  }

  lemma NoStepFaults(times: seq<real>, values: seq<real>, maxRate: real, name: string, i: nat)
    requires 1 <= i < |times| && i < |values|
    ensures StepFaults(times, values, maxRate, name, i) == [] <==> StepBounded(times, values, maxRate, i)
  {
    var dt := times[i] - times[i - 1];
  }

  lemma {:induction false} RateFaultsLocal(times: seq<real>, values: seq<real>, maxRate: real, name: string, n: nat)
    requires n <= |times| && n <= |values|
    ensures RateFaults(times, values, maxRate, name, n) == []
       <==> forall i :: 1 <= i < n ==> StepBounded(times, values, maxRate, i)
  {
    if n > 1 {
      RateFaultsLocal(times, values, maxRate, name, n - 1);
      NoStepFaults(times, values, maxRate, name, n - 1);
    }
  }

  lemma BoundsCompose(times: seq<real>, values: seq<real>, maxRate: real, i: nat, j: nat, k: nat)
    requires i < j < k < |times| && k < |values|
    requires Bounded(times, values, maxRate, i, j) && Bounded(times, values, maxRate, j, k)
    ensures Bounded(times, values, maxRate, i, k)
  {
    assert maxRate * (times[k] - times[i]) == maxRate * (times[j] - times[i]) + maxRate * (times[k] - times[j]);
  }

  lemma {:induction false} LocalIsGlobal(times: seq<real>, values: seq<real>, maxRate: real, n: nat, i: nat, j: nat)
    requires n <= |times| && n <= |values| && i < j < n
    requires forall m :: 1 <= m < n ==> StepBounded(times, values, maxRate, m)
    ensures Bounded(times, values, maxRate, i, j)
    decreases j
  {
    assert StepBounded(times, values, maxRate, j);
    if i < j - 1 {
      LocalIsGlobal(times, values, maxRate, n, i, j - 1);
      BoundsCompose(times, values, maxRate, i, j - 1, j);
    }
  }

  /** The audit of neighbouring samples accepts exactly when every pair of samples is bounded. */
  lemma RateAuditMeaning(times: seq<real>, values: seq<real>, maxRate: real, name: string, n: nat)
    requires n <= |times| && n <= |values|
    ensures RateFaults(times, values, maxRate, name, n) == []
       <==> forall i, j :: 0 <= i < j < n ==> Bounded(times, values, maxRate, i, j)
  {
    RateFaultsLocal(times, values, maxRate, name, n);
    if RateFaults(times, values, maxRate, name, n) == [] {
      forall i, j | 0 <= i < j < n
        ensures Bounded(times, values, maxRate, i, j)
      {
        LocalIsGlobal(times, values, maxRate, n, i, j);
      }
    } else {
      var i :| 1 <= i < n && !StepBounded(times, values, maxRate, i);
      assert 0 <= i - 1 < i < n;
    }
  }

  /** What the rate audit says about the step into sample i. */
  ghost predicate StepFinding(times: seq<real>, values: seq<real>, maxRate: real, name: string, i: nat, v: Violation)
    requires 1 <= i < |times| && i < |values|
  {
    if times[i] <= times[i - 1] then v == TimeNotIncreasing(i)
    else
      && v.RateTooHigh? && v == RateTooHigh(name, v.rate, times[i], maxRate) && v.rate > maxRate
      && v.rate * (times[i] - times[i - 1]) == Abs(values[i] - values[i - 1])
  }

  lemma Quotient(dv: real, dt: real)
    requires dt > 0.0
    ensures Abs(dv / dt) * dt == Abs(dv)
  {
    assert (dv / dt) * dt == dv;
    assert dv >= 0.0 ==> dv / dt >= 0.0;
    assert dv < 0.0 ==> dv / dt < 0.0;
  }

  lemma OneQuotient(a: real, b: real, dt: real)
    requires dt > 0.0 && a * dt == b * dt
    ensures a == b
  {
    assert (a - b) * dt == 0.0;
  }

  lemma RateOfStep(times: seq<real>, values: seq<real>, maxRate: real, name: string, i: nat, v: Violation)
    requires 1 <= i < |times| && i < |values|
    ensures v in StepFaults(times, values, maxRate, name, i) <==> StepFinding(times, values, maxRate, name, i, v)
  {
    var dt, dv := times[i] - times[i - 1], values[i] - values[i - 1];
    if dt > 0.0 {
      Quotient(dv, dt);
      if v.RateTooHigh? && v.rate * dt == Abs(dv) {
        OneQuotient(v.rate, Abs(dv / dt), dt);
      }
    }
  }

  /** The rate audit reports exactly the steps that do not go forward in time or exceed the rate. */
  lemma {:induction false} RateFindings(times: seq<real>, values: seq<real>, maxRate: real, name: string, n: nat,
                                        v: Violation)
    requires n <= |times| && n <= |values|
    ensures v in RateFaults(times, values, maxRate, name, n)
       <==> exists i :: 1 <= i < n && StepFinding(times, values, maxRate, name, i, v)
  {
    if n > 1 {
      RateFindings(times, values, maxRate, name, n - 1, v);
      RateOfStep(times, values, maxRate, name, n - 1, v);
    }
  }

  // ----- The combined audit

  datatype Limits = Limits(maxVelocity: real, maxTemperature: real, maxAccel: real, maxThermalRate: real, noise: real)

  method AuditCps(times: seq<real>, velocity: seq<real>, temperature: seq<real>, limits: Limits)
    returns (ok: bool, violations: seq<Violation>)
    ensures ok <==> violations == []
    ensures ok <==> PassesBoth(times, velocity, temperature, limits)
    ensures
      var n, m := Min(|times|, |velocity|), Min(|times|, |temperature|);
      violations
        == IntervalFaults(times, velocity, limits.maxVelocity, None, limits.noise, "v", n)
           + IntervalFaults(times, temperature, limits.maxTemperature, None, limits.noise, "T", m)
           + RateFaults(times, velocity, limits.maxAccel, "v", n)
           + RateFaults(times, temperature, limits.maxThermalRate, "T", m)
  {
    var okV, bandsV := AuditIntervalTrajectory(times, velocity, limits.maxVelocity, None, limits.noise, "v");
    var okT, bandsT := AuditIntervalTrajectory(times, temperature, limits.maxTemperature, None, limits.noise, "T");
    var okVr, ratesV := AuditRateOfChange(times, velocity, limits.maxAccel, "v");
    var okTr, ratesT := AuditRateOfChange(times, temperature, limits.maxThermalRate, "T");
    AuditsMeanPasses(times, velocity, limits.maxVelocity, limits.maxAccel, limits.noise, "v");
    AuditsMeanPasses(times, temperature, limits.maxTemperature, limits.maxThermalRate, limits.noise, "T");
    violations := bandsV + bandsT + ratesV + ratesT;
    ok := |violations| == 0;
  }

  /** What the two audits of one signal promise together: bands below the limit, bounded change overall. */
  ghost predicate Passes(times: seq<real>, values: seq<real>, maxValue: real, maxRate: real, noise: real) {
    && (forall k :: 0 <= k < |times| && k < |values| ==> BandWithin(values[k], noise, maxValue, None))
    && (forall i, j :: 0 <= i < j < |times| && j < |values| ==> Bounded(times, values, maxRate, i, j))
  }

  ghost predicate PassesBoth(times: seq<real>, velocity: seq<real>, temperature: seq<real>, limits: Limits) {
    && Passes(times, velocity, limits.maxVelocity, limits.maxAccel, limits.noise)
    && Passes(times, temperature, limits.maxTemperature, limits.maxThermalRate, limits.noise)
  }

  lemma AuditsMeanPasses(times: seq<real>, values: seq<real>, maxValue: real, maxRate: real, noise: real, name: string)
    ensures
      var n := Min(|times|, |values|);
      Passes(times, values, maxValue, maxRate, noise)
      <==> (IntervalFaults(times, values, maxValue, None, noise, name, n) == []
            && RateFaults(times, values, maxRate, name, n) == [])
  {
    var n := Min(|times|, |values|);
    IntervalAuditMeaning(times, values, maxValue, None, noise, name, n);
    RateAuditMeaning(times, values, maxRate, name, n);
  }
}
