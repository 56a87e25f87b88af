/** The adaptive Metropolis-Hastings sampler (`adaptive_metropolis_hastings`):
    a Gaussian random-walk proposal whose variance the controller rescales after
    every `checkInterval` steps, counting from the first step, burn-in included. */
module AdaptiveMetropolisHastings {
  import opened Failures
  import opened Acceptance
  import opened Thinning
  import Controller
  import Statistics

  /** The inputs of one run. `gaussian(mean, variance, noise)` is the draw from
      Normal(mean, sqrt(variance)) with its random input made explicit. It is
      defined for every variance >= 0: a zero variance gives a zero scale and
      the draw is the mean itself. */
  datatype Sampler = Sampler(
    target: real -> real,
    gaussian: (real, real, real) --> real,
    initial: real,
    initialVariance: real,
    checkInterval: nat,
    increase: real,
    decrease: real,
    burnIn: nat,
    thin: nat,
    draws: seq<Draw>)

  ghost predicate GaussianDefined(gaussian: (real, real, real) --> real)
  {
    forall mean, variance, noise :: variance >= 0.0 ==> gaussian.requires(mean, variance, noise)
  }

  /** What the run needs of its inputs: positive density at the starting
      point, uniform draws, and a variance and factors that are not negative,
      so that every variance the loop reaches has a real square root. */
  ghost predicate WellFormed(s: Sampler)
  {
    && s.target(s.initial) > 0.0
    && UniformDraws(s.draws)
    && s.initialVariance >= 0.0
    && s.increase >= 0.0
    && s.decrease >= 0.0
    && GaussianDefined(s.gaussian)
  }

  /** Inputs for which the loop itself runs to completion (`% thin` is defined). */
  ghost predicate Valid(s: Sampler)
  {
    WellFormed(s) && s.thin >= 1
  }

  /** The loop variables. */
  datatype State = State(
    current: real,
    variance: real,
    samples: seq<real>,
    rates: seq<real>,
    intervalAccepted: nat,
    intervalCount: nat)

  /** What holds of the loop variables before and after every step: the ratio
      and the proposal are defined, the interval counters are consistent, and
      every recorded rate is a proportion. */
  predicate Consistent(s: Sampler, st: State)
  {
    && s.target(st.current) > 0.0
    && st.variance >= 0.0
    && st.intervalAccepted <= st.intervalCount
    && (s.checkInterval >= 1 ==> st.intervalCount < s.checkInterval)
    && forall j :: 0 <= j < |st.rates| ==> 0.0 <= st.rates[j] <= 1.0
  }

  function Initial(s: Sampler): State
  {
    State(s.initial, s.initialVariance, [], [], 0, 0)
  }

  /** The value proposed at step i from `current` at `variance`. */
  function Proposed(s: Sampler, current: real, variance: real, i: nat): real
    requires GaussianDefined(s.gaussian) && variance >= 0.0 && i < |s.draws|
  {
    s.gaussian(current, variance, s.draws[i].noise)
  }

  /** Loop step i: propose, accept or reject, count the acceptance in the
      current interval, store the state if the step is kept, and when the
      interval is full record its rate, rescale the variance and reset. */
  function Step(s: Sampler, st: State, i: nat): (next: State)
    requires Valid(s) && i < |s.draws| && Consistent(s, st)
    ensures Consistent(s, next)
  {
    var proposed := Proposed(s, st.current, st.variance, i);
    var accept := Accepts(s.target, st.current, proposed, s.draws[i].u);
    AcceptedHasPositiveDensity(s.target, st.current, proposed, s.draws[i].u);
    var current := if accept then proposed else st.current;
    var accepted := if accept then st.intervalAccepted + 1 else st.intervalAccepted;
    var samples := if Kept(i, s.burnIn, s.thin) then st.samples + [current] else st.samples;
    var count := st.intervalCount + 1;
    if count == s.checkInterval then
      var rate := accepted as real / s.checkInterval as real;
      Statistics.FractionInUnit(accepted, s.checkInterval);
      var variance := Controller.AdaptVariance(st.variance, rate, s.increase, s.decrease);
      State(current, variance, samples, st.rates + [rate], 0, 0)
    else
      State(current, st.variance, samples, st.rates, accepted, count)
  }

  /** The loop variables after the first n steps. */
  function Run(s: Sampler, n: nat): (st: State)
    requires Valid(s) && n <= |s.draws|
    ensures Consistent(s, st)
  {
    if n == 0 then Initial(s) else Step(s, Run(s, n - 1), n - 1)
  }

  /** Whether step i accepted its proposal. */
  predicate AcceptedAt(s: Sampler, i: nat)
    requires Valid(s) && i < |s.draws|
  {
    var st := Run(s, i);
    Accepts(s.target, st.current, Proposed(s, st.current, st.variance, i), s.draws[i].u)
  }

  /** The number of accepting steps i with lo <= i < n. */
  function Acceptances(s: Sampler, lo: nat, n: nat): nat
    requires Valid(s) && n <= |s.draws|
  {
    if n <= lo then 0
    else Acceptances(s, lo, n - 1) + (if AcceptedAt(s, n - 1) then 1 else 0)
  }

  /** The chain state after each of the first n steps. */
  function Trace(s: Sampler, n: nat): (t: seq<real>)
    requires Valid(s) && n <= |s.draws|
    ensures |t| == n
  {
    if n == 0 then [] else Trace(s, n - 1) + [Run(s, n).current]
  }

  /** Advancing the step counter m to m + 1: the quotient and remainder by b
      move exactly as the loop's rate count and interval counter do. */
  lemma CounterArithmetic(m: nat, b: nat, rates: nat, count: nat, rates': nat, count': nat)
    requires b >= 1 && rates == m / b && count == m % b
    requires count + 1 == b ==> rates' == rates + 1 && count' == 0
    requires count + 1 != b ==> rates' == rates && count' == count + 1
    ensures rates' == (m + 1) / b && count' == (m + 1) % b
  {
    assert m == rates * b + count;
    if count + 1 == b {
      assert m + 1 == (rates + 1) * b;
      DivIs(m + 1, b, rates + 1);
    } else {
      assert m + 1 == rates * b + count + 1;
      DivIs(m + 1, b, rates);
    }
  }

  /** How one step changes the interval bookkeeping. */
  lemma CountersStep(s: Sampler, n: nat)
    requires Valid(s) && 0 < n <= |s.draws|
    ensures var before, after := Run(s, n - 1), Run(s, n);
      var accepted := before.intervalAccepted + (if AcceptedAt(s, n - 1) then 1 else 0);
      if before.intervalCount + 1 == s.checkInterval then
        var rate := accepted as real / s.checkInterval as real;
        && after.rates == before.rates + [rate]
        && after.variance == Controller.AdaptVariance(before.variance, rate, s.increase, s.decrease)
        && after.intervalAccepted == 0 && after.intervalCount == 0
      else
        && after.rates == before.rates
        && after.variance == before.variance
        && after.intervalAccepted == accepted && after.intervalCount == before.intervalCount + 1
  {
  }

  /** When step m closes an interval, that interval started at (m / b) * b
      and the next one starts at m + 1. */
  lemma IntervalEnd(m: nat, b: nat)
    requires b >= 1 && m % b + 1 == b
    ensures m - m % b == (m / b) * b
    ensures m + 1 == (m / b + 1) * b
  {
    var q := m / b;
    assert m == q * b + m % b;
    assert (q + 1) * b == q * b + b;
  }

  /** After n steps one rate has been recorded per completed interval, and the
      trailing partial interval is still open, never recorded. Without a
      positive check interval the counter never matches and nothing is recorded. */
  lemma {:induction false} IntervalBookkeeping(s: Sampler, n: nat)
    requires Valid(s) && n <= |s.draws|
    ensures s.checkInterval >= 1 ==>
              |Run(s, n).rates| == n / s.checkInterval && Run(s, n).intervalCount == n % s.checkInterval
    ensures s.checkInterval == 0 ==> |Run(s, n).rates| == 0 && Run(s, n).intervalCount == n
  {
    if n > 0 {
      IntervalBookkeeping(s, n - 1);
      CountersStep(s, n);
      var before, after := Run(s, n - 1), Run(s, n);
      if s.checkInterval >= 1 {
        CounterArithmetic(n - 1, s.checkInterval,
          |before.rates|, before.intervalCount, |after.rates|, after.intervalCount);
      }
    }
  }

  /** The j-th check interval, steps j * checkInterval up to (j + 1) * checkInterval,
      is complete within the first n steps. */
  predicate IntervalEndsBy(s: Sampler, j: nat, n: nat)
  {
    s.checkInterval >= 1 && (j + 1) * s.checkInterval <= n
  }

  /** The fraction of accepting steps in the j-th check interval. */
  function IntervalRate(s: Sampler, j: nat): real
    requires Valid(s) && IntervalEndsBy(s, j, |s.draws|)
  {
    var ci := s.checkInterval;
    Acceptances(s, j * ci, (j + 1) * ci) as real / ci as real
  }

  /** The interval counter holds the acceptances since the last check,
      burn-in steps included. */
  lemma {:induction false} IntervalAcceptances(s: Sampler, n: nat)
    requires Valid(s) && n <= |s.draws|
    ensures Run(s, n).intervalCount <= n
    ensures Run(s, n).intervalAccepted == Acceptances(s, n - Run(s, n).intervalCount, n)
  {
    if n > 0 {
      IntervalAcceptances(s, n - 1);
      CountersStep(s, n);
      var before := Run(s, n - 1);
      assert Acceptances(s, n - 1 - before.intervalCount, n) ==
             before.intervalAccepted + (if AcceptedAt(s, n - 1) then 1 else 0);
    }
  }

  /** The j-th recorded rate is the fraction of accepting steps in the j-th
      block of checkInterval steps, counted from the first step. */
  lemma {:induction false} IntervalRates(s: Sampler, n: nat)
    requires Valid(s) && n <= |s.draws|
    ensures forall j :: 0 <= j < |Run(s, n).rates| ==>
              IntervalEndsBy(s, j, n) && Run(s, n).rates[j] == IntervalRate(s, j)
  {
    if n == 0 {
      assert Run(s, 0).rates == [];
    } else {
      IntervalRates(s, n - 1);
      IntervalBookkeeping(s, n - 1);
      IntervalBookkeeping(s, n);
      if s.checkInterval >= 1 {
        NewIntervalRate(s, n);
      }
      var before, after := Run(s, n - 1), Run(s, n);
      forall j | 0 <= j < |after.rates|
        ensures IntervalEndsBy(s, j, n) && after.rates[j] == IntervalRate(s, j)
      {
        if j < |before.rates| {
          assert after.rates[j] == before.rates[j];
        }
      }
    }
  }

  /** The rate recorded by step n - 1, if it closes an interval, is that
      interval's acceptance fraction. */
  lemma NewIntervalRate(s: Sampler, n: nat)
    requires Valid(s) && 0 < n <= |s.draws| && s.checkInterval >= 1
    requires |Run(s, n - 1).rates| == (n - 1) / s.checkInterval
    requires Run(s, n - 1).intervalCount == (n - 1) % s.checkInterval
    ensures |Run(s, n).rates| > |Run(s, n - 1).rates| ==>
              var last := |Run(s, n - 1).rates|;
              IntervalEndsBy(s, last, n) && Run(s, n).rates[last] == IntervalRate(s, last)
    ensures |Run(s, n).rates| <= |Run(s, n - 1).rates| ==> Run(s, n).rates == Run(s, n - 1).rates
  {
    IntervalAcceptances(s, n - 1);
    CountersStep(s, n);
    var before := Run(s, n - 1);
    var ci := s.checkInterval;
    var last := |before.rates|;
    if before.intervalCount + 1 == ci {
      IntervalEnd(n - 1, ci);
      var start := n - 1 - before.intervalCount;
      assert start == last * ci && n == (last + 1) * ci;
      AcceptancesStep(s, start, n);
    }
  }

  /** Widening a window by one step adds that step's acceptance. */
  lemma AcceptancesStep(s: Sampler, lo: nat, n: nat)
    requires Valid(s) && lo < n <= |s.draws|
    ensures Acceptances(s, lo, n) == Acceptances(s, lo, n - 1) + (if AcceptedAt(s, n - 1) then 1 else 0)
  {
  }

  /** The variance changes only at checks: after n steps it is the initial
      variance with the controller applied once per recorded rate, in order. */
  lemma {:induction false} VarianceReplaysRates(s: Sampler, n: nat)
    requires Valid(s) && n <= |s.draws|
    ensures Run(s, n).variance == Controller.Replay(s.initialVariance, Run(s, n).rates, s.increase, s.decrease)
  {
    if n > 0 {
      VarianceReplaysRates(s, n - 1);
      CountersStep(s, n);
      var before, after := Run(s, n - 1), Run(s, n);
      if |after.rates| != |before.rates| {
        assert after.rates[..|after.rates| - 1] == before.rates;
      }
    }
  }

  /** One step either keeps the state or moves to that step's proposal. */
  lemma StepMoves(s: Sampler, i: nat)
    requires Valid(s) && i < |s.draws|
    ensures Run(s, i + 1).current ==
              if AcceptedAt(s, i) then Proposed(s, Run(s, i).current, Run(s, i).variance, i) else Run(s, i).current
  {
  }

  /** Step j accepts and no later step before n does. */
  predicate LastAcceptance(s: Sampler, j: nat, n: nat)
    requires Valid(s) && n <= |s.draws|
  {
    j < n && AcceptedAt(s, j) && forall i :: j < i < n ==> !AcceptedAt(s, i)
  }

  /** The value proposed at step j. */
  function ProposalAt(s: Sampler, j: nat): real
    requires Valid(s) && j < |s.draws|
  {
    Proposed(s, Run(s, j).current, Run(s, j).variance, j)
  }

  /** The chain moves only on acceptance, and then to the proposed value: after
      n steps it sits at the initial value if nothing was accepted, and
      otherwise at the proposal of the last accepting step. */
  lemma {:induction false} StateIsLastAcceptedProposal(s: Sampler, n: nat)
    requires Valid(s) && n <= |s.draws|
    ensures (forall i :: 0 <= i < n ==> !AcceptedAt(s, i)) ==> Run(s, n).current == s.initial
    ensures forall j: nat :: LastAcceptance(s, j, n) ==> Run(s, n).current == ProposalAt(s, j)
  {
    if n > 0 {
      StateIsLastAcceptedProposal(s, n - 1);
      StepMoves(s, n - 1);
      forall j: nat | LastAcceptance(s, j, n)
        ensures Run(s, n).current == ProposalAt(s, j)
      {
        if j < n - 1 {
          assert LastAcceptance(s, j, n - 1);
          RejectionKeepsState(s, n - 1);
        }
      }
    }
  }

  /** A rejecting step leaves the chain where it was. */
  lemma RejectionKeepsState(s: Sampler, i: nat)
    requires Valid(s) && i < |s.draws| && !AcceptedAt(s, i)
    ensures Run(s, i + 1).current == Run(s, i).current
  {
    StepMoves(s, i);
  }

  /** The loop's incremental appends store exactly the thinned trace. */
  lemma {:induction false} SamplesAreThinnedTrace(s: Sampler, n: nat)
    requires Valid(s) && n <= |s.draws|
    ensures Run(s, n).samples == Thinned(Trace(s, n), s.burnIn, s.thin)
  {
    if n > 0 {
      SamplesAreThinnedTrace(s, n - 1);
      assert Trace(s, n)[..n - 1] == Trace(s, n - 1);
    }
  }

  lemma {:induction false} TraceAt(s: Sampler, n: nat, i: nat)
    requires Valid(s) && i < n <= |s.draws|
    ensures Trace(s, n)[i] == Run(s, i + 1).current
  {
    if i < n - 1 {
      TraceAt(s, n - 1, i);
    }
  }

  /** After burnIn + iterations steps exactly ceil(iterations / thin) samples
      are stored, whatever the burn-in, and the k-th is the chain state after
      step burnIn + k * thin. */
  lemma KeptSamples(s: Sampler, iterations: nat)
    requires Valid(s) && |s.draws| == s.burnIn + iterations
    ensures |Run(s, |s.draws|).samples| == CeilDiv(iterations, s.thin)
    ensures forall k :: 0 <= k < |Run(s, |s.draws|).samples| ==>
              s.burnIn + k * s.thin < |s.draws| &&
              Run(s, |s.draws|).samples[k] == Run(s, s.burnIn + k * s.thin + 1).current
  {
    var n := |s.draws|;
    SamplesAreThinnedTrace(s, n);
    KeptCount(Trace(s, n), s.burnIn, s.thin, iterations);
    forall k | 0 <= k < |Run(s, n).samples|
      ensures s.burnIn + k * s.thin < n && Run(s, n).samples[k] == Run(s, s.burnIn + k * s.thin + 1).current
    {
      KeptSampleAt(s, n, k);
      GridKept(s.burnIn, s.thin, k);
      TraceAt(s, n, s.burnIn + k * s.thin);
    }
  }

  /** The k-th stored sample is entry burnIn + k * thin of the chain trace. */
  lemma KeptSampleAt(s: Sampler, n: nat, k: nat)
    requires Valid(s) && n <= |s.draws| && k < |Run(s, n).samples|
    ensures s.burnIn + k * s.thin < n && Run(s, n).samples[k] == Trace(s, n)[s.burnIn + k * s.thin]
  {
    SamplesAreThinnedTrace(s, n);
    KeptStateAt(Trace(s, n), s.burnIn, s.thin, k);
  }

  /** The overall rate: the mean of the interval rates, or 0 when no interval
      completed. It is a proportion whenever the interval rates are. */
  function OverallRate(rates: seq<real>): (rate: real)
    requires forall j :: 0 <= j < |rates| ==> 0.0 <= rates[j] <= 1.0
    ensures 0.0 <= rate <= 1.0
  {
    if |rates| == 0 then 0.0 else Statistics.Mean(rates)
  }

  /** What `adaptive_metropolis_hastings` returns, without the elapsed time. */
  datatype Report = Report(
    samples: seq<real>,
    acceptanceRate: real,
    rates: seq<real>,
    mean: real,
    median: real,
    interval: (real, real))

  /** One full run over burnIn + iterations steps. */
  function Sample(s: Sampler, iterations: nat, level: real): (r: Result<Report>)
    requires WellFormed(s) && |s.draws| == s.burnIn + iterations
    ensures r.Err? <==> iterations == 0 || s.thin == 0 || !(-1.0 <= level <= 1.0)
    ensures iterations > 0 && s.thin == 0 ==> r == Err(ZeroDivision)
    ensures !(iterations > 0 && s.thin == 0) && !(-1.0 <= level <= 1.0) ==> r == Err(PercentileOutOfRange)
    ensures iterations == 0 && -1.0 <= level <= 1.0 ==> r == Err(EmptySamples)
    ensures r.Ok? ==> |r.value.samples| == CeilDiv(iterations, s.thin) >= 1
    ensures r.Ok? ==>
              |r.value.rates| == if s.checkInterval >= 1 then (s.burnIn + iterations) / s.checkInterval else 0
    ensures r.Ok? ==> forall j :: 0 <= j < |r.value.rates| ==> 0.0 <= r.value.rates[j] <= 1.0
    ensures r.Ok? ==> r.value.acceptanceRate == OverallRate(r.value.rates)
    ensures r.Ok? ==> 0.0 <= r.value.acceptanceRate <= 1.0
    ensures r.Ok? && 0.0 <= level ==> r.value.interval.0 <= r.value.interval.1
    ensures r.Ok? ==> forall k :: 0 <= k < |r.value.samples| ==>
              s.burnIn + k * s.thin < |s.draws| &&
              r.value.samples[k] == Run(s, s.burnIn + k * s.thin + 1).current
    ensures r.Ok? ==> forall j :: 0 <= j < |r.value.rates| ==>
              IntervalEndsBy(s, j, |s.draws|) && r.value.rates[j] == IntervalRate(s, j)
    ensures r.Ok? ==>
              && r.value.mean == Statistics.Mean(r.value.samples)
              && r.value.median == Statistics.Median(r.value.samples)
              && Statistics.CredibleInterval(r.value.samples, level) == Ok(r.value.interval)
  {
    if iterations > 0 && s.thin == 0 then Err(ZeroDivision)
    else if iterations == 0 then
      // Nothing is stored, so the credible interval has no samples to work on.
      Err(if -1.0 <= level <= 1.0 then EmptySamples else PercentileOutOfRange)
    else
      var st := Run(s, |s.draws|);
      FinalState(s, iterations);
      var interval :- Statistics.CredibleInterval(st.samples, level);
      Statistics.CredibleIntervalOrdered(st.samples, level);
      Ok(Report(
        st.samples,
        OverallRate(st.rates),
        st.rates,
        Statistics.Mean(st.samples),
        Statistics.Median(st.samples),
        interval))
  }

  /** What a complete run of burnIn + iterations steps has stored: the kept
      samples and the rate of every completed check interval. */
  lemma FinalState(s: Sampler, iterations: nat)
    requires Valid(s) && |s.draws| == s.burnIn + iterations && iterations >= 1
    ensures var st := Run(s, |s.draws|);
      && |st.samples| == CeilDiv(iterations, s.thin) >= 1
      && (forall k :: 0 <= k < |st.samples| ==>
            s.burnIn + k * s.thin < |s.draws| && st.samples[k] == Run(s, s.burnIn + k * s.thin + 1).current)
      && |st.rates| == (if s.checkInterval >= 1 then (s.burnIn + iterations) / s.checkInterval else 0)
      && (forall j :: 0 <= j < |st.rates| ==>
            IntervalEndsBy(s, j, |s.draws|) && st.rates[j] == IntervalRate(s, j))
  {
    KeptSamples(s, iterations);
    SampleCount(s.burnIn, iterations, s.thin);
    IntervalBookkeeping(s, |s.draws|);
    IntervalRates(s, |s.draws|);
  }
}
