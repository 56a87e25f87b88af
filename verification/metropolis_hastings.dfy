/** The Metropolis-Hastings sampler (`metropolis_hastings`): a fixed,
    caller-supplied proposal, burn-in and thinning, and an acceptance count
    kept only after burn-in. */
module MetropolisHastings {
  import opened Failures
  import opened Acceptance
  import opened Thinning
  import Statistics

  /** The inputs of one run. `proposal(current, noise)` is the caller's proposal
      function with its random input made explicit; draws[i] holds the random
      inputs of loop step i. */
  datatype Sampler = Sampler(
    target: real -> real,
    proposal: (real, real) -> real,
    initial: real,
    burnIn: nat,
    thin: nat,
    draws: seq<Draw>)

  /** What the run needs of its inputs: positive density at the starting
      point and uniform draws in [0, 1). */
  predicate WellFormed(s: Sampler)
  {
    s.target(s.initial) > 0.0 && UniformDraws(s.draws)
  }

  /** Inputs for which the loop itself runs to completion (`% thin` is defined). */
  predicate Valid(s: Sampler)
  {
    WellFormed(s) && s.thin >= 1
  }

  /** The loop variables: chain state, post-burn-in acceptances, stored samples. */
  datatype State = State(current: real, accepted: nat, samples: seq<real>)

  function Initial(s: Sampler): State
  {
    State(s.initial, 0, [])
  }

  /** The value proposed at step i from the state `current`. */
  function Proposed(s: Sampler, current: real, i: nat): real
    requires i < |s.draws|
  {
    s.proposal(current, s.draws[i].noise)
  }

  /** Loop step i: propose, accept or reject, count the acceptance if past
      burn-in, store the state if the step is kept. The density at the chain
      state stays positive, so the next ratio is defined. */
  function Step(s: Sampler, st: State, i: nat): (next: State)
    requires Valid(s) && i < |s.draws| && s.target(st.current) > 0.0
    ensures s.target(next.current) > 0.0
  {
    var proposed := Proposed(s, st.current, i);
    var accept := Accepts(s.target, st.current, proposed, s.draws[i].u);
    AcceptedHasPositiveDensity(s.target, st.current, proposed, s.draws[i].u);
    var current := if accept then proposed else st.current;
    State(
      current,
      if accept && i >= s.burnIn then st.accepted + 1 else st.accepted,
      if Kept(i, s.burnIn, s.thin) then st.samples + [current] else st.samples)
  }

  /** The loop variables after the first n steps. At most one acceptance is
      counted per post-burn-in step. */
  function Run(s: Sampler, n: nat): (st: State)
    requires Valid(s) && n <= |s.draws|
    ensures s.target(st.current) > 0.0
    ensures st.accepted <= PastBurnIn(n, s.burnIn)
  {
    if n == 0 then Initial(s) else Step(s, Run(s, n - 1), n - 1)
  }

  /** Whether step i accepted its proposal. */
  predicate AcceptedAt(s: Sampler, i: nat)
    requires Valid(s) && i < |s.draws|
  {
    var current := Run(s, i).current;
    Accepts(s.target, current, Proposed(s, current, i), s.draws[i].u)
  }

  /** The number of accepting steps i with lo <= i < n. */
  function Acceptances(s: Sampler, lo: nat, n: nat): nat
    requires Valid(s) && n <= |s.draws|
  {
    if n <= lo then 0
    else Acceptances(s, lo, n - 1) + (if AcceptedAt(s, n - 1) then 1 else 0)
  }

  /** The chain state after each of the first n steps. */
  function Trace(s: Sampler, n: nat): (t: seq<real>)
    requires Valid(s) && n <= |s.draws|
    ensures |t| == n
  {
    if n == 0 then [] else Trace(s, n - 1) + [Run(s, n).current]
  }

  /** The acceptance counter counts exactly the accepting steps after burn-in. */
  lemma {:induction false} AcceptedCountsPostBurnIn(s: Sampler, n: nat)
    requires Valid(s) && n <= |s.draws|
    ensures Run(s, n).accepted == Acceptances(s, s.burnIn, n)
  {
    if n > 0 {
      AcceptedCountsPostBurnIn(s, n - 1);
    }
  }

  /** One step either keeps the state or moves to that step's proposal. */
  lemma StepMoves(s: Sampler, i: nat)
    requires Valid(s) && i < |s.draws|
    ensures Run(s, i + 1).current ==
              if AcceptedAt(s, i) then Proposed(s, Run(s, i).current, i) else Run(s, i).current
  {
  }

  /** Step j accepts and no later step before n does. */
  predicate LastAcceptance(s: Sampler, j: nat, n: nat)
    requires Valid(s) && n <= |s.draws|
  {
    j < n && AcceptedAt(s, j) && forall i :: j < i < n ==> !AcceptedAt(s, i)
  }

  /** The value proposed at step j. */
  function ProposalAt(s: Sampler, j: nat): real
    requires Valid(s) && j < |s.draws|
  {
    Proposed(s, Run(s, j).current, j)
  }

  /** The chain moves only on acceptance, and then to the proposed value: after
      n steps it sits at the initial value if nothing was accepted, and
      otherwise at the proposal of the last accepting step. */
  lemma {:induction false} StateIsLastAcceptedProposal(s: Sampler, n: nat)
    requires Valid(s) && n <= |s.draws|
    ensures (forall i :: 0 <= i < n ==> !AcceptedAt(s, i)) ==> Run(s, n).current == s.initial
    ensures forall j: nat :: LastAcceptance(s, j, n) ==> Run(s, n).current == ProposalAt(s, j)
  {
    if n > 0 {
      StateIsLastAcceptedProposal(s, n - 1);
      StepMoves(s, n - 1);
      forall j: nat | LastAcceptance(s, j, n)
        ensures Run(s, n).current == ProposalAt(s, j)
      {
        if j < n - 1 {
          assert LastAcceptance(s, j, n - 1);
          RejectionKeepsState(s, n - 1);
        }
      }
    }
  }

  /** A rejecting step leaves the chain where it was. */
  lemma RejectionKeepsState(s: Sampler, i: nat)
    requires Valid(s) && i < |s.draws| && !AcceptedAt(s, i)
    ensures Run(s, i + 1).current == Run(s, i).current
  {
    StepMoves(s, i);
  }

  /** The loop's incremental appends store exactly the thinned trace. */
  lemma {:induction false} SamplesAreThinnedTrace(s: Sampler, n: nat)
    requires Valid(s) && n <= |s.draws|
    ensures Run(s, n).samples == Thinned(Trace(s, n), s.burnIn, s.thin)
  {
    if n > 0 {
      SamplesAreThinnedTrace(s, n - 1);
      assert Trace(s, n)[..n - 1] == Trace(s, n - 1);
    }
  }

  lemma {:induction false} TraceAt(s: Sampler, n: nat, i: nat)
    requires Valid(s) && i < n <= |s.draws|
    ensures Trace(s, n)[i] == Run(s, i + 1).current
  {
    if i < n - 1 {
      TraceAt(s, n - 1, i);
    }
  }

  /** After burnIn + iterations steps exactly ceil(iterations / thin) samples
      are stored, whatever the burn-in, and the k-th is the chain state after
      step burnIn + k * thin. */
  lemma KeptSamples(s: Sampler, iterations: nat)
    requires Valid(s) && |s.draws| == s.burnIn + iterations
    ensures |Run(s, |s.draws|).samples| == CeilDiv(iterations, s.thin)
    ensures forall k :: 0 <= k < |Run(s, |s.draws|).samples| ==>
              s.burnIn + k * s.thin < |s.draws| &&
              Run(s, |s.draws|).samples[k] == Run(s, s.burnIn + k * s.thin + 1).current
  {
    var n := |s.draws|;
    SamplesAreThinnedTrace(s, n);
    KeptCount(Trace(s, n), s.burnIn, s.thin, iterations);
    forall k | 0 <= k < |Run(s, n).samples|
      ensures s.burnIn + k * s.thin < n && Run(s, n).samples[k] == Run(s, s.burnIn + k * s.thin + 1).current
    {
      KeptSampleAt(s, n, k);
      GridKept(s.burnIn, s.thin, k);
      TraceAt(s, n, s.burnIn + k * s.thin);
    }
  }

  /** The k-th stored sample is entry burnIn + k * thin of the chain trace. */
  lemma KeptSampleAt(s: Sampler, n: nat, k: nat)
    requires Valid(s) && n <= |s.draws| && k < |Run(s, n).samples|
    ensures s.burnIn + k * s.thin < n && Run(s, n).samples[k] == Trace(s, n)[s.burnIn + k * s.thin]
  {
    SamplesAreThinnedTrace(s, n);
    KeptStateAt(Trace(s, n), s.burnIn, s.thin, k);
  }

  /** What `metropolis_hastings` returns, without the elapsed time. */
  datatype Report = Report(
    samples: seq<real>,
    acceptanceRate: real,
    mean: real,
    median: real,
    interval: (real, real))

  /** One full run over burnIn + iterations steps. */
  function Sample(s: Sampler, iterations: nat, level: real): (r: Result<Report>)
    requires WellFormed(s) && |s.draws| == s.burnIn + iterations
    ensures r.Err? <==> iterations == 0 || s.thin == 0 || !(-1.0 <= level <= 1.0)
    ensures iterations == 0 || s.thin == 0 ==> r == Err(ZeroDivision)
    ensures r.Ok? ==> |r.value.samples| == CeilDiv(iterations, s.thin) >= 1
    ensures r.Ok? ==> 0.0 <= r.value.acceptanceRate <= 1.0
    ensures iterations > 0 && s.thin > 0 && !(-1.0 <= level <= 1.0) ==> r == Err(PercentileOutOfRange)
    ensures r.Ok? && 0.0 <= level ==> r.value.interval.0 <= r.value.interval.1
    ensures r.Ok? ==> forall k :: 0 <= k < |r.value.samples| ==>
              s.burnIn + k * s.thin < |s.draws| &&
              r.value.samples[k] == Run(s, s.burnIn + k * s.thin + 1).current
    ensures r.Ok? ==> r.value.acceptanceRate == Acceptances(s, s.burnIn, |s.draws|) as real / iterations as real
    ensures r.Ok? ==>
              && r.value.mean == Statistics.Mean(r.value.samples)
              && r.value.median == Statistics.Median(r.value.samples)
              && Statistics.CredibleInterval(r.value.samples, level) == Ok(r.value.interval)
  {
    if iterations == 0 || s.thin == 0 then Err(ZeroDivision)
    else
      var st := Run(s, |s.draws|);
      KeptSamples(s, iterations);
      SampleCount(s.burnIn, iterations, s.thin);
      var interval :- Statistics.CredibleInterval(st.samples, level);
      Statistics.CredibleIntervalOrdered(st.samples, level);
      AcceptedCountsPostBurnIn(s, |s.draws|);
      assert st.accepted <= iterations;
      Statistics.FractionInUnit(st.accepted, iterations);
      Ok(Report(
        st.samples,
        st.accepted as real / iterations as real,
        Statistics.Mean(st.samples),
        Statistics.Median(st.samples),
        interval))
  }
}
