# MCMC sampling engine — a Dafny model

This project models the sampling engine of a small Markov-chain Monte Carlo
service (`library/mcmc_algorithms.py`) and proves properties of it. The engine
has four pieces, and each has its own module here:

- `Controller`: the adaptive proposal-variance rule `adaptive_proposal_distribution`.
  It scales the variance up when the interval acceptance rate is above 0.5,
  scales it down when the rate is below 0.3, and leaves it alone otherwise.
- `MetropolisHastings`: the `metropolis_hastings` loop. It has a caller-supplied
  proposal, burn-in and thinning, and it counts acceptances only after burn-in.
- `AdaptiveMetropolisHastings`: the `adaptive_metropolis_hastings` loop. Its
  Gaussian proposal has a variance that the controller retunes every
  `check_interval` steps. Acceptances are counted in every step, burn-in
  included, and each completed interval's acceptance rate is recorded.
- `Statistics`: what both loops compute over the stored samples. These are the
  mean, the median, and a credible interval made of two `np.percentile` values
  with numpy's default linear interpolation.

Three shared modules support them:

- `Acceptance`: the acceptance rule `u < target(p) / target(c)`.
- `Thinning`: which loop steps store a sample.
- `Failures`: the errors a run can raise.

Randomness becomes an input. Each loop step `i` consumes one `Draw(noise, u)`.
`noise` feeds the proposal: it is the caller's `proposal(current, noise)` in MH,
and the Gaussian `gaussian(current, variance, noise)` in AMH. `u` is the uniform
number in [0, 1) compared against the density ratio. Every theorem therefore
holds for every draw stream. A run is a recursive step function,
`Run(s, n) = Step(s, Run(s, n - 1), n - 1)`, and the properties are proved by
induction on the step count.

A run's failures are values of `Result`:

- `ZeroDivision` is Python's `ZeroDivisionError`. It arises from `% thin` with
  `thin == 0` once a post-burn-in step is reached, or from `accepted / iterations`
  in MH with `iterations == 0`.
- `PercentileOutOfRange` is numpy's `ValueError` for a percentile outside
  [0, 100]. That happens when the credible level lies outside [-1, 1].
- `EmptySamples` is the `IndexError` `np.percentile` raises on an empty sample
  array, after its range check. Only AMH with `iterations == 0` reaches it.

Behaviour of the code worth knowing:

- For `iterations >= 1`, `thin > iterations` does not give an empty result.
  The first post-burn-in step always stores a sample
  (library/mcmc_algorithms.py:74, 182), so exactly `ceil(iterations / thin) >= 1`
  samples are stored (`Thinning.SampleCount`). With `iterations == 0` no step
  lies past burn-in, nothing is stored and the run fails, as described next.
- Bad parameters are not rejected before the run. `thin == 0` fails at the
  first `% thin` (library/mcmc_algorithms.py:74, 182), `iterations == 0` at
  `accepted / iterations` in MH (library/mcmc_algorithms.py:190) or, in AMH, at
  `np.percentile` of the empty sample array (library/mcmc_algorithms.py:102);
  `np.mean` and `np.median` of that empty array (library/mcmc_algorithms.py:97-98)
  only warn and yield NaN before it. An
  out-of-range credible level at `np.percentile`
  (library/mcmc_algorithms.py:101-103, 197-199). A credible level in [-1, 0) is
  accepted and yields swapped bounds.
- A proposal whose density is zero or negative is not a fatal error. The ratio
  is then at most 0, and the uniform draw is never below it, so the proposal is
  rejected (library/mcmc_algorithms.py:69, 177; `Acceptance.AcceptanceByDensity`).
- The credible interval satisfies `lower <= upper`, not `lower < upper`
  (library/mcmc_algorithms.py:101-103). Constant samples give `lower == upper`
  (`Statistics.CredibleIntervalDegenerate`).
- A zero proposal variance is allowed: `np.sqrt(0)` is 0, so the Gaussian draw
  is the current state itself. The model admits every variance >= 0 and proves
  the controller never makes it negative.

## Model

| member | source | states |
|---|---|---|
| Controller.AdaptVariance | library/mcmc_algorithms.py:116-123 | with a non-negative variance and non-negative factors the new variance is non-negative, so AMH's `sqrt(variance)` is always defined; with all three positive it stays positive |
| Controller.AdaptVarianceDirection | library/mcmc_algorithms.py:119-123 | with increase > 1 and 0 < decrease < 1: the variance grows iff rate > 0.5, shrinks iff rate < 0.3, and is unchanged iff 0.3 <= rate <= 0.5 (both band edges included) |
| Controller.Replay | library/mcmc_algorithms.py:81-83 | applying the controller once per recorded rate, in order, keeps a non-negative variance non-negative and a positive one positive |
| Acceptance.AcceptedHasPositiveDensity | library/mcmc_algorithms.py:67-70 | with a positive density at the current state and u >= 0, an accepted proposal has positive density, so the next ratio's denominator is never 0 |
| Acceptance.AcceptanceByDensity | library/mcmc_algorithms.py:175-178 | a proposal at least as dense as the current state is always accepted; a proposal with density <= 0 is never accepted |
| Thinning.ThinnedShape | library/mcmc_algorithms.py:182-183 | the step loop's conditional appends keep ceil((n - burnIn) / thin) states out of n, and the k-th kept one is the state after step burnIn + k * thin |
| Thinning.SampleCount | library/mcmc_algorithms.py:54 | after burnIn + iterations steps exactly `iterations` steps lie past burn-in; with thin >= 1, ceil(iterations / thin) is between 1 and iterations whenever iterations >= 1 |
| Thinning.KeptStateAt | library/mcmc_algorithms.py:74-75 | the k-th stored state is the trace entry at step burnIn + k * thin |
| Thinning.KeptCount | library/mcmc_algorithms.py:54-75 | over burnIn + iterations steps the loop stores ceil(iterations / thin) states, whatever the burn-in |
| Statistics.Mean | library/mcmc_algorithms.py:97 | the mean of a non-empty sample lies between its minimum and maximum |
| Statistics.Sort | library/mcmc_algorithms.py:98 | the sorted copy numpy works on is ordered and a permutation of the samples |
| Statistics.SortedEnds | library/mcmc_algorithms.py:102-103 | the first and last elements of the sorted copy are the sample minimum and maximum |
| Statistics.LinearPercentile | library/mcmc_algorithms.py:102 | a linearly interpolated percentile of a non-empty sample lies in [min, max] |
| Statistics.Percentile | library/mcmc_algorithms.py:102-103 | `np.percentile` succeeds iff 0 <= q <= 100 and the sample is non-empty; a q out of range is reported before emptiness; success yields the interpolated value |
| Statistics.PercentileMonotone | library/mcmc_algorithms.py:102-103 | a higher percentile is never smaller |
| Statistics.MedianIsPercentile50 | library/mcmc_algorithms.py:98 | the median (middle element, or mean of the two middle ones) equals the 50th linear percentile and lies in [min, max] |
| Statistics.CredibleInterval | library/mcmc_algorithms.py:101-103 | the interval is defined iff the sample is non-empty and -1 <= level <= 1; a level out of range is a percentile-range error; its bounds are the percentiles at 100 * (1 - level) / 2 and 100 * (1 - (1 - level) / 2) |
| Statistics.CredibleIntervalOrdered | library/mcmc_algorithms.py:101-103 | both bounds lie in [min, max]; for level >= 0 lower <= upper, and for a negative level they are swapped |
| Statistics.CredibleIntervalNested | tests/test_api.py:110-123 | for 0 <= level1 <= level2 <= 1 the level2 interval contains the level1 interval, so it is at least as wide |
| Statistics.CredibleIntervalDegenerate | library/mcmc_algorithms.py:197-199 | constant samples give the one-point interval (c, c), so `lower < upper` cannot be promised |
| MetropolisHastings.Step | library/mcmc_algorithms.py:173-183 | one loop step keeps the density at the chain state positive |
| MetropolisHastings.Run | library/mcmc_algorithms.py:166-183 | after n steps the density at the chain state is positive and the acceptance counter is at most the number of post-burn-in steps |
| MetropolisHastings.AcceptedCountsPostBurnIn | library/mcmc_algorithms.py:177-180 | the counter equals the number of accepting steps i with i >= burnIn |
| MetropolisHastings.StateIsLastAcceptedProposal | library/mcmc_algorithms.py:174-178 | the chain sits at the initial value if no step accepted, and otherwise at the proposal of the last accepting step |
| MetropolisHastings.RejectionKeepsState | library/mcmc_algorithms.py:177-178 | a rejecting step leaves the chain state unchanged |
| MetropolisHastings.SamplesAreThinnedTrace | library/mcmc_algorithms.py:182-183 | the stored samples are exactly the chain trace thinned by the burn-in and thin rule |
| MetropolisHastings.KeptSamples | library/mcmc_algorithms.py:166-183 | after burnIn + iterations steps exactly ceil(iterations / thin) samples are stored, whatever the burn-in, and sample k is the chain state after step burnIn + k * thin |
| MetropolisHastings.Sample | library/mcmc_algorithms.py:126-208 | the run fails iff iterations == 0, thin == 0 or the level is outside [-1, 1], with a division error for the first two; on success it stores ceil(iterations / thin) >= 1 samples taken at steps burnIn + k * thin, its rate is the post-burn-in acceptances over iterations and lies in [0, 1], and its mean, median and ordered interval are those of the stored samples |
| AdaptiveMetropolisHastings.Step | library/mcmc_algorithms.py:64-86 | one loop step keeps the state consistent: positive density, non-negative variance, interval acceptances <= interval count < check interval, every recorded rate in [0, 1] |
| AdaptiveMetropolisHastings.Run | library/mcmc_algorithms.py:54-86 | the state stays consistent after any number of steps |
| AdaptiveMetropolisHastings.IntervalBookkeeping | library/mcmc_algorithms.py:78-86 | after n steps there are n / checkInterval recorded rates and n % checkInterval steps in the open interval, so a trailing partial interval is never recorded; with checkInterval == 0 nothing is ever recorded |
| AdaptiveMetropolisHastings.IntervalAcceptances | library/mcmc_algorithms.py:69-71 | the interval counter holds the acceptances of the last intervalCount steps, burn-in included |
| AdaptiveMetropolisHastings.IntervalRates | library/mcmc_algorithms.py:78-84 | the j-th recorded rate is the number of accepting steps in [j * ci, (j + 1) * ci) divided by ci |
| AdaptiveMetropolisHastings.NewIntervalRate | library/mcmc_algorithms.py:79-84 | a step that records a rate records that of the interval it closes; any other step leaves the rates unchanged |
| AdaptiveMetropolisHastings.VarianceReplaysRates | library/mcmc_algorithms.py:57 | the variance after n steps is the initial variance with the controller applied once per recorded rate, in order |
| AdaptiveMetropolisHastings.StateIsLastAcceptedProposal | library/mcmc_algorithms.py:66-70 | the chain sits at the initial value if no step accepted, and otherwise at the Gaussian proposal of the last accepting step |
| AdaptiveMetropolisHastings.RejectionKeepsState | library/mcmc_algorithms.py:69-70 | a rejecting step leaves the chain state unchanged |
| AdaptiveMetropolisHastings.SamplesAreThinnedTrace | library/mcmc_algorithms.py:74-75 | the stored samples are exactly the chain trace thinned by the burn-in and thin rule |
| AdaptiveMetropolisHastings.KeptSamples | library/mcmc_algorithms.py:54-75 | exactly ceil(iterations / thin) samples are stored, and sample k is the chain state after step burnIn + k * thin |
| AdaptiveMetropolisHastings.FinalState | library/mcmc_algorithms.py:54-86 | a complete run of burnIn + iterations steps stores ceil(iterations / thin) >= 1 samples, sample k being the chain state after step burnIn + k * thin, and (burnIn + iterations) / checkInterval rates, rate j being that of the j-th interval |
| AdaptiveMetropolisHastings.OverallRate | library/mcmc_algorithms.py:94 | the overall rate, the mean of the interval rates or 0 when there are none, lies in [0, 1] |
| AdaptiveMetropolisHastings.Sample | library/mcmc_algorithms.py:6-113 | the run fails iff iterations == 0, thin == 0 or the level is outside [-1, 1]: a division error for thin == 0 with iterations > 0, else a percentile-range error for a bad level, else an empty-sample error; on success it stores ceil(iterations / thin) >= 1 samples taken at steps burnIn + k * thin, records (burnIn + iterations) / checkInterval interval rates (none if checkInterval == 0), each being its interval's acceptance count over checkInterval and in [0, 1], reports as overall rate the mean of those interval rates (0 when there are none), which lies in [0, 1], and its mean, median and ordered interval are those of the stored samples |

## Left out

- Elapsed time (`time.time()`) is not modelled. The reports carry every other returned value.
- The `tqdm` progress bars and their running ratios (library/mcmc_algorithms.py:88-90, 185-186) are diagnostics that never feed back into the result.
- Seeding and drawing (`np.random.seed`, `np.random.normal`, `np.random.rand`, `np.sqrt`) are replaced by the explicit draw stream and the partial `gaussian` function. Because runs are functions of their inputs, "same seed, same output" holds trivially and has no lemma.
- `library/mcmc_utils.py`, with its concrete density and proposal, is not part of this model. The target density and the MH proposal are arbitrary functions.
- `api.py`, `cli.py` and `web_app.py` are not part of this model. They are HTTP, command-line and dashboard adapters.
- Floating point is not modelled: reals replace floats, so there is no rounding, NaN or infinity. Python's division by a zero density at the current state is excluded by requiring a positive density at the initial value, and the model proves it stays positive.
- Parameter defaults (library/mcmc_algorithms.py:10-17, 131-134: `initial_variance=1.0`, `check_interval=200`, `increase_factor=1.1`, `decrease_factor=0.9`, `burn_in=1000`, `thin=1`, `credible_interval=0.95`) are not modelled. Every parameter is an explicit field of the sampler, and a caller supplies these values like any others.
- A negative initial variance or a negative scaling factor is not modelled. `np.sqrt` of a negative variance is NaN, which lies outside the reals that replace floats here.
- Negative `iterations`, `burn_in`, `thin` and `check_interval` are not modelled; they are natural numbers here.
- Distributional claims, such as convergence to the target or a sample mean near 0, are statistical and not structural.
- `tests/test_mcmc_algorithms.py:15` expects `iterations + 1` samples. That contradicts the loop, which stores exactly `iterations` samples when `thin == 1` (`MetropolisHastings.KeptSamples`), so it is not encoded.
- Statistics.CredibleIntervalNested: states that a larger level gives an interval at least as wide, not strictly wider. Strict widening fails on constant samples (`Statistics.CredibleIntervalDegenerate`).
- Statistics.CredibleIntervalOrdered: states `lower <= upper`, not `lower < upper`, for the same reason.
