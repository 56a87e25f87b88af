/** The Metropolis accept/reject decision, with the random inputs of one loop
    step made explicit. */
module Acceptance {

  /** The random inputs consumed by one loop step, in the order the engine
      draws them: `noise` feeds the proposal, `u` is the `np.random.rand()`
      draw compared against the acceptance ratio. */
  datatype Draw = Draw(noise: real, u: real)

  /** `np.random.rand()` returns a value in [0, 1). */
  predicate Uniform(u: real)
  {
    0.0 <= u < 1.0
  }

  predicate UniformDraws(draws: seq<Draw>)
  {
    forall i :: 0 <= i < |draws| ==> Uniform(draws[i].u)
  }

  /** target(proposed) / target(current); defined because the current state
      always has positive density (see AcceptedHasPositiveDensity). */
  function Ratio(target: real -> real, current: real, proposed: real): real
    requires target(current) > 0.0
  {
    target(proposed) / target(current)
  }

  /** The proposal is taken when the uniform draw is strictly below the ratio. */
  predicate Accepts(target: real -> real, current: real, proposed: real, u: real)
    requires target(current) > 0.0
  {
    u < Ratio(target, current, proposed)
  }

  /** An accepted proposal has positive density, so the ratio stays defined
      for the rest of the chain. */
  lemma AcceptedHasPositiveDensity(target: real -> real, current: real, proposed: real, u: real)
    requires target(current) > 0.0 && Uniform(u)
    ensures Accepts(target, current, proposed, u) ==> target(proposed) > 0.0
  {
    var c, p := target(current), target(proposed);
    assert p == Ratio(target, current, proposed) * c;
  }

  /** A proposal at least as dense as the current state is always accepted
      (the ratio is at least 1 and u < 1), and one with non-positive density
      never is (the ratio is at most 0 and u >= 0). */
  lemma AcceptanceByDensity(target: real -> real, current: real, proposed: real, u: real)
    requires target(current) > 0.0 && Uniform(u)
    ensures target(proposed) >= target(current) ==> Accepts(target, current, proposed, u)
    ensures target(proposed) <= 0.0 ==> !Accepts(target, current, proposed, u)
  {
    var c, p := target(current), target(proposed);
    var ratio := Ratio(target, current, proposed);
    assert p == ratio * c;
    if p >= c {
      assert ratio >= 1.0;
    }
    if p <= 0.0 {
      assert ratio <= 0.0;
    }
  }
}
