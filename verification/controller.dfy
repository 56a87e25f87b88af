/** The adaptive variance controller: after every check interval it rescales
    the proposal variance from the interval's acceptance rate. */
module Controller {

  /** Above this acceptance rate the proposal is widened. */
  const HighRate: real := 0.5
  /** Below this acceptance rate the proposal is narrowed. */
  const LowRate: real := 0.3

  /** The three-band rule. Both comparisons are strict, so rates of exactly
      0.3 and exactly 0.5 leave the variance alone. Non-negative inputs give
      a non-negative variance, positive inputs a positive one. */
  function AdaptVariance(variance: real, rate: real, increase: real, decrease: real): (v: real)
    ensures variance >= 0.0 && increase >= 0.0 && decrease >= 0.0 ==> v >= 0.0
    ensures variance > 0.0 && increase > 0.0 && decrease > 0.0 ==> v > 0.0
  {
    if rate > HighRate then variance * increase
    else if rate < LowRate then variance * decrease
    else variance
  }

  /** With the intended factors (increase > 1, 0 < decrease < 1) the variance
      grows exactly when the rate exceeds 0.5, shrinks exactly when it is
      below 0.3, and is unchanged exactly on the closed band [0.3, 0.5]. */
  lemma AdaptVarianceDirection(variance: real, rate: real, increase: real, decrease: real)
    requires variance > 0.0 && increase > 1.0 && 0.0 < decrease < 1.0
    ensures AdaptVariance(variance, rate, increase, decrease) > variance <==> rate > 0.5
    ensures AdaptVariance(variance, rate, increase, decrease) < variance <==> rate < 0.3
    ensures AdaptVariance(variance, rate, increase, decrease) == variance <==> 0.3 <= rate <= 0.5
  {
    var v := AdaptVariance(variance, rate, increase, decrease);
    if rate > 0.5 {
      ScaleMoves(variance, increase, v);
    } else if rate < 0.3 {
      ScaleMoves(variance, decrease, v);
    }
  }

  /** Scaling a positive value by f > 1 grows it, by f < 1 shrinks it. */
  lemma ScaleMoves(x: real, f: real, y: real)
    requires x > 0.0 && y == x * f
    ensures f > 1.0 ==> y > x
    ensures f < 1.0 ==> y < x
  {
    assert x * f - x == x * (f - 1.0);
    if f > 1.0 {
      assert x * (f - 1.0) > 0.0;
    } else if f < 1.0 {
      assert x * (1.0 - f) > 0.0;
    }
  }

  /** The variance after the controller has run once per recorded interval
      rate, in order. */
  function Replay(variance: real, rates: seq<real>, increase: real, decrease: real): (v: real)
    ensures variance >= 0.0 && increase >= 0.0 && decrease >= 0.0 ==> v >= 0.0
    ensures variance > 0.0 && increase > 0.0 && decrease > 0.0 ==> v > 0.0
  {
    if |rates| == 0 then variance
    else AdaptVariance(Replay(variance, rates[..|rates| - 1], increase, decrease), rates[|rates| - 1], increase, decrease)
  }
}
