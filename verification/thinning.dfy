/** Burn-in and thinning: which loop steps store the chain state.
    Both samplers use the same rule, so it is stated and proved once here. */
module Thinning {

  /** Step `i` (0-based) stores the state: it is past burn-in and on the thinning grid. */
  predicate Kept(i: nat, burnIn: nat, thin: nat)
    requires thin >= 1
  {
    i >= burnIn && (i - burnIn) % thin == 0
  }

  /** Integer ceiling of a / b. */
  function CeilDiv(a: nat, b: nat): nat
    requires b >= 1
  {
    (a + b - 1) / b
  }

  /** The number of steps among the first `n` that lie past burn-in. */
  function PastBurnIn(n: nat, burnIn: nat): nat
  {
    if n <= burnIn then 0 else n - burnIn
  }

  /** What a loop that appends the state after step i when Kept(i) has stored
      after running over `trace` (trace[i] is the state after step i). */
  function Thinned<T>(trace: seq<T>, burnIn: nat, thin: nat): seq<T>
    requires thin >= 1
  {
    if |trace| == 0 then []
    else
      var n := |trace| - 1;
      Thinned(trace[..n], burnIn, thin) + (if Kept(n, burnIn, thin) then [trace[n]] else [])
  }

  /** a / b is q when q * b <= a < q * b + b. */
  lemma DivIs(a: nat, b: nat, q: nat)
    requires b >= 1
    requires q * b <= a < q * b + b
    ensures a / b == q
  {
    var d := a / b;
    assert d * b <= a < d * b + b;
    if d < q {
      MulMonotone(d + 1, q, b);
      assert false;
    } else if d > q {
      MulMonotone(q + 1, d, b);
      assert false;
    }
  }

  lemma DivBounds(a: nat, b: nat)
    requires b >= 1
    ensures (a / b) * b <= a < (a / b) * b + b
  {
  }

  lemma MulMonotone(x: nat, y: nat, b: nat)
    requires x <= y
    ensures x * b <= y * b
  {
    assert y * b == x * b + (y - x) * b;
  }

  /** One more step on the post-burn-in grid adds a stored sample exactly when
      that step is a multiple of `thin`, and then the step is CeilDiv(m) * thin. */
  lemma CeilDivStep(m: nat, b: nat)
    requires b >= 1
    ensures m % b == 0 ==> CeilDiv(m + 1, b) == CeilDiv(m, b) + 1 && CeilDiv(m, b) * b == m
    ensures m % b != 0 ==> CeilDiv(m + 1, b) == CeilDiv(m, b)
  {
    var q, r := m / b, m % b;
    assert m == q * b + r && 0 <= r < b;
    if r == 0 {
      CeilDivOnGrid(q, b);
    } else {
      CeilDivOffGrid(q, r, b);
    }
  }

  lemma CeilDivOnGrid(q: nat, b: nat)
    requires b >= 1
    ensures CeilDiv(q * b, b) == q && CeilDiv(q * b + 1, b) == q + 1
  {
    assert (q + 1) * b == q * b + b;
    DivIs(q * b + b - 1, b, q);
    DivIs(q * b + b, b, q + 1);
  }

  lemma CeilDivOffGrid(q: nat, r: nat, b: nat)
    requires 0 < r < b
    ensures CeilDiv(q * b + r, b) == q + 1 && CeilDiv(q * b + r + 1, b) == q + 1
  {
    assert (q + 1) * b == q * b + b;
    DivIs(q * b + r + b - 1, b, q + 1);
    DivIs(q * b + r + b, b, q + 1);
  }

  /** The loop stores exactly ceil((n - burnIn) / thin) states out of n steps,
      and the k-th stored state is the one after step burnIn + k * thin. */
  lemma {:induction false} ThinnedShape<T>(trace: seq<T>, burnIn: nat, thin: nat)
    requires thin >= 1
    ensures |Thinned(trace, burnIn, thin)| == CeilDiv(PastBurnIn(|trace|, burnIn), thin)
    ensures forall k :: 0 <= k < |Thinned(trace, burnIn, thin)| ==>
              burnIn + k * thin < |trace| && Thinned(trace, burnIn, thin)[k] == trace[burnIn + k * thin]
  {
    if |trace| == 0 {
      assert CeilDiv(0, thin) == 0 by { DivIs(thin - 1, thin, 0); }
    } else {
      var n := |trace| - 1;
      var prefix := trace[..n];
      ThinnedShape(prefix, burnIn, thin);
      var before := Thinned(prefix, burnIn, thin);
      var after := Thinned(trace, burnIn, thin);
      if n < burnIn {
        assert after == before;
      } else {
        var m := n - burnIn;
        CeilDivStep(m, thin);
        assert PastBurnIn(n, burnIn) == m;
        if m % thin == 0 {
          assert after == before + [trace[n]];
          assert burnIn + |before| * thin == n;
        } else {
          assert after == before;
        }
      }
      forall k | 0 <= k < |after|
        ensures burnIn + k * thin < |trace| && after[k] == trace[burnIn + k * thin]
      {
        if k < |before| {
          assert after[k] == before[k] == prefix[burnIn + k * thin];
        }
      }
    }
  }

  /** With one step per post-burn-in iteration the stored count does not depend on burn-in. */
  lemma SampleCount(burnIn: nat, iterations: nat, thin: nat)
    requires thin >= 1
    ensures PastBurnIn(burnIn + iterations, burnIn) == iterations
    ensures iterations >= 1 ==> CeilDiv(iterations, thin) >= 1
    ensures CeilDiv(iterations, thin) <= iterations
  {
    var a := iterations + thin - 1;
    var q := a / thin;
    DivBounds(a, thin);
    if q >= 1 {
      MulMonotone(1, thin, q - 1);
      assert (q - 1) * thin == q * thin - thin;
    }
  }

  /** The k-th stored state is trace[burnIn + k * thin]. */
  lemma KeptStateAt<T>(trace: seq<T>, burnIn: nat, thin: nat, k: nat)
    requires thin >= 1 && k < |Thinned(trace, burnIn, thin)|
    ensures burnIn + k * thin < |trace| && Thinned(trace, burnIn, thin)[k] == trace[burnIn + k * thin]
  {
    ThinnedShape(trace, burnIn, thin);
  }

  /** Over burnIn + iterations steps the loop stores ceil(iterations / thin)
      states, whatever the burn-in. */
  lemma KeptCount<T>(trace: seq<T>, burnIn: nat, thin: nat, iterations: nat)
    requires thin >= 1 && |trace| == burnIn + iterations
    ensures |Thinned(trace, burnIn, thin)| == CeilDiv(iterations, thin)
  {
    ThinnedShape(trace, burnIn, thin);
    SampleCount(burnIn, iterations, thin);
  }

  /** Step burnIn + k * thin is on the storing grid. */
  lemma GridKept(burnIn: nat, thin: nat, k: nat)
    requires thin >= 1
    ensures Kept(burnIn + k * thin, burnIn, thin)
  {
    DivIs(k * thin, thin, k);
  }
}
