/** Summary statistics over the stored samples: numpy's mean, median and
    percentile with its default linear interpolation, and the equal-tailed
    credible interval both samplers report. */
module Statistics {
  import opened Failures

  /** The smallest sample. */
  function Min(s: seq<real>): (m: real)
    requires |s| > 0
    ensures m in s
    ensures forall i :: 0 <= i < |s| ==> m <= s[i]
  {
    if |s| == 1 then s[0]
    else
      var rest := Min(s[..|s| - 1]);
      if s[|s| - 1] < rest then s[|s| - 1] else rest
  }

  /** The largest sample. */
  function Max(s: seq<real>): (m: real)
    requires |s| > 0
    ensures m in s
    ensures forall i :: 0 <= i < |s| ==> s[i] <= m
  {
    if |s| == 1 then s[0]
    else
      var rest := Max(s[..|s| - 1]);
      if s[|s| - 1] > rest then s[|s| - 1] else rest
  }

  function Sum(s: seq<real>): real
  {
    if |s| == 0 then 0.0 else Sum(s[..|s| - 1]) + s[|s| - 1]
  }

  lemma {:induction false} SumBounds(s: seq<real>, lo: real, hi: real)
    requires forall i :: 0 <= i < |s| ==> lo <= s[i] <= hi
    ensures |s| as real * lo <= Sum(s) <= |s| as real * hi
  {
    if |s| > 0 {
      SumBounds(s[..|s| - 1], lo, hi);
    }
  }

  /** `np.mean`: the arithmetic mean, which lies between the extreme samples. */
  function Mean(s: seq<real>): (m: real)
    requires |s| > 0
    ensures Min(s) <= m <= Max(s)
  {
    SumBounds(s, Min(s), Max(s));
    DivBetween(Sum(s), |s| as real, Min(s), Max(s));
    Sum(s) / |s| as real
  }

  /** n * lo <= x <= n * hi bounds x / n by lo and hi. */
  lemma DivBetween(x: real, n: real, lo: real, hi: real)
    requires n > 0.0 && n * lo <= x <= n * hi
    ensures lo <= x / n <= hi
  {
    var m := x / n;
    assert x == m * n;
    if m < lo {
      MulMonotone(m, lo, n);
      assert false;
    }
    if m > hi {
      MulMonotone(hi, m, n);
      assert false;
    }
  }

  /** A count out of a positive total, as a rate, lies in [0, 1]. */
  lemma FractionInUnit(a: nat, n: nat)
    requires a <= n && n > 0
    ensures 0.0 <= a as real / n as real <= 1.0
  {
    DivBetween(a as real, n as real, 0.0, 1.0);
  }

  lemma MulMonotone(a: real, b: real, c: real)
    requires a <= b && c >= 0.0
    ensures a * c <= b * c && c * a <= c * b
  {
    assert b * c - a * c == (b - a) * c;
  }

  predicate Sorted(s: seq<real>)
  {
    forall i, j :: 0 <= i < j < |s| ==> s[i] <= s[j]
  }

  /** Inserts `x` into a sorted sequence, keeping it sorted. */
  function Insert(x: real, t: seq<real>): (r: seq<real>)
    requires Sorted(t)
    ensures Sorted(r)
    ensures multiset(r) == multiset(t) + multiset{x}
    ensures |r| == |t| + 1
    ensures r[0] == if |t| == 0 || x <= t[0] then x else t[0]
  {
    if |t| == 0 then [x]
    else if x <= t[0] then [x] + t
    else
      var rest := Insert(x, t[1..]);
      assert t == [t[0]] + t[1..];
      assert t[0] <= rest[0];
      [t[0]] + rest
  }

  /** The sorted copy numpy's percentile and median work on: an ordered
      permutation of the samples. */
  function Sort(s: seq<real>): (r: seq<real>)
    ensures Sorted(r)
    ensures multiset(r) == multiset(s)
    ensures |r| == |s|
  {
    if |s| == 0 then []
    else
      assert s == s[..|s| - 1] + [s[|s| - 1]];
      Insert(s[|s| - 1], Sort(s[..|s| - 1]))
  }

  /** The ends of the sorted copy are the extreme samples. */
  lemma SortedEnds(s: seq<real>)
    requires |s| > 0
    ensures Sort(s)[0] == Min(s)
    ensures Sort(s)[|s| - 1] == Max(s)
  {
    EndsAgree(Sort(s), s);
  }

  /** The ends of any sorted permutation of s are its extreme samples. */
  lemma EndsAgree(t: seq<real>, s: seq<real>)
    requires Sorted(t) && multiset(t) == multiset(s) && |t| == |s| > 0
    ensures t[0] == Min(s) && t[|s| - 1] == Max(s)
  {
    var last := |s| - 1;
    PermutationBounds(t, s);
    InPermutation(t, s, 0);
    InPermutation(t, s, last);
    var i, k := IndexOf(s, t[0]), IndexOf(s, t[last]);
    var a, b := IndexOf(s, Min(s)), IndexOf(s, Max(s));
    assert Min(s) <= s[i] && s[a] <= t[0];
    assert s[k] <= Max(s) && t[last] <= s[b];
  }

  /** Every element of s lies between the ends of its sorted permutation t. */
  lemma PermutationBounds(t: seq<real>, s: seq<real>)
    requires Sorted(t) && multiset(t) == multiset(s) && |s| > 0
    ensures forall i :: 0 <= i < |s| ==> t[0] <= s[i] <= t[|t| - 1]
  {
    forall i | 0 <= i < |s|
      ensures t[0] <= s[i] <= t[|t| - 1]
    {
      assert s[i] in multiset(s);
      assert s[i] in t;
      var k := IndexOf(t, s[i]);
    }
  }

  lemma InPermutation(t: seq<real>, s: seq<real>, k: nat)
    requires multiset(t) == multiset(s) && k < |t|
    ensures t[k] in s
  {
    assert t[k] in multiset(t);
  }

  /** A position of x in t. */
  function IndexOf(t: seq<real>, x: real): (k: nat)
    requires x in t
    ensures k < |t| && t[k] == x
  {
    if t[0] == x then 0 else 1 + IndexOf(t[1..], x)
  }

  /** numpy's linear interpolation at fractional index h of a sorted sequence:
      between t[floor(h)] and the next element, clipped at the last one. */
  function Interp(t: seq<real>, h: real): real
    requires |t| > 0 && 0.0 <= h <= (|t| - 1) as real
  {
    var lo := h.Floor;
    var hi := if lo + 1 < |t| then lo + 1 else lo;
    Lerp(t[lo], t[hi], h - lo as real)
  }

  /** The point a fraction f of the way from a to b. */
  function Lerp(a: real, b: real, f: real): real
  {
    a + f * (b - a)
  }

  /** The interpolated value lies between its two neighbours. */
  lemma InterpBetween(t: seq<real>, h: real)
    requires |t| > 0 && 0.0 <= h <= (|t| - 1) as real
    requires Sorted(t)
    ensures t[h.Floor] <= Interp(t, h)
    ensures h.Floor + 1 < |t| ==> Interp(t, h) <= t[h.Floor + 1]
    ensures h.Floor + 1 >= |t| ==> Interp(t, h) == t[|t| - 1]
  {
    var lo := h.Floor;
    var f := h - lo as real;
    var hi := if lo + 1 < |t| then lo + 1 else lo;
    assert 0.0 <= f < 1.0;
    if hi != lo {
      assert t[lo] <= t[hi];
    }
    assert Interp(t, h) == Lerp(t[lo], t[hi], f);
    LerpBetween(t[lo], t[hi], f);
  }

  /** A fraction in [0, 1] of the way from a to b stays between them. */
  lemma LerpBetween(a: real, b: real, f: real)
    requires a <= b && 0.0 <= f <= 1.0
    ensures a <= Lerp(a, b, f) <= b
  {
    MulMonotone(0.0, f, b - a);
    MulMonotone(f, 1.0, b - a);
  }

  /** Interpolation into a sorted sequence is monotone in the index. */
  lemma InterpMonotone(t: seq<real>, h1: real, h2: real)
    requires |t| > 0 && 0.0 <= h1 <= h2 <= (|t| - 1) as real
    requires Sorted(t)
    ensures Interp(t, h1) <= Interp(t, h2)
  {
    var lo1, lo2 := h1.Floor, h2.Floor;
    InterpBetween(t, h1);
    InterpBetween(t, h2);
    if lo1 == lo2 {
      var lo := lo1;
      var hi := if lo + 1 < |t| then lo + 1 else lo;
      if hi != lo {
        assert t[lo] <= t[hi];
      }
      var f1, f2 := h1 - lo as real, h2 - lo as real;
      assert Interp(t, h1) == Lerp(t[lo], t[hi], f1);
      assert Interp(t, h2) == Lerp(t[lo], t[hi], f2);
      LerpMonotone(t[lo], t[hi], f1, f2);
    } else {
      assert lo1 < lo2 && lo2 as real <= h2;
      assert lo1 + 1 < |t|;
      assert Interp(t, h1) <= t[lo1 + 1];
      assert t[lo1 + 1] <= t[lo2];
      assert t[lo2] <= Interp(t, h2);
    }
  }

  /** Moving further along a non-decreasing segment never goes down. */
  lemma LerpMonotone(a: real, b: real, f1: real, f2: real)
    requires a <= b && f1 <= f2
    ensures Lerp(a, b, f1) <= Lerp(a, b, f2)
  {
    MulMonotone(f1, f2, b - a);
  }

  /** The fractional index numpy interpolates at for percentile q of n values:
      the fraction q / 100 of the way from index 0 to index n - 1. */
  function Rank(n: nat, q: real): (h: real)
    requires n > 0 && 0.0 <= q <= 100.0
    ensures 0.0 <= h <= (n - 1) as real
  {
    LerpBetween(0.0, (n - 1) as real, q / 100.0);
    Lerp(0.0, (n - 1) as real, q / 100.0)
  }

  /** The linearly interpolated q-th percentile of a non-empty sample; it lies
      between the extreme samples. */
  function LinearPercentile(s: seq<real>, q: real): (p: real)
    requires |s| > 0 && 0.0 <= q <= 100.0
    ensures Min(s) <= p <= Max(s)
  {
    var t := Sort(s);
    var h := Rank(|s|, q);
    SortedEnds(s);
    InterpMonotone(t, 0.0, h);
    InterpMonotone(t, h, (|t| - 1) as real);
    InterpAtIndex(t, 0);
    InterpAtIndex(t, |t| - 1);
    Interp(t, h)
  }

  /** `np.percentile(s, q)` with the default linear method: it rejects q outside
      [0, 100] first, then an empty array. */
  function Percentile(s: seq<real>, q: real): (r: Result<real>)
    ensures r.Ok? <==> 0.0 <= q <= 100.0 && |s| > 0
    ensures !(0.0 <= q <= 100.0) ==> r == Err(PercentileOutOfRange)
    ensures r.Ok? ==> r.value == LinearPercentile(s, q)
  {
    if !(0.0 <= q <= 100.0) then Err(PercentileOutOfRange)
    else if |s| == 0 then Err(EmptySamples)
    else Ok(LinearPercentile(s, q))
  }

  lemma RankMonotone(n: nat, q1: real, q2: real)
    requires n > 0 && 0.0 <= q1 <= q2 <= 100.0
    ensures Rank(n, q1) <= Rank(n, q2)
  {
    LerpMonotone(0.0, (n - 1) as real, q1 / 100.0, q2 / 100.0);
  }

  /** A higher percentile is never smaller. */
  lemma PercentileMonotone(s: seq<real>, q1: real, q2: real)
    requires |s| > 0 && 0.0 <= q1 <= q2 <= 100.0
    ensures LinearPercentile(s, q1) <= LinearPercentile(s, q2)
  {
    RankMonotone(|s|, q1, q2);
    InterpMonotone(Sort(s), Rank(|s|, q1), Rank(|s|, q2));
  }

  /** The middle of a sorted sequence: its middle element, or the mean of the
      two middle ones for an even length. */
  function Middle(t: seq<real>): real
    requires |t| > 0
  {
    var n := |t|;
    if n % 2 == 1 then t[n / 2] else (t[n / 2 - 1] + t[n / 2]) / 2.0
  }

  /** `np.median`: the middle of the sorted copy. */
  function Median(s: seq<real>): real
    requires |s| > 0
  {
    Middle(Sort(s))
  }

  /** The median is the 50th percentile, so it too lies between the extremes. */
  lemma MedianIsPercentile50(s: seq<real>)
    requires |s| > 0
    ensures Percentile(s, 50.0) == Ok(Median(s))
    ensures Min(s) <= Median(s) <= Max(s)
  {
    InterpMiddle(Sort(s));
  }

  /** Interpolating at the 50th-percentile rank lands on the middle. */
  lemma InterpMiddle(t: seq<real>)
    requires |t| > 0
    ensures Interp(t, Rank(|t|, 50.0)) == Middle(t)
  {
    var n := |t|;
    var h := Rank(n, 50.0);
    MiddleRank(n);
    if n % 2 == 1 {
      InterpAtIndex(t, n / 2);
    } else {
      var k := n / 2 - 1;
      assert h == k as real + 0.5 && k + 1 == n / 2;
      InterpAtHalf(t, k);
    }
  }

  lemma InterpAtIndex(t: seq<real>, k: nat)
    requires k < |t|
    ensures Interp(t, k as real) == t[k]
  {
    assert (k as real).Floor == k;
  }

  lemma InterpAtHalf(t: seq<real>, k: nat)
    requires k + 1 < |t|
    ensures Interp(t, k as real + 0.5) == (t[k] + t[k + 1]) / 2.0
  {
    assert (k as real + 0.5).Floor == k;
  }

  /** Where the 50th percentile falls: on the middle index for an odd count,
      halfway between the two middle indices for an even one. */
  lemma MiddleRank(n: nat)
    requires n > 0
    ensures n % 2 == 1 ==> Rank(n, 50.0) == (n / 2) as real
    ensures n % 2 == 0 ==> Rank(n, 50.0) == (n / 2 - 1) as real + 0.5
  {
    var h := Rank(n, 50.0);
    assert h == 0.0 + 0.5 * ((n - 1) as real - 0.0);
    assert n == 2 * (n / 2) + n % 2;
  }

  /** The lower tail probability alpha = (1 - level) / 2, as a percentile. */
  function LowerQ(level: real): real
  {
    100.0 * ((1.0 - level) / 2.0)
  }

  /** The upper percentile 100 * (1 - alpha). */
  function UpperQ(level: real): real
  {
    100.0 * (1.0 - (1.0 - level) / 2.0)
  }

  /** The equal-tailed credible interval at `level`: the percentiles at
      100 * alpha and 100 * (1 - alpha) with alpha = (1 - level) / 2. It exists
      exactly when there are samples and level lies in [-1, 1], which is when
      both percentiles lie in [0, 100]. */
  function CredibleInterval(s: seq<real>, level: real): (r: Result<(real, real)>)
    ensures r.Ok? <==> |s| > 0 && -1.0 <= level <= 1.0
    ensures !(-1.0 <= level <= 1.0) ==> r == Err(PercentileOutOfRange)
    ensures r.Ok? ==> r.value == (LinearPercentile(s, LowerQ(level)), LinearPercentile(s, UpperQ(level)))
  {
    match (Percentile(s, LowerQ(level)), Percentile(s, UpperQ(level)))
    case (Err(e), _) => Err(e)
    case (_, Err(e)) => Err(e)
    case (Ok(lower), Ok(upper)) => Ok((lower, upper))
  }

  /** For a level in [0, 1] the bounds are ordered and lie within the samples'
      range; a negative level swaps them. */
  lemma CredibleIntervalOrdered(s: seq<real>, level: real)
    requires |s| > 0 && -1.0 <= level <= 1.0
    ensures var ci := CredibleInterval(s, level).value;
      && Min(s) <= ci.0 <= Max(s) && Min(s) <= ci.1 <= Max(s)
      && (0.0 <= level ==> ci.0 <= ci.1)
      && (level <= 0.0 ==> ci.1 <= ci.0)
  {
    if 0.0 <= level {
      PercentileMonotone(s, LowerQ(level), UpperQ(level));
    }
    if level <= 0.0 {
      PercentileMonotone(s, UpperQ(level), LowerQ(level));
    }
  }

  /** A larger level never gives a narrower interval: the interval at level1
      nests inside the one at level2. */
  lemma CredibleIntervalNested(s: seq<real>, level1: real, level2: real)
    requires |s| > 0 && 0.0 <= level1 <= level2 <= 1.0
    ensures var ci1, ci2 := CredibleInterval(s, level1).value, CredibleInterval(s, level2).value;
      && ci2.0 <= ci1.0 <= ci1.1 <= ci2.1
      && ci1.1 - ci1.0 <= ci2.1 - ci2.0
  {
    PercentileMonotone(s, LowerQ(level2), LowerQ(level1));
    PercentileMonotone(s, UpperQ(level1), UpperQ(level2));
    CredibleIntervalOrdered(s, level1);
  }

  /** When every sample is the same value the interval collapses to that value
      at every level, so lower < upper and strict widening do not hold in general. */
  lemma CredibleIntervalDegenerate(s: seq<real>, c: real, level: real)
    requires |s| > 0 && -1.0 <= level <= 1.0
    requires forall i :: 0 <= i < |s| ==> s[i] == c
    ensures CredibleInterval(s, level) == Ok((c, c))
  {
    assert Min(s) == c && Max(s) == c;
  }
}
