/** The survival curve, half-life and median of a sorted lifetime sample
    (`analyzeRepository`, main.go). Lifetimes are in days and exact; Go's
    float64 rounding is not modelled. */
module Survival {
  import opened Wrappers
  import opened Sorting

  /** The number of ages the survival curve is sampled at (`timePoints`). */
  const TimePoints: nat := 100

  /** The age sampled at point `i`: `maxAge * i / TimePoints`. */
  function TimePoint(maxAge: real, i: int): real {
    maxAge * (i as real) / (TimePoints as real)
  }

  /** How many lifetimes of the sample reach age `t`. */
  function CountAtLeast(s: seq<real>, t: real): (c: nat)
    ensures c <= |s|
    decreases |s|
  {
    if |s| == 0 then 0 else (if s[0] >= t then 1 else 0) + CountAtLeast(s[1..], t)
  }

  /** The fraction of the sample still alive at sample point `i`. */
  function Rate(lifetimes: seq<real>, maxAge: real, i: int): real
    requires |lifetimes| > 0
  {
    CountAtLeast(lifetimes, TimePoint(maxAge, i)) as real / |lifetimes| as real
  }

  /** `survivalRate`: the surviving fraction at each of the sampled ages. */
  function SurvivalCurve(lifetimes: seq<real>, maxAge: real): (rates: seq<real>)
    requires |lifetimes| > 0
    ensures |rates| == TimePoints
    ensures forall i :: 0 <= i < |rates| ==> 0.0 <= rates[i] <= 1.0
  {
    seq(TimePoints, i requires 0 <= i < TimePoints => Rate(lifetimes, maxAge, i))
  }

  /** The index of the first rate at or below one half, if any. */
  function FirstAtOrBelowHalf(rates: seq<real>): (r: Option<nat>)
    ensures r.Some? ==> r.value < |rates| && rates[r.value] <= 0.5
    ensures r.Some? ==> forall j :: 0 <= j < r.value ==> rates[j] > 0.5
    ensures r.None? ==> forall j :: 0 <= j < |rates| ==> rates[j] > 0.5
    decreases |rates|
  {
    if |rates| == 0 then None
    else if rates[0] <= 0.5 then Some(0)
    else
      match FirstAtOrBelowHalf(rates[1..])
      case None => None
      case Some(i) => Some(i + 1)
  }

  /** `halfLife`: the age at which the curve first reaches one half; when
      that age is 0 (the curve never gets there), the middle lifetime. */
  function HalfLife(sorted: seq<real>, maxAge: real, rates: seq<real>): real
    requires |sorted| > 0
  {
    var crossing :=
      match FirstAtOrBelowHalf(rates)
      case Some(i) => TimePoint(maxAge, i)
      case None => 0.0;
    if crossing == 0.0 then sorted[|sorted| / 2] else crossing
  }

  /** `MedianAge`: the element at index n/2 of the sorted sample, which for
      an even count is the upper of the two middle elements. */
  function MedianAge(sorted: seq<real>): real
    requires |sorted| > 0
  {
    sorted[|sorted| / 2]
  }

  // ---------------------------------------------------------------------------
  // Counting lemmas
  // ---------------------------------------------------------------------------

  lemma {:induction false} CountAtLeastAntitone(s: seq<real>, t1: real, t2: real)
    requires t1 <= t2
    ensures CountAtLeast(s, t2) <= CountAtLeast(s, t1)
    decreases |s|
  {
    if |s| > 0 { CountAtLeastAntitone(s[1..], t1, t2); }
  }

  /** When every lifetime from index `k` on reaches `t`, at least `|s| - k`
      lifetimes reach it. */
  lemma {:induction false} CountAtLeastFrom(s: seq<real>, k: nat, t: real)
    requires k <= |s|
    requires forall j :: k <= j < |s| ==> s[j] >= t
    ensures CountAtLeast(s, t) >= |s| - k
    decreases |s|
  {
    if |s| > 0 {
      if k == 0 {
        CountAtLeastFrom(s[1..], 0, t);
      } else {
        CountAtLeastFrom(s[1..], k - 1, t);
      }
    }
  }

  /** How many lifetimes of the sample exceed `t`. */
  function CountAbove(s: seq<real>, t: real): (c: nat)
    ensures c <= |s|
    decreases |s|
  {
    if |s| == 0 then 0 else (if s[0] > t then 1 else 0) + CountAbove(s[1..], t)
  }

  /** When no lifetime before index `k` exceeds `t`, at most `|s| - k` do. */
  lemma {:induction false} CountAboveUpTo(s: seq<real>, k: nat, t: real)
    requires k <= |s|
    requires forall j :: 0 <= j < k ==> s[j] <= t
    ensures CountAbove(s, t) <= |s| - k
    decreases |s|
  {
    if |s| > 0 && k > 0 {
      CountAboveUpTo(s[1..], k - 1, t);
    }
  }

  lemma TimePointMonotone(maxAge: real, i: int, j: int)
    requires maxAge >= 0.0 && i <= j
    ensures TimePoint(maxAge, i) <= TimePoint(maxAge, j)
  {
    assert maxAge * (i as real) <= maxAge * (j as real);
  }

  lemma TimePointRange(maxAge: real, i: int)
    requires maxAge > 0.0 && 0 <= i < TimePoints
    ensures 0.0 <= TimePoint(maxAge, i) < maxAge
    ensures i > 0 ==> TimePoint(maxAge, i) > 0.0
  {
    assert maxAge * (i as real) < maxAge * (TimePoints as real);
    assert i > 0 ==> maxAge * (i as real) > 0.0;
  }

  lemma DivideMonotone(a: real, b: real, n: real)
    requires a <= b && n > 0.0
    ensures a / n <= b / n
  {
  }

  // ---------------------------------------------------------------------------
  // Shape of the curve, half-life and median
  // ---------------------------------------------------------------------------

  /** A sample the statistics accept: sorted, non-empty, all lifetimes
      positive. Its largest lifetime is its last element (`maxAge`). */
  ghost predicate ValidSample(sorted: seq<real>) {
    |sorted| > 0 && Sorted(sorted) && sorted[0] > 0.0
  }

  /** The curve has exactly `TimePoints` entries, starts at 1, never rises,
      and stays strictly positive because `maxAge` is itself in the sample
      and every sampled age is below it. */
  lemma SurvivalCurveShape(sorted: seq<real>)
    requires ValidSample(sorted)
    ensures var rates := SurvivalCurve(sorted, sorted[|sorted| - 1]);
      && |rates| == TimePoints
      && rates[0] == 1.0
      && (forall i, j :: 0 <= i < j < TimePoints ==> rates[j] <= rates[i])
      && (forall i :: 0 <= i < TimePoints ==> 0.0 < rates[i] <= 1.0)
  {
    var n := |sorted|;
    var maxAge := sorted[n - 1];
    var rates := SurvivalCurve(sorted, maxAge);
    CountAtLeastFrom(sorted, 0, 0.0);
    assert TimePoint(maxAge, 0) == 0.0;
    assert rates[0] == n as real / n as real;
    SelfQuotient(n as real);
    forall i, j | 0 <= i < j < TimePoints
      ensures rates[j] <= rates[i]
    {
      TimePointMonotone(maxAge, i, j);
      CountAtLeastAntitone(sorted, TimePoint(maxAge, i), TimePoint(maxAge, j));
      DivideMonotone(CountAtLeast(sorted, TimePoint(maxAge, j)) as real,
                     CountAtLeast(sorted, TimePoint(maxAge, i)) as real, n as real);
    }
    forall i | 0 <= i < TimePoints
      ensures 0.0 < rates[i]
    {
      TimePointRange(maxAge, i);
      CountAtLeastFrom(sorted, n - 1, TimePoint(maxAge, i));
    }
  }

  /** When the curve reaches one half, the half-life is the first sampled age
      where it does (never the age 0, where the curve is 1); otherwise it is
      the middle lifetime. Either way it is positive and at most `maxAge`. */
  lemma HalfLifeProperties(sorted: seq<real>)
    requires ValidSample(sorted)
    ensures var maxAge := sorted[|sorted| - 1];
      var rates := SurvivalCurve(sorted, maxAge);
      var h := HalfLife(sorted, maxAge, rates);
      && 0.0 < h <= maxAge
      && ((exists i :: 0 <= i < TimePoints && rates[i] <= 0.5) ==>
            exists i :: 1 <= i < TimePoints && h == TimePoint(maxAge, i) && rates[i] <= 0.5
              && forall j :: 0 <= j < i ==> rates[j] > 0.5)
      && ((forall i :: 0 <= i < TimePoints ==> rates[i] > 0.5) ==> h == MedianAge(sorted))
  {
    var n := |sorted|;
    var maxAge := sorted[n - 1];
    var rates := SurvivalCurve(sorted, maxAge);
    SurvivalCurveShape(sorted);
    match FirstAtOrBelowHalf(rates) {
      case Some(i) =>
        assert i != 0;
        TimePointRange(maxAge, i);
      case None =>
        assert sorted[0] <= sorted[n / 2] <= sorted[n - 1];
    }
  }

  /** The median is a lifetime of the sample with at most n/2 lifetimes below
      it and at most (n-1)/2 above it: the upper middle, not an average. */
  lemma MedianIsUpperMiddle(sorted: seq<real>)
    requires |sorted| > 0 && Sorted(sorted)
    ensures var m := MedianAge(sorted); var n := |sorted|;
      && m in sorted
      && CountAtLeast(sorted, m) >= n - n / 2
      && CountAbove(sorted, m) <= (n - 1) / 2
  {
    var n := |sorted|;
    var m := MedianAge(sorted);
    CountAtLeastFrom(sorted, n / 2, m);
    CountAboveUpTo(sorted, n / 2 + 1, m);
  }

  /** When more than half of the sample share the largest lifetime, the curve
      never reaches one half and the half-life is the median. This is the
      case of a single-commit history, where every line has the same age. */
  lemma HalfLifeFallsBackWhenMajorityAtMax(sorted: seq<real>)
    requires ValidSample(sorted)
    requires 2 * CountAtLeast(sorted, sorted[|sorted| - 1]) > |sorted|
    ensures var maxAge := sorted[|sorted| - 1];
      HalfLife(sorted, maxAge, SurvivalCurve(sorted, maxAge)) == MedianAge(sorted)
  {
    var n := |sorted|;
    var maxAge := sorted[n - 1];
    var rates := SurvivalCurve(sorted, maxAge);
    forall i | 0 <= i < TimePoints
      ensures rates[i] > 0.5
    {
      RateAboveHalf(sorted, i);
    }
    assert FirstAtOrBelowHalf(rates).None?;
  }

  lemma RateAboveHalf(sorted: seq<real>, i: int)
    requires ValidSample(sorted) && 0 <= i < TimePoints
    requires 2 * CountAtLeast(sorted, sorted[|sorted| - 1]) > |sorted|
    ensures Rate(sorted, sorted[|sorted| - 1], i) > 0.5
  {
    var maxAge := sorted[|sorted| - 1];
    TimePointRange(maxAge, i);
    CountAtLeastAntitone(sorted, TimePoint(maxAge, i), maxAge);
    FractionAboveHalf(CountAtLeast(sorted, TimePoint(maxAge, i)), |sorted|);
  }

  lemma FractionAboveHalf(c: nat, n: nat)
    requires n > 0 && 2 * c > n
    ensures (c as real) / (n as real) > 0.5
  {
    var nr := n as real;
    var q := (c as real) / nr;
    assert q * nr == c as real;
    MultiplyMonotone(q, 0.5, nr);
  }

  lemma SelfQuotient(x: real)
    requires x > 0.0
    ensures x / x == 1.0
  {
  }

  lemma MultiplyMonotone(a: real, b: real, n: real)
    requires n >= 0.0
    ensures a <= b ==> a * n <= b * n
  {
  }
}
