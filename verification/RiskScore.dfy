/** A repository's risk from its review history, most recent review first. */
module RiskScore {

  datatype Review = Review(completed: bool, criticalCount: nat, totalFindings: nat)

  datatype Trend = Improving | Worsening | Stable

  /** `score` is the weighted risk before it is rounded to one digit. */
  datatype Risk = Risk(score: real, trend: Trend, reviewsConsidered: nat)

  function Min(a: int, b: int): int {
    if a < b then a else b
  }

  /** The contribution of one review. */
  function ReviewRisk(r: Review): (risk: nat)
    ensures risk <= 100
    ensures !r.completed ==> risk >= 30
  {
    var base := if r.completed then 0 else 30;
    var criticalRisk := Min(r.criticalCount * 20, 70);
    var other := if r.totalFindings > r.criticalCount then r.totalFindings - r.criticalCount else 0;
    Min(base + criticalRisk + Min(other * 3, 20), 100)
  }

  function Risks(history: seq<Review>): (risks: seq<nat>)
    ensures |risks| == |history|
    ensures forall i | 0 <= i < |history| :: risks[i] == ReviewRisk(history[i])
  {
    seq(|history|, i requires 0 <= i < |history| => ReviewRisk(history[i]))
  }

  /** Index 0 has the greatest weight, `n`, the last one has weight 1. */
  function WeightedSum(risks: seq<nat>): nat {
    if risks == [] then 0 else |risks| * risks[0] + WeightedSum(risks[1..])
  }

  function TotalWeight(n: nat): nat {
    if n == 0 then 0 else n + TotalWeight(n - 1)
  }

  function Sum(risks: seq<nat>): nat {
    if risks == [] then 0 else risks[0] + Sum(risks[1..])
  }

  function Score(risks: seq<nat>): real
    requires risks != []
  {
    (WeightedSum(risks) as real) / (TotalWeight(|risks|) as real)
  }

  function Average(risks: seq<nat>): real
    requires risks != []
  {
    (Sum(risks) as real) / (|risks| as real)
  }

  function ComputeTrend(history: seq<Review>): Trend {
    if |history| < 2 then Stable
    else
      var midpoint := |history| / 2;
      var recent, older := Average(Risks(history[..midpoint])), Average(Risks(history[midpoint..]));
      if recent < older - 5.0 then Improving
      else if recent > older + 5.0 then Worsening
      else Stable
  }

  function ComputeRiskScore(history: seq<Review>): Risk {
    if history == [] then Risk(0.0, Stable, 0)
    else Risk(Score(Risks(history)), ComputeTrend(history), |history|)
  }

  /** One more of the findings being critical lowers the risk of a completed review exactly when
      the critical share is at its limit and that of the others is not: with four critical
      findings or more, and one to seven others. */
  lemma CriticalLowersRiskExactlyWhen(r: Review)
    ensures ReviewRisk(r.(criticalCount := r.criticalCount + 1)) < ReviewRisk(r)
      <==> r.completed && 4 <= r.criticalCount < r.totalFindings <= r.criticalCount + 7
  {
  }

  // ----- Bounds -----

  lemma Scaled(n: nat, a: nat, b: nat)
    requires a <= b
    ensures n * a <= n * b
  {
    assert n * (b - a) >= 0;
  }

  lemma OneMoreWeight(n: nat, w: nat, x: nat, rest: nat, lo: nat, hi: nat)
    requires lo <= x <= hi && lo * w <= rest <= hi * w
    ensures lo * (n + w) <= n * x + rest <= hi * (n + w)
  {
    Scaled(n, lo, x);
    Scaled(n, x, hi);
    assert lo * (n + w) == n * lo + lo * w && hi * (n + w) == n * hi + hi * w;
  }

  lemma {:induction false} WeightedBetween(risks: seq<nat>, lo: nat, hi: nat)
    requires forall i | 0 <= i < |risks| :: lo <= risks[i] <= hi
    ensures lo * TotalWeight(|risks|) <= WeightedSum(risks) <= hi * TotalWeight(|risks|)
  {
    if risks != [] {
      WeightedBetween(risks[1..], lo, hi);
      OneMoreWeight(|risks|, TotalWeight(|risks| - 1), risks[0], WeightedSum(risks[1..]), lo, hi);
    }
  }

  lemma TotalIsPositive(n: nat)
    requires n > 0
    ensures TotalWeight(n) > 0
  {
  }

  lemma Quotient(x: real, d: real, lo: real, hi: real)
    requires d > 0.0 && lo * d <= x <= hi * d
    ensures lo <= x / d <= hi
  {
    var q := x / d;
    assert q * d == x;
    assert q < lo ==> (lo - q) * d > 0.0;
    assert q > hi ==> (q - hi) * d > 0.0;
  }

  lemma AsReal(a: nat, b: nat)
    ensures (a * b) as real == (a as real) * (b as real)
  {
  }

  lemma ScoreWithin(risks: seq<nat>, lo: nat, hi: nat)
    requires risks != [] && TotalWeight(|risks|) > 0
    requires lo * TotalWeight(|risks|) <= WeightedSum(risks) <= hi * TotalWeight(|risks|)
    ensures lo as real <= Score(risks) <= hi as real
  {
    hide TotalWeight, WeightedSum;
    var d, x := TotalWeight(|risks|), WeightedSum(risks);
    AsReal(lo, d);
    AsReal(hi, d);
    Quotient(x as real, d as real, lo as real, hi as real);
  }

  /** The score lies between the least and the greatest review risk, and in 0..100. */
  lemma ScoreBetween(history: seq<Review>, lo: nat, hi: nat)
    requires history != []
    requires forall i | 0 <= i < |history| :: lo <= ReviewRisk(history[i]) <= hi
    ensures lo as real <= ComputeRiskScore(history).score <= hi as real
    ensures 0.0 <= ComputeRiskScore(history).score <= 100.0
  {
    var risks := Risks(history);
    WeightedBetween(risks, lo, hi);
    WeightedBetween(risks, 0, 100);
    TotalIsPositive(|risks|);
    ScoreWithin(risks, lo, hi);
    ScoreWithin(risks, 0, 100);
  }

  // ----- The order of the reviews -----

  ghost predicate NonIncreasing(xs: seq<nat>) {
    forall i, j | 0 <= i < j < |xs| :: xs[i] >= xs[j]
  }

  ghost predicate NonDecreasing(xs: seq<nat>) {
    forall i, j | 0 <= i < j < |xs| :: xs[i] <= xs[j]
  }

  function Without<T>(xs: seq<T>, p: nat): seq<T>
    requires p < |xs|
  {
    xs[..p] + xs[p + 1..]
  }

  lemma Expand(n: nat, p: nat, a: nat, b: nat)
    requires n > 0 && p > 0
    ensures n * b == (n - 1) * b + b && n * a == (n - 1) * a + a && p * b == (p - 1) * b + b
  {
  }

  /** Moving a risk to the front gains its weight and costs each risk it passes one. */
  lemma {:induction false} MoveToFront(xs: seq<nat>, p: nat)
    requires p < |xs|
    ensures WeightedSum([xs[p]] + Without(xs, p)) + Sum(xs[..p]) == WeightedSum(xs) + p * xs[p]
  {
    var rest := Without(xs, p);
    assert ([xs[p]] + rest)[1..] == rest;
    if p == 0 {
      assert rest == xs[1..] && xs[..0] == [];
    } else {
      var tail := xs[1..];
      MoveToFront(tail, p - 1);
      assert rest == [xs[0]] + Without(tail, p - 1);
      assert rest[1..] == Without(tail, p - 1);
      assert ([tail[p - 1]] + Without(tail, p - 1))[1..] == Without(tail, p - 1);
      assert xs[..p] == [xs[0]] + tail[..p - 1] && xs[..p][1..] == tail[..p - 1];
      Expand(|xs|, p, xs[0], xs[p]);
    }
  }

  lemma {:induction false} SumBound(xs: seq<nat>, lo: nat, hi: nat)
    requires forall i | 0 <= i < |xs| :: lo <= xs[i] <= hi
    ensures |xs| * lo <= Sum(xs) <= |xs| * hi
  {
    if xs != [] {
      SumBound(xs[1..], lo, hi);
      Expand(|xs|, |xs|, lo, hi);
    }
  }

  lemma FindAndRemove<T>(xs: seq<T>, ys: seq<T>) returns (p: nat)
    requires ys != [] && multiset(xs) == multiset(ys)
    ensures p < |xs| && xs[p] == ys[0]
    ensures multiset(Without(xs, p)) == multiset(ys[1..])
  {
    assert ys[0] in multiset(ys);
    p :| 0 <= p < |xs| && xs[p] == ys[0];
    assert xs == xs[..p] + [xs[p]] + xs[p + 1..];
    assert ys == [ys[0]] + ys[1..];
    assert multiset(Without(xs, p)) == multiset(xs) - multiset{ys[0]};
  }

  /** Moving the greatest risk to the front gains, moving the least one there costs. */
  lemma FrontOrder(xs: seq<nat>, p: nat)
    requires p < |xs|
    ensures var moved := [xs[p]] + Without(xs, p);
      && (NonIncreasing(xs) ==> WeightedSum(moved) <= WeightedSum(xs))
      && (NonDecreasing(xs) ==> WeightedSum(xs) <= WeightedSum(moved))
  {
    hide WeightedSum, Sum;
    MoveToFront(xs, p);
    if NonIncreasing(xs) {
      SumBound(xs[..p], xs[p], xs[0]);
    }
    if NonDecreasing(xs) {
      SumBound(xs[..p], xs[0], xs[p]);
    }
  }

  lemma WeightedSumCons(x: nat, rest: seq<nat>)
    ensures WeightedSum([x] + rest) == (|rest| + 1) * x + WeightedSum(rest)
  {
    assert ([x] + rest)[1..] == rest;
  }

  /** Among all orders of the same risks, the score is greatest when they never increase from
      the most recent review back. */
  lemma {:induction false} WorstFirstIsGreatest(xs: seq<nat>, ys: seq<nat>)
    requires NonIncreasing(xs) && multiset(xs) == multiset(ys)
    ensures |xs| == |ys| && WeightedSum(ys) <= WeightedSum(xs)
    decreases |ys|
  {
    hide WeightedSum;
    assert |multiset(xs)| == |multiset(ys)|;
    if ys != [] {
      var p := FindAndRemove(xs, ys);
      var rest := Without(xs, p);
      WorstFirstIsGreatest(rest, ys[1..]);
      FrontOrder(xs, p);
      WeightedSumCons(xs[p], rest);
      WeightedSumCons(xs[p], ys[1..]);
      assert ys == [xs[p]] + ys[1..];
    }
  }

  /** And it is least in the reverse order. */
  lemma {:induction false} BestFirstIsLeast(xs: seq<nat>, ys: seq<nat>)
    requires NonDecreasing(xs) && multiset(xs) == multiset(ys)
    ensures |xs| == |ys| && WeightedSum(xs) <= WeightedSum(ys)
    decreases |ys|
  {
    hide WeightedSum;
    assert |multiset(xs)| == |multiset(ys)|;
    if ys != [] {
      var p := FindAndRemove(xs, ys);
      var rest := Without(xs, p);
      BestFirstIsLeast(rest, ys[1..]);
      FrontOrder(xs, p);
      WeightedSumCons(xs[p], rest);
      WeightedSumCons(xs[p], ys[1..]);
      assert ys == [xs[p]] + ys[1..];
    }
  }

  lemma RisksAppend(xs: seq<Review>, ys: seq<Review>)
    ensures Risks(xs + ys) == Risks(xs) + Risks(ys)
  {
    hide ReviewRisk;
  }

  /** Taking one review out of a history takes its risk out of the risks. */
  lemma RisksWithout(xs: seq<Review>, p: nat)
    requires p < |xs|
    ensures multiset(Risks(xs)) == multiset(Risks(Without(xs, p))) + multiset{ReviewRisk(xs[p])}
  {
    hide ReviewRisk;
    var a, b := xs[..p], xs[p + 1..];
    assert xs == a + ([xs[p]] + b);
    RisksAppend(a, [xs[p]] + b);
    RisksAppend([xs[p]], b);
    RisksAppend(a, b);
    assert Risks([xs[p]]) == [ReviewRisk(xs[p])];
  }

  lemma {:induction false} SameRisks(xs: seq<Review>, ys: seq<Review>)
    requires multiset(xs) == multiset(ys)
    ensures multiset(Risks(xs)) == multiset(Risks(ys))
    decreases |xs|
  {
    hide ReviewRisk, Risks;
    assert |multiset(xs)| == |multiset(ys)|;
    if xs == [] {
      assert ys == [];
    } else {
      var p := FindAndRemove(xs, ys);
      RisksWithout(xs, p);
      RisksWithout(ys, 0);
      assert Without(ys, 0) == ys[1..];
      SameRisks(Without(xs, p), ys[1..]);
    }
  }

  lemma LargerSum(a: nat, b: nat, d: nat)
    requires a <= b && d > 0
    ensures (a as real) / (d as real) <= (b as real) / (d as real)
  {
    Quotient(a as real, d as real, 0.0, (b as real) / (d as real));
  }

  /** No reordering of a history scores higher than the one with the worst reviews most recent,
      and none lower than the one with the worst reviews furthest back. */
  lemma RecentReviewsWeighMost(worst: seq<Review>, best: seq<Review>, history: seq<Review>)
    requires history != []
    requires multiset(worst) == multiset(history) == multiset(best)
    requires NonIncreasing(Risks(worst)) && NonDecreasing(Risks(best))
    ensures ComputeRiskScore(best).score <= ComputeRiskScore(history).score
    ensures ComputeRiskScore(history).score <= ComputeRiskScore(worst).score
  {
    SameRisks(worst, history);
    SameRisks(best, history);
    WorstFirstIsGreatest(Risks(worst), Risks(history));
    BestFirstIsLeast(Risks(best), Risks(history));
    hide Risks, WeightedSum, TotalWeight;
    var d := TotalWeight(|history|);
    TotalIsPositive(|history|);
    assert |multiset(worst)| == |multiset(history)| == |multiset(best)|;
    LargerSum(WeightedSum(Risks(history)), WeightedSum(Risks(worst)), d);
    LargerSum(WeightedSum(Risks(best)), WeightedSum(Risks(history)), d);
  }

  // ----- The trend -----

  lemma Ordered(x: real, y: real, area: real)
    requires area > 0.0
    ensures x < y <==> x * area < y * area
  {
    assert (y - x) * area == y * area - x * area;
    if x < y {
      assert (y - x) * area > 0.0;
    } else {
      assert (x - y) * area >= 0.0;
      assert (x - y) * area == x * area - y * area;
    }
  }

  lemma CrossMultiplied(a: real, m: real, b: real, k: real)
    requires m > 0.0 && k > 0.0
    ensures a / m < b / k - 5.0 <==> (a + 5.0 * m) * k < b * m
  {
    var p, q, area := a / m, b / k, m * k;
    assert a == p * m && b == q * k && area > 0.0;
    assert (a + 5.0 * m) * k == (p + 5.0) * area;
    assert b * m == q * area;
    Ordered(p + 5.0, q, area);
  }

  lemma InIntegers(a: nat, m: nat, b: nat, k: nat)
    requires m > 0 && k > 0
    ensures (a as real) / (m as real) < (b as real) / (k as real) - 5.0 <==> (a + 5 * m) * k < b * m
  {
    CrossMultiplied(a as real, m as real, b as real, k as real);
    AsReal(a + 5 * m, k);
    AsReal(b, m);
  }

  lemma AveragesApart(xs: seq<nat>, ys: seq<nat>)
    requires xs != [] && ys != []
    ensures Average(xs) < Average(ys) - 5.0 <==> (Sum(xs) + 5 * |xs|) * |ys| < Sum(ys) * |xs|
  {
    hide Sum;
    InIntegers(Sum(xs), |xs|, Sum(ys), |ys|);
  }

  /** The repository improves if the more recent half of the reviews, rounded down, averages more
      than 5 below the older half, and it gets worse if it averages more than 5 above. */
  lemma TrendExactlyWhen(history: seq<Review>)
    ensures |history| < 2 ==> ComputeTrend(history) == Stable
    ensures |history| >= 2 ==>
      var m := |history| / 2;
      var k := |history| - m;
      var recent, older := Sum(Risks(history[..m])), Sum(Risks(history[m..]));
      && (ComputeTrend(history) == Improving <==> (recent + 5 * m) * k < older * m)
      && (ComputeTrend(history) == Worsening <==> recent * k > (older + 5 * k) * m)
  {
    hide Sum, Risks, Average;
    if |history| >= 2 {
      var m := |history| / 2;
      AveragesApart(Risks(history[..m]), Risks(history[m..]));
      AveragesApart(Risks(history[m..]), Risks(history[..m]));
    }
  }

  // ----- The extremes of one review -----

  /** A review has no risk only if it completed without findings, and the full risk only if it did
      not complete and has four critical findings, or three and at least four others. */
  lemma ExtremeRisks(r: Review)
    ensures ReviewRisk(r) == 0 <==> r.completed && r.criticalCount == 0 && r.totalFindings == 0
    ensures ReviewRisk(r) == 100
      <==> !r.completed && (r.criticalCount >= 4 || (r.criticalCount == 3 && r.totalFindings >= 7))
  {
  }

  /** What one more finding that is not critical adds to a completed review without critical ones:
      3 up to the sixth, 2 for the seventh, and nothing from then on. */
  lemma OneMoreFinding(r: Review)
    requires r.completed && r.criticalCount == 0
    ensures ReviewRisk(r.(totalFindings := r.totalFindings + 1)) - ReviewRisk(r)
      == if r.totalFindings < 6 then 3 else if r.totalFindings == 6 then 2 else 0
  {
  }

  /** A count of findings below that of critical ones says that there are no others. */
  lemma NoOtherFindings(r: Review)
    requires r.totalFindings <= r.criticalCount
    ensures ReviewRisk(r) == ReviewRisk(r.(totalFindings := r.criticalCount))
  {
  }
}
