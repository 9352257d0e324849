/** The value of every number a hypothesis carries, stated from its counts and its supporting windows. */
module HypothesisValues {
  import opened Collections
  import opened TemporalEvents
  import EpisodeMiner
  import opened RealArithmetic
  import opened CandidateTally
  import opened EvidenceCollection
  import opened SupportTheorems
  import opened ScoreArithmetic
  import opened PatternScorer

  // ---------- Mean traces ----------

  function Traces(outcome: TemporalEvent, events: seq<TemporalEvent>, trace: int -> real): seq<real> {
    seq(|events|, i requires 0 <= i < |events| => trace(outcome.timestamp - events[i].timestamp))
  }

  /** The mean trace of one supporter, over the events it chose. */
  function TraceMean(outcome: TemporalEvent, events: seq<TemporalEvent>, trace: int -> real): real {
    if events == [] then 0.0 else Total(Traces(outcome, events, trace)) / |events| as real
  }

  function TraceMeans(supporters: Supporters, trace: int -> real): seq<real> {
    seq(|supporters|, i requires 0 <= i < |supporters| => TraceMean(supporters[i].0, supporters[i].1.events, trace))
  }

  lemma {:induction false} TraceSumIsTotal(outcome: TemporalEvent, events: seq<TemporalEvent>, trace: int -> real)
    ensures TraceSum(outcome, events, trace) == Total(Traces(outcome, events, trace))
  {
    if events != [] {
      var n := |events| - 1;
      TraceSumIsTotal(outcome, events[..n], trace);
      assert Traces(outcome, events, trace)[..n] == Traces(outcome, events[..n], trace);
    }
  }

  lemma TraceMeansSnoc(supporters: Supporters, outcome: TemporalEvent, e: EpisodeMiner.MinedEpisode,
                       trace: int -> real)
    ensures Total(TraceMeans(supporters + [(outcome, e)], trace)) ==
            Total(TraceMeans(supporters, trace)) + TraceMean(outcome, e.events, trace)
  {
    var all := supporters + [(outcome, e)];
    assert TraceMeans(all, trace)[..|supporters|] == TraceMeans(supporters, trace);
  }

  /** The accumulated weight is the sum of the mean traces of the supporters. */
  lemma {:induction false} TallyWeight(ws: seq<MinedWindow>, key: string, c: Curves)
    requires WellFormed(ws) && Tally(ws, key, c).Some?
    ensures Tally(ws, key, c).value.temporalWeight == Total(TraceMeans(Supporting(ws, key), c.trace))
  {
    var init, last := ws[..|ws| - 1], ws[|ws| - 1];
    assert last in ws;
    TallySummarizes(init, key, c);
    if Tally(init, key, c).Some? {
      TallyWeight(init, key, c);
    }
    var found := FindEpisode(last.episodes, key);
    if found.Some? {
      assert WellFormedEpisode(found.value);
      TraceSumIsTotal(last.outcome, found.value.events, c.trace);
      TraceMeansSnoc(Supporting(init, key), last.outcome, found.value, c.trace);
    }
  }

  // ---------- Rates and scores ----------

  /** The fraction of the windows with the sequence that precede the target outcome. */
  function TrueFraction(support: nat, negative: nat): real
    requires support > 0
  {
    support as real / (support + negative) as real
  }

  /** That fraction over the fraction of target outcomes among all, which counts as at least one millionth. */
  function TrueLift(support: nat, negative: nat, target: nat, all: nat): real
    requires support > 0 && all > 0
  {
    var base := target as real / all as real;
    TrueFraction(support, negative) / if base < 0.000001 then 0.000001 else base
  }

  /** Rate, baseline and lift, from the two counts and the numbers of target and of all outcomes. */
  ghost predicate RateValues(h: Hypothesis, target: nat, all: nat)
    requires h.supportCount > 0 && all > 0
  {
    && NearestMillionth(h.patternRate, TrueFraction(h.supportCount, h.negativeSupportCount))
    && NearestMillionth(h.baselineRate, target as real / all as real)
    && NearestMillionth(h.lift, TrueLift(h.supportCount, h.negativeSupportCount, target, all))
  }

  function AtMostOne(x: real): real {
    if x > 1.0 then 1.0 else x
  }

  /** The five factors; `weight` is the mean trace over the supporters, `lift` the lift before rounding. */
  ghost predicate FactorValues(s: ScoreComponents, weight: real, support: nat, rate: real, lift: real, minSupport: nat,
                               learningRate: real, log1p: real -> real)
    requires minSupport > 0 && log1p(2.0) > 0.0
  {
    && NearestMillionth(s.temporalWeight, AtMostOne(weight * (1.0 + learningRate)))
    && (support >= minSupport ==> s.supportFactor == 1.0)
    && (support < minSupport ==> NearestMillionth(s.supportFactor, support as real / minSupport as real))
    && NearestMillionth(s.liftFactor, AtMostOne(log1p(lift) / log1p(2.0)))
    && s.negativePenalty == rate
    && s.stabilityFactor == 1.0
  }

  /** The score is the rounded product of its factors. */
  ghost predicate ScoreValue(score: real, s: ScoreComponents) {
    NearestMillionth(score, s.temporalWeight * s.supportFactor * s.liftFactor * s.negativePenalty * s.stabilityFactor)
  }

  /** `h` is built from an accumulator. */
  ghost predicate BuiltFrom(h: Hypothesis, acc: Accumulator, negative: NegativeSupport,
                            counts: map<string, ComponentCount>, target: nat, all: nat, p: STDPParams, c: Curves)
  {
    && p.Valid() && |acc.supportWindows| > 0 && c.log1p(2.0) > 0.0 && 1 <= target <= all
    && h == HypothesisFor(acc, negative, counts, Baseline(target, all), p, c)
  }

  lemma RateValue(support: nat, negative: nat)
    requires support > 0
    ensures PatternRate(support, negative) == TrueFraction(support, negative) >= 0.0
  {
    RateInUnit(support, negative);
  }

  lemma LiftValue(support: nat, negative: nat, target: nat, all: nat)
    requires support > 0 && all > 0
    ensures Lift(PatternRate(support, negative), Baseline(target, all)) == TrueLift(support, negative, target, all)
    ensures TrueLift(support, negative, target, all) >= 0.0
  {
    RateValue(support, negative);
    DivLe(0.0, TrueFraction(support, negative), Max(0.000001, Baseline(target, all)));
  }

  lemma BuiltRates(h: Hypothesis, acc: Accumulator, negative: NegativeSupport, counts: map<string, ComponentCount>,
                   target: nat, all: nat, p: STDPParams, c: Curves)
    requires BuiltFrom(h, acc, negative, counts, target, all, p, c)
    ensures h.supportCount == |acc.supportWindows| && h.negativeSupportCount == negative.count
    ensures RateValues(h, target, all)
  {
    RateValue(h.supportCount, h.negativeSupportCount);
    LiftValue(h.supportCount, h.negativeSupportCount, target, all);
    RoundScoreNearest(PatternRate(h.supportCount, h.negativeSupportCount));
    RoundScoreNearest(Baseline(target, all));
    RoundScoreNearest(Lift(PatternRate(h.supportCount, h.negativeSupportCount), Baseline(target, all)));
  }

  lemma RatioAtLeastOne(x: nat, n: nat)
    requires n > 0
    ensures x >= n ==> x as real / n as real >= 1.0
    ensures x < n ==> x as real / n as real < 1.0
  {
    var q := x as real / n as real;
    assert (1.0 - q) * n as real == n as real - x as real;
    ProductSign(1.0 - q, n as real);
  }

  lemma RoundOne()
    ensures RoundScore(1.0) == 1.0
  {
    assert (1000000.5 as real).Floor == 1000000;
  }

  lemma WeightFactor(weight: real, learningRate: real)
    ensures NearestMillionth(RoundScore(Min(1.0, weight * (1.0 + learningRate))),
                             AtMostOne(weight * (1.0 + learningRate)))
  {
    RoundScoreNearest(AtMostOne(weight * (1.0 + learningRate)));
  }

  lemma SupportFactor(support: nat, minSupport: nat)
    requires minSupport > 0
    ensures var factor := RoundScore(Min(1.0, support as real / minSupport as real));
            && (support >= minSupport ==> factor == 1.0)
            && (support < minSupport ==> NearestMillionth(factor, support as real / minSupport as real))
  {
    RatioAtLeastOne(support, minSupport);
    RoundOne();
    RoundScoreNearest(support as real / minSupport as real);
  }

  lemma LiftFactor(lift: real, log1p: real -> real)
    requires lift >= 0.0 && log1p(2.0) > 0.0
    ensures NearestMillionth(RoundScore(Min(1.0, log1p(Max(0.0, lift)) / log1p(2.0))),
                             AtMostOne(log1p(lift) / log1p(2.0)))
  {
    RoundScoreNearest(AtMostOne(log1p(lift) / log1p(2.0)));
  }

  lemma ComponentValues(weight: real, support: nat, negative: nat, lift: real, minSupport: nat, learningRate: real,
                        log1p: real -> real)
    requires minSupport > 0 && log1p(2.0) > 0.0 && lift >= 0.0
    ensures var s := Components(weight, support, negative, lift, minSupport, learningRate, log1p);
            && FactorValues(s, weight, support, RoundScore(PatternRate(support, negative)), lift, minSupport,
                            learningRate, log1p)
            && ScoreValue(PatternScore(s), s)
  {
    WeightFactor(weight, learningRate);
    SupportFactor(support, minSupport);
    LiftFactor(lift, log1p);
    RoundScoreNearest(Product(Components(weight, support, negative, lift, minSupport, learningRate, log1p)));
  }

  lemma BuiltScores(h: Hypothesis, acc: Accumulator, negative: NegativeSupport, counts: map<string, ComponentCount>,
                    target: nat, all: nat, p: STDPParams, c: Curves)
    requires BuiltFrom(h, acc, negative, counts, target, all, p, c)
    ensures h.supportCount == |acc.supportWindows|
    ensures FactorValues(h.components, acc.temporalWeight / h.supportCount as real, h.supportCount, h.patternRate,
                         TrueLift(h.supportCount, h.negativeSupportCount, target, all), p.minSupport, p.learningRate,
                         c.log1p)
    ensures ScoreValue(h.patternScore, h.components)
  {
    LiftValue(h.supportCount, h.negativeSupportCount, target, all);
    ComponentValues(acc.temporalWeight / h.supportCount as real, h.supportCount, h.negativeSupportCount,
                    TrueLift(h.supportCount, h.negativeSupportCount, target, all), p.minSupport, p.learningRate,
                    c.log1p);
  }

  // ---------- Deltas and lead times ----------

  /** The deltas from step `k` of every supporter to its outcome. */
  ghost predicate Column(values: seq<int>, supporters: Supporters, k: nat) {
    && |values| == |supporters|
    && forall i :: 0 <= i < |values| ==>
         k < |supporters[i].1.events|
         && values[i] == supporters[i].0.timestamp - supporters[i].1.events[k].timestamp
  }

  /** `v` stands at place `k` of the values in ascending order. */
  ghost predicate RankedAt(values: seq<int>, k: nat, v: int) {
    exists t :: Ranks(t, values, k, v)
  }

  ghost predicate Ranks(t: seq<int>, values: seq<int>, k: nat, v: int) {
    Permutation(t, values) && (forall i, j :: 0 <= i < j < |t| ==> t[i] <= t[j]) && k < |t| && t[k] == v
  }

  /** Mean, median and 95th percentile of the values: the percentiles are the values at `floor((n - 1) / 2)` and
      `floor((n - 1) * 0.95)` in ascending order. */
  ghost predicate StatsOf(stats: LeadStats, values: seq<int>) {
    && values != []
    && NearestMean(stats.avg, Sum(values), |values|)
    && RankedAt(values, (|values| - 1) / 2, stats.p50)
    && RankedAt(values, (|values| - 1) * 95 / 100, stats.p95)
  }

  ghost predicate LeadValues(stats: Option<LeadStats>, supporters: Supporters) {
    stats.Some? && exists leads :: Column(leads, supporters, 0) && StatsOf(stats.value, leads)
  }

  /** Every average delta is the mean of its column. */
  ghost predicate DeltaValues(averages: seq<int>, supporters: Supporters) {
    forall k :: 0 <= k < |averages| ==> MeanOfColumn(averages[k], supporters, k)
  }

  ghost predicate MeanOfColumn(average: int, supporters: Supporters, k: nat) {
    exists column :: Column(column, supporters, k) && NearestMean(average, Sum(column), |supporters|)
  }

  lemma SortRanks(values: seq<int>, k: nat)
    requires k < |values|
    ensures RankedAt(values, k, SortBy(values, IntLeq)[k])
  {
    var t := SortBy(values, IntLeq);
    SortBySorted(values, IntLeq);
    forall i, j | 0 <= i < j < |t| ensures t[i] <= t[j] {
      assert IntLeq(t[i], t[j]);
    }
    assert Ranks(t, values, k, t[k]);
  }

  lemma PercentilePlaces(n: nat)
    requires n > 0
    ensures 0 <= (n - 1) / 2 < n && 0 <= (n - 1) * 95 / 100 < n
  {
  }

  lemma StatsValues(values: seq<int>)
    requires values != []
    ensures LeadTimeStats(values).Some? && StatsOf(LeadTimeStats(values).value, values)
  {
    var n := |values|;
    SumSorted(values);
    PercentilePlaces(n);
    RoundedMeanNearest(Sum(values), n);
    SortRanks(values, (n - 1) / 2);
    SortRanks(values, (n - 1) * 95 / 100);
  }

  lemma ColumnSnoc(front: seq<int>, supporters: Supporters, n: nat, k: nat, delta: int)
    requires n + 1 == |supporters| && Column(front, supporters[..n], k)
    requires k < |supporters[n].1.events| && delta == supporters[n].0.timestamp - supporters[n].1.events[k].timestamp
    ensures Column(front + [delta], supporters, k)
  {
  }

  lemma SumSnoc(front: seq<int>, last: int)
    ensures Sum(front + [last]) == Sum(front) + last
  {
    assert (front + [last])[..|front|] == front;
  }

  lemma {:induction false} ColumnSum(supporters: Supporters, length: nat, windowMs: int, k: nat)
    returns (column: seq<int>)
    requires SupportersInside(supporters, length, windowMs) && k < length
    ensures Column(column, supporters, k) && Sum(column) == DeltaSum(supporters, k)
    ensures k == 0 ==> column == LeadTimes(supporters)
  {
    if supporters == [] {
      column := [];
    } else {
      var n := |supporters| - 1;
      assert supporters[n] in supporters;
      var front := ColumnSum(supporters[..n], length, windowMs, k);
      var delta := Delta(supporters[n].0, supporters[n].1.events[k]);
      ColumnSnoc(front, supporters, n, k, delta);
      SumSnoc(front, delta);
      column := front + [delta];
    }
  }

  lemma LeadsOfSummary(acc: Accumulator, s: Supporters, windowMs: int)
    requires Summarizes(acc, s) && s != [] && acc.sequence != [] && SupportersInside(s, |acc.sequence|, windowMs)
    ensures LeadValues(LeadTimeStats(acc.leadTimes), s)
  {
    var leads := ColumnSum(s, |acc.sequence|, windowMs, 0);
    StatsValues(leads);
  }

  lemma DeltasOfSummary(acc: Accumulator, s: Supporters, windowMs: int)
    requires Summarizes(acc, s) && s != [] && SupportersInside(s, |acc.sequence|, windowMs)
    ensures DeltaValues(AverageDeltas(acc, |s|), s)
  {
    var averages := AverageDeltas(acc, |s|);
    forall k | 0 <= k < |averages|
      ensures MeanOfColumn(averages[k], s, k)
    {
      var column := ColumnSum(s, |acc.sequence|, windowMs, k);
      RoundedMeanNearest(Sum(column), |s|);
    }
  }

  // ---------- All numbers ----------

  /** Rates, factors, score and times of a hypothesis with these supporters. */
  ghost predicate Measures(h: Hypothesis, supporters: Supporters, target: nat, all: nat, p: STDPParams, c: Curves)
    requires p.Valid() && c.log1p(2.0) > 0.0
  {
    && h.supportCount == |supporters| > 0 && all > 0
    && RateValues(h, target, all)
    && FactorValues(h.components, Total(TraceMeans(supporters, c.trace)) / |supporters| as real, h.supportCount,
                    h.patternRate, TrueLift(h.supportCount, h.negativeSupportCount, target, all), p.minSupport,
                    p.learningRate, c.log1p)
    && ScoreValue(h.patternScore, h.components)
    && LeadValues(h.leadTimes, supporters)
    && |h.averageDeltas| == |h.sequence| && DeltaValues(h.averageDeltas, supporters)
  }

  lemma MeasuresOfSummary(h: Hypothesis, acc: Accumulator, supporters: Supporters, negative: NegativeSupport,
                          counts: map<string, ComponentCount>, target: nat, all: nat, p: STDPParams, c: Curves)
    requires BuiltFrom(h, acc, negative, counts, target, all, p, c) && Summarizes(acc, supporters)
    requires |supporters| == |acc.supportWindows| && acc.sequence != []
    requires SupportersInside(supporters, |acc.sequence|, p.patternWindowMs)
    requires acc.temporalWeight == Total(TraceMeans(supporters, c.trace))
    ensures Measures(h, supporters, target, all, p, c)
  {
    BuiltRates(h, acc, negative, counts, target, all, p, c);
    BuiltScores(h, acc, negative, counts, target, all, p, c);
    LeadsOfSummary(acc, supporters, p.patternWindowMs);
    DeltasOfSummary(acc, supporters, p.patternWindowMs);
  }
}
