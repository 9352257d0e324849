/** What holds of every hypothesis the learner reports. */
module HypothesisTheorems {
  import opened Collections
  import opened TemporalEvents
  import EpisodeChoices
  import EpisodeMiner
  import NegativeEvidence
  import opened OutcomeWindows
  import opened CandidateTally
  import opened EvidenceCollection
  import opened SupportTheorems
  import opened PatternRates
  import opened ScoreArithmetic
  import opened PatternScorer

  // ---------- Which hypotheses are reported ----------

  /** A reported hypothesis is the hypothesis of some key. */
  lemma {:induction false} MaterializedOrigin(order: seq<string>, ws: seq<MinedWindow>, others: seq<Window>,
                                              counts: map<string, ComponentCount>, baseline: real, p: STDPParams,
                                              c: Curves, h: Hypothesis) returns (key: string)
    requires p.Valid() && c.log1p(2.0) > 0.0 && WellFormed(ws)
    requires forall k :: k in order ==> Tally(ws, k, c).Some?
    requires h in Materialized(order, ws, others, counts, baseline, p, c)
    ensures key in order && Tally(ws, key, c).Some? && Reported(h, p)
    ensures h == HypothesisOfKey(key, ws, others, counts, baseline, p, c)
  {
    var n := |order| - 1;
    key := order[n];
    if h in Materialized(order[..n], ws, others, counts, baseline, p, c) {
      key := MaterializedOrigin(order[..n], ws, others, counts, baseline, p, c, h);
    }
  }

  lemma MaterializedSnoc(order: seq<string>, ws: seq<MinedWindow>, others: seq<Window>,
                         counts: map<string, ComponentCount>, baseline: real, p: STDPParams, c: Curves)
    requires p.Valid() && c.log1p(2.0) > 0.0 && WellFormed(ws)
    requires order != [] && forall k :: k in order ==> Tally(ws, k, c).Some?
    ensures var front, last := order[..|order| - 1], order[|order| - 1];
            var h := HypothesisOfKey(last, ws, others, counts, baseline, p, c);
            && Materialized(front, ws, others, counts, baseline, p, c)
               <= Materialized(order, ws, others, counts, baseline, p, c)
            && (Reported(h, p) ==> h in Materialized(order, ws, others, counts, baseline, p, c))
  {
  }

  /** A key whose hypothesis passes both thresholds is reported. */
  lemma {:induction false} MaterializedReports(order: seq<string>, ws: seq<MinedWindow>, others: seq<Window>,
                                               counts: map<string, ComponentCount>, baseline: real, p: STDPParams,
                                               c: Curves, key: string)
    requires p.Valid() && c.log1p(2.0) > 0.0 && WellFormed(ws)
    requires forall k :: k in order ==> Tally(ws, k, c).Some?
    requires key in order && Reported(HypothesisOfKey(key, ws, others, counts, baseline, p, c), p)
    ensures HypothesisOfKey(key, ws, others, counts, baseline, p, c)
         in Materialized(order, ws, others, counts, baseline, p, c)
  {
    var n := |order| - 1;
    var front, last := order[..n], order[n];
    MaterializedSnoc(order, ws, others, counts, baseline, p, c);
    if last != key {
      assert key in front;
      MaterializedReports(front, ws, others, counts, baseline, p, c, key);
    }
  }

  lemma {:induction false} AppendNewMembers(order: seq<string>, episodes: seq<EpisodeMiner.MinedEpisode>, key: string)
    ensures key in AppendNew(order, episodes) <==> key in order || FindEpisode(episodes, key).Some?
  {
    if episodes != [] {
      var n := |episodes| - 1;
      AppendNewMembers(order, episodes[..n], key);
      FindEpisodeSnoc(episodes[..n], episodes[n], key);
      assert episodes == episodes[..n] + [episodes[n]];
    }
  }

  lemma {:induction false} KeyOrderMembers(ws: seq<MinedWindow>, key: string, c: Curves)
    requires WellFormed(ws)
    ensures key in KeyOrder(ws) <==> Tally(ws, key, c).Some?
  {
    if ws != [] {
      var n := |ws| - 1;
      assert ws[n] in ws;
      KeyOrderMembers(ws[..n], key, c);
      AppendNewMembers(KeyOrder(ws[..n]), ws[n].episodes, key);
    }
  }

  /** The component counts are determined by the windows. */
  lemma CountsUnique(a: map<string, ComponentCount>, b: map<string, ComponentCount>,
                     windows: seq<Window>, others: seq<Window>, others': seq<Window>)
    requires Counted(a, windows, others) && Counted(b, windows, others')
    requires forall s :: CountWindows(others, Occurring(s)) == CountWindows(others', Occurring(s))
    ensures a == b
  {
    forall s ensures CountOf(a, s) == CountOf(b, s) && (s in a <==> s in b) {
      assert CountOf(a, s) == ComponentCount(CountWindows(windows, Occurring(s)), CountWindows(others, Occurring(s)));
      assert CountOf(b, s) == ComponentCount(CountWindows(windows, Occurring(s)), CountWindows(others', Occurring(s)));
    }
    assert a.Keys == b.Keys;
    forall s | s in a ensures a[s] == b[s] {
      assert CountOf(a, s) == CountOf(b, s);
    }
  }

  /** The data a hypothesis of `Learned` comes from. */
  ghost predicate ComesFrom(h: Hypothesis, events: seq<TemporalEvent>, status: string, p: STDPParams, c: Curves,
                            key: string, counts: map<string, ComponentCount>)
    requires p.Valid() && LearningCurves(c)
  {
    var windows := TargetWindows(events, status, p.patternWindowMs);
    var others := OtherWindows(events, status, p.patternWindowMs);
    var ws := MineAll(p, windows);
    var comparable := |Filter(events, IsOutcome)|;
    && 1 <= |windows| <= comparable && WellFormed(ws) && Tally(ws, key, c).Some?
    && Counted(counts, windows, others)
    && h == HypothesisOfKey(key, ws, others, counts, Baseline(|windows|, comparable), p, c)
  }

  lemma HypothesisOrigin(events: seq<TemporalEvent>, status: string, p: STDPParams, c: Curves, hs: seq<Hypothesis>,
                         h: Hypothesis) returns (key: string, counts: map<string, ComponentCount>)
    requires p.Valid() && LearningCurves(c) && Learned(events, status, p, c, hs) && h in hs
    ensures ComesFrom(h, events, status, p, c, key, counts) && Reported(h, p)
  {
    var windows := TargetWindows(events, status, p.patternWindowMs);
    var others := OtherWindows(events, status, p.patternWindowMs);
    var ws := MineAll(p, windows);
    var comparable := |Filter(events, IsOutcome)|;
    var baseline := Baseline(|windows|, comparable);
    TargetWindowsComparable(events, status, p.patternWindowMs);
    counts :| Counted(counts, windows, others) && hs == Materialized(KeyOrder(ws), ws, others, counts, baseline, p, c);
    key := MaterializedOrigin(KeyOrder(ws), ws, others, counts, baseline, p, c, h);
  }

  /** The fields of a reported hypothesis, read off the tally of its key. */
  ghost predicate Facts(h: Hypothesis, events: seq<TemporalEvent>, status: string, p: STDPParams, c: Curves,
                        key: string, counts: map<string, ComponentCount>)
    requires p.Valid()
  {
    var windows := TargetWindows(events, status, p.patternWindowMs);
    var others := OtherWindows(events, status, p.patternWindowMs);
    var ws := MineAll(p, windows);
    && WellFormed(ws) && Tally(ws, key, c).Some?
    && h.sequence == Tally(ws, key, c).value.sequence == Split(key, UNIT_SEPARATOR)
    && h.sequence != [] && EpisodeChoices.SequenceKey(h.sequence) == key
    && (forall i :: 0 <= i < |h.sequence| ==> PlainSignature(h.sequence[i]))
    && h.supportCount == SupportCount(ws, key, c) == |Supporting(ws, key)| > 0
    && h.averageDeltas == AverageDeltas(Tally(ws, key, c).value, h.supportCount)
    && h.leadTimes == LeadTimeStats(Tally(ws, key, c).value.leadTimes)
    && h.negativeSupportCount == NegativesFor(others, h.sequence, p.Lim()).count
    && h.patternRate == RoundScore(PatternRate(h.supportCount, h.negativeSupportCount))
    && Counted(counts, windows, others)
    && h.overBestComponent ==
       OverBestComponent(h.sequence, counts, PatternRate(h.supportCount, h.negativeSupportCount))
  }

  lemma HypothesisFacts(events: seq<TemporalEvent>, status: string, p: STDPParams, c: Curves, hs: seq<Hypothesis>,
                        h: Hypothesis) returns (key: string, counts: map<string, ComponentCount>)
    requires p.Valid() && LearningCurves(c) && DistinctIds(events) && PlainSignatures(events)
    requires Learned(events, status, p, c, hs) && h in hs
    ensures Facts(h, events, status, p, c, key, counts)
  {
    key, counts := HypothesisOrigin(events, status, p, c, hs, h);
    FactsOfOrigin(events, status, p, c, h, key, counts);
  }

  lemma FactsOfOrigin(events: seq<TemporalEvent>, status: string, p: STDPParams, c: Curves, h: Hypothesis,
                      key: string, counts: map<string, ComponentCount>)
    requires p.Valid() && LearningCurves(c) && DistinctIds(events) && PlainSignatures(events)
    requires ComesFrom(h, events, status, p, c, key, counts)
    ensures Facts(h, events, status, p, c, key, counts)
  {
    var ws := MineAll(p, TargetWindows(events, status, p.patternWindowMs));
    TargetWindowsShape(events, status, p);
    HypothesisSequence(ws, key, c);
    TallyShape(ws, key, c);
    TallySupported(ws, key, c);
    SupportCountIsSupporters(ws, key, c);
  }

  // ---------- Counts ----------

  /** The sequence of a hypothesis is plain, non-empty and no longer than `maxSteps`. */
  lemma HypothesisSequence(ws: seq<MinedWindow>, key: string, c: Curves)
    requires WellFormed(ws) && Tally(ws, key, c).Some?
    ensures var s := Tally(ws, key, c).value.sequence;
            && s != [] && EpisodeChoices.SequenceKey(s) == key
            && forall i :: 0 <= i < |s| ==> PlainSignature(s[i])
  {
    TallyShape(ws, key, c);
    JoinSplit(key, UNIT_SEPARATOR);
    SplitPartsPlain(key);
  }

  lemma {:induction false} SplitPartsPlain(s: string)
    ensures forall i :: 0 <= i < |Split(s, UNIT_SEPARATOR)| ==> PlainSignature(Split(s, UNIT_SEPARATOR)[i])
  {
    if s != "" {
      SplitPartsPlain(s[1..]);
    }
  }

  /** Every reported hypothesis: its support count never exceeds the number of target outcomes its sequence precedes,
      its negative count that of other outcomes. Uncapped the first is equal, and when moreover the gap cannot bind in a
      window its pattern rate is the fraction of target outcomes among all comparable outcomes its sequence precedes. */
  lemma ReportedRateIsTrue(events: seq<TemporalEvent>, status: string, p: STDPParams, c: Curves, hs: seq<Hypothesis>,
                           h: Hypothesis)
    requires p.Valid() && LearningCurves(c) && DistinctIds(events) && PlainSignatures(events)
    requires Learned(events, status, p, c, hs) && h in hs
    ensures 1 <= |h.sequence| <= p.maxSteps && TrueCounts(h, events, status, p) && TrueRate(h, events, status, p)
  {
    var key, counts := HypothesisFacts(events, status, p, c, hs, h);
    RateOfFacts(events, status, p, c, h, key, counts);
  }

  lemma RateOfFacts(events: seq<TemporalEvent>, status: string, p: STDPParams, c: Curves, h: Hypothesis, key: string,
                    counts: map<string, ComponentCount>)
    requires p.Valid() && DistinctIds(events) && PlainSignatures(events) && Facts(h, events, status, p, c, key, counts)
    ensures 1 <= |h.sequence| <= p.maxSteps && TrueCounts(h, events, status, p) && TrueRate(h, events, status, p)
  {
    LengthOfFacts(events, status, p, c, h, key, counts);
    RateOfCounts(events, status, p, c, h);
    RateFromCounts(events, status, p, h);
  }

  lemma LengthOfFacts(events: seq<TemporalEvent>, status: string, p: STDPParams, c: Curves, h: Hypothesis, key: string,
                      counts: map<string, ComponentCount>)
    requires p.Valid() && DistinctIds(events) && PlainSignatures(events) && Facts(h, events, status, p, c, key, counts)
    ensures 1 <= |h.sequence| <= p.maxSteps
  {
    TargetWindowsShape(events, status, p);
    var windows := TargetWindows(events, status, p.patternWindowMs);
    SupportersAreInside(p, windows, SortStable(events), p.patternWindowMs, key);
  }

  lemma RateFromCounts(events: seq<TemporalEvent>, status: string, p: STDPParams, h: Hypothesis)
    requires p.Valid() && TrueCounts(h, events, status, p) && h.supportCount > 0
    requires h.patternRate == RoundScore(PatternRate(h.supportCount, h.negativeSupportCount))
    ensures TrueRate(h, events, status, p)
  {
    var w := p.patternWindowMs;
    var all := CountOutcomes(events, IsOutcome, w, Embedding(h.sequence, p.Lim()));
    if h.supportCount + h.negativeSupportCount == all {
      RateIsFraction(h.supportCount, h.negativeSupportCount, all);
    }
  }

  /** How the two counts of a hypothesis relate to the raw events. */
  ghost predicate TrueCounts(h: Hypothesis, events: seq<TemporalEvent>, status: string, p: STDPParams)
    requires p.Valid()
  {
    var w, truth := p.patternWindowMs, Embedding(h.sequence, p.Lim());
    var target := CountOutcomes(events, HasStatus(status), w, truth);
    var other := CountOutcomes(events, HasOtherStatus(status), w, truth);
    && CountOutcomes(events, IsOutcome, w, truth) == target + other
    && h.supportCount <= target && h.negativeSupportCount <= other
    && (Uncapped(p, TargetWindows(events, status, w)) ==> h.supportCount == target)
    && (NegativeEvidence.GapCannotBind(p.Lim(), w) || |h.sequence| <= 2 ==> h.negativeSupportCount == other)
  }

  /** Uncapped, and when the gap cannot bind or the sequence is short, the rate is the true fraction. */
  ghost predicate TrueRate(h: Hypothesis, events: seq<TemporalEvent>, status: string, p: STDPParams)
    requires p.Valid()
  {
    var w, truth := p.patternWindowMs, Embedding(h.sequence, p.Lim());
    var target, all := CountOutcomes(events, HasStatus(status), w, truth), CountOutcomes(events, IsOutcome, w, truth);
    Uncapped(p, TargetWindows(events, status, w)) &&
    (NegativeEvidence.GapCannotBind(p.Lim(), w) || |h.sequence| <= 2) ==>
      all > 0 && h.patternRate == RoundScore(target as real / all as real)
  }

  lemma RateOfCounts(events: seq<TemporalEvent>, status: string, p: STDPParams, c: Curves, h: Hypothesis)
    requires p.Valid() && DistinctIds(events) && PlainSignatures(events)
    requires 1 <= |h.sequence| <= p.maxSteps && forall i :: 0 <= i < |h.sequence| ==> PlainSignature(h.sequence[i])
    requires WellFormed(MineAll(p, TargetWindows(events, status, p.patternWindowMs)))
    requires h.supportCount ==
             SupportCount(MineAll(p, TargetWindows(events, status, p.patternWindowMs)),
                          EpisodeChoices.SequenceKey(h.sequence), c)
    requires h.negativeSupportCount ==
             NegativesFor(OtherWindows(events, status, p.patternWindowMs), h.sequence, p.Lim()).count
    ensures TrueCounts(h, events, status, p)
  {
    RateMeaning(events, status, p, h.sequence, c);
  }

  // ---------- Deltas and lead times ----------

  /** The deltas of a hypothesis never grow from step to step and lie in the window; the average lead time is the
      delta of the first step, and the median is at most the 95th percentile. */
  lemma ReportedDeltas(events: seq<TemporalEvent>, status: string, p: STDPParams, c: Curves, hs: seq<Hypothesis>,
                       h: Hypothesis)
    requires p.Valid() && LearningCurves(c) && DistinctIds(events) && PlainSignatures(events)
    requires Learned(events, status, p, c, hs) && h in hs
    ensures |h.averageDeltas| == |h.sequence| > 0
    ensures forall i, j :: 0 <= i <= j < |h.averageDeltas| ==>
              0 <= h.averageDeltas[j] <= h.averageDeltas[i] <= p.patternWindowMs
    ensures h.leadTimes.Some? && h.leadTimes.value.avg == h.averageDeltas[0]
    ensures h.leadTimes.value.p50 <= h.leadTimes.value.p95
  {
    var key, counts := HypothesisFacts(events, status, p, c, hs, h);
    DeltasOfFacts(events, status, p, c, h, key, counts);
  }

  ghost predicate FallWithin(deltas: seq<int>, windowMs: int) {
    forall i, j :: 0 <= i <= j < |deltas| ==> 0 <= deltas[j] <= deltas[i] <= windowMs
  }

  lemma DeltasOfFacts(events: seq<TemporalEvent>, status: string, p: STDPParams, c: Curves, h: Hypothesis, key: string,
                      counts: map<string, ComponentCount>)
    requires p.Valid() && DistinctIds(events) && PlainSignatures(events) && Facts(h, events, status, p, c, key, counts)
    ensures |h.averageDeltas| == |h.sequence| > 0 && FallWithin(h.averageDeltas, p.patternWindowMs)
    ensures h.leadTimes.Some? && h.leadTimes.value.avg == h.averageDeltas[0]
    ensures h.leadTimes.value.p50 <= h.leadTimes.value.p95
  {
    var ws := MineAll(p, TargetWindows(events, status, p.patternWindowMs));
    KeyIsInside(events, status, p, key);
    DeltasOfTally(ws, key, c, p.patternWindowMs);
    LeadTimesOfTally(ws, key, c, p.patternWindowMs);
  }

  lemma KeyIsInside(events: seq<TemporalEvent>, status: string, p: STDPParams, key: string)
    requires p.Valid() && DistinctIds(events) && PlainSignatures(events)
    ensures SupportersInside(Supporting(MineAll(p, TargetWindows(events, status, p.patternWindowMs)), key),
                             |Split(key, UNIT_SEPARATOR)|, p.patternWindowMs)
  {
    TargetWindowsShape(events, status, p);
    SupportersAreInside(p, TargetWindows(events, status, p.patternWindowMs), SortStable(events), p.patternWindowMs,
                        key);
  }

  lemma DeltasOfTally(ws: seq<MinedWindow>, key: string, c: Curves, windowMs: nat)
    requires WellFormed(ws) && Tally(ws, key, c).Some?
    requires SupportersInside(Supporting(ws, key), |Split(key, UNIT_SEPARATOR)|, windowMs)
    ensures |Supporting(ws, key)| > 0
    ensures var acc := Tally(ws, key, c).value;
            var avg := AverageDeltas(acc, |Supporting(ws, key)|);
            && |avg| == |acc.sequence| > 0 && FallWithin(avg, windowMs)
  {
    var acc, s := Tally(ws, key, c).value, Supporting(ws, key);
    TallyShape(ws, key, c);
    TallySummarizes(ws, key, c);
    var avg := AverageDeltas(acc, |s|);
    forall i, j | 0 <= i <= j < |avg| ensures 0 <= avg[j] <= avg[i] <= windowMs {
      AverageDeltasMonotone(ws, key, c, windowMs, i, j);
    }
  }

  lemma LeadTimesOfTally(ws: seq<MinedWindow>, key: string, c: Curves, windowMs: nat)
    requires WellFormed(ws) && Tally(ws, key, c).Some?
    requires SupportersInside(Supporting(ws, key), |Split(key, UNIT_SEPARATOR)|, windowMs)
    ensures |Supporting(ws, key)| > 0 && |Tally(ws, key, c).value.deltaByStep| > 0
    ensures var stats := LeadTimeStats(Tally(ws, key, c).value.leadTimes);
            && stats.Some? && stats.value.p50 <= stats.value.p95
            && stats.value.avg == AverageDeltas(Tally(ws, key, c).value, |Supporting(ws, key)|)[0]
  {
    var acc, s := Tally(ws, key, c).value, Supporting(ws, key);
    TallyShape(ws, key, c);
    TallySummarizes(ws, key, c);
    LeadTimesSum(s, |acc.sequence|, windowMs);
    LeadTimeStatsOrdered(acc.leadTimes);
  }

  // ---------- Scores ----------

  /** Every score component, the score and the baseline lie in the unit interval. */
  lemma ReportedScores(events: seq<TemporalEvent>, status: string, p: STDPParams, c: Curves, hs: seq<Hypothesis>,
                       h: Hypothesis)
    requires p.Valid() && LearningCurves(c) && DistinctIds(events) && PlainSignatures(events)
    requires Learned(events, status, p, c, hs) && h in hs
    ensures InUnit(h.components) && 0.0 <= h.patternScore <= 1.0
    ensures 0.0 <= h.baselineRate <= 1.0 && 0.0 <= h.patternRate <= 1.0
  {
    var key, counts := HypothesisOrigin(events, status, p, c, hs, h);
    var windows := TargetWindows(events, status, p.patternWindowMs);
    var others := OtherWindows(events, status, p.patternWindowMs);
    var ws := MineAll(p, windows);
    var comparable := |Filter(events, IsOutcome)|;
    var acc := Tally(ws, key, c).value;
    TargetWindowsShape(events, status, p);
    TallySupported(ws, key, c);
    SupportersAreInside(p, windows, SortStable(events), p.patternWindowMs, key);
    SupportCountIsSupporters(ws, key, c);
    TallyWeightBounds(ws, key, c, |Split(key, UNIT_SEPARATOR)|, p.patternWindowMs);
    RatioBounds(acc.temporalWeight, |acc.supportWindows| as real);
    var negative := NegativesFor(others, acc.sequence, p.Lim()).count;
    var support := |acc.supportWindows|;
    var baseline := Baseline(|windows|, comparable);
    ScoreInUnit(acc.temporalWeight / support as real, support, negative, Lift(PatternRate(support, negative), baseline),
                p.minSupport, p.learningRate, c.log1p);
    BaselineInUnit(|windows|, comparable);
    RoundScoreUnit(baseline);
    RateInUnit(support, negative);
    RoundScoreUnit(PatternRate(support, negative));
  }

  // ---------- Singletons ----------

  lemma BestOfSingleton(signature: string, counts: map<string, ComponentCount>)
    requires signature in counts
    ensures BestComponent([signature], counts) == Some(EvidenceFor(counts, signature))
  {
    var row := EvidenceFor(counts, signature);
    assert [signature][1..] == [];
    assert KnownComponents([signature][1..], counts) == [];
    assert KnownComponents([signature], counts) == [row];
    assert [row][1..] == [];
    assert SortBy([row], BetterComponent) == [row];
  }

  /** Uncapped, a single-signature hypothesis has exactly the rate of its component: its lift over it is zero. */
  lemma SingletonHasNoLift(events: seq<TemporalEvent>, status: string, p: STDPParams, c: Curves, hs: seq<Hypothesis>,
                           h: Hypothesis)
    requires p.Valid() && LearningCurves(c) && DistinctIds(events) && PlainSignatures(events)
    requires Uncapped(p, TargetWindows(events, status, p.patternWindowMs))
    requires Learned(events, status, p, c, hs) && h in hs && |h.sequence| == 1
    ensures h.overBestComponent == Some((h.sequence[0], 0.0))
  {
    var key, counts := HypothesisFacts(events, status, p, c, hs, h);
    NoLiftOfFacts(events, status, p, c, h, key, counts);
  }

  lemma NoLiftOfFacts(events: seq<TemporalEvent>, status: string, p: STDPParams, c: Curves, h: Hypothesis, key: string,
                      counts: map<string, ComponentCount>)
    requires p.Valid() && DistinctIds(events) && PlainSignatures(events) && Facts(h, events, status, p, c, key, counts)
    requires Uncapped(p, TargetWindows(events, status, p.patternWindowMs)) && |h.sequence| == 1
    ensures h.overBestComponent == Some((h.sequence[0], 0.0))
  {
    TargetWindowsShape(events, status, p);
    NoLiftFromCounts(TargetWindows(events, status, p.patternWindowMs), OtherWindows(events, status, p.patternWindowMs),
                     p, counts, h);
  }

  lemma NoLiftFromCounts(windows: seq<Window>, others: seq<Window>, p: STDPParams, counts: map<string, ComponentCount>,
                         h: Hypothesis)
    requires p.Valid() && PlainWindows(windows) && Uncapped(p, windows) && Counted(counts, windows, others)
    requires |h.sequence| == 1 && PlainSignature(h.sequence[0])
    requires h.supportCount == |Supporting(MineAll(p, windows), EpisodeChoices.SequenceKey(h.sequence))| > 0
    requires h.negativeSupportCount == NegativesFor(others, h.sequence, p.Lim()).count
    requires h.overBestComponent ==
             OverBestComponent(h.sequence, counts, PatternRate(h.supportCount, h.negativeSupportCount))
    ensures h.overBestComponent == Some((h.sequence[0], 0.0))
  {
    assert h.sequence == [h.sequence[0]];
    SingletonCounts(p, windows, others, h.sequence[0]);
    SingletonOverBest(h.sequence[0], counts, windows, others, h.supportCount, h.negativeSupportCount);
  }

  lemma SingletonOverBest(signature: string, counts: map<string, ComponentCount>, windows: seq<Window>,
                          others: seq<Window>, support: nat, negative: nat)
    requires Counted(counts, windows, others) && support > 0
    requires support == CountWindows(windows, Occurring(signature))
             && negative == CountWindows(others, Occurring(signature))
    ensures OverBestComponent([signature], counts, PatternRate(support, negative)) == Some((signature, 0.0))
  {
    assert CountOf(counts, signature) == ComponentCount(support, negative);
    BestOfSingleton(signature, counts);
    RoundZero();
  }

  lemma RoundZero()
    ensures RoundScore(0.0) == 0.0
  {
    assert (0.5 as real).Floor == 0;
  }

  // ---------- Completeness of the report ----------

  /** Nothing is lost: uncapped, a sequence that precedes some target outcome has a tally, and its hypothesis is
      reported whenever it passes the two thresholds. */
  lemma QualifyingIsReported(events: seq<TemporalEvent>, status: string, p: STDPParams, c: Curves, hs: seq<Hypothesis>,
                             s: seq<string>, counts: map<string, ComponentCount>)
    requires p.Valid() && LearningCurves(c) && DistinctIds(events) && PlainSignatures(events)
    requires Uncapped(p, TargetWindows(events, status, p.patternWindowMs))
    requires Learned(events, status, p, c, hs)
    requires 1 <= |s| <= p.maxSteps && forall i :: 0 <= i < |s| ==> PlainSignature(s[i])
    requires CountOutcomes(events, HasStatus(status), p.patternWindowMs, Embedding(s, p.Lim())) > 0
    requires Counted(counts, TargetWindows(events, status, p.patternWindowMs),
                     OtherWindows(events, status, p.patternWindowMs))
    ensures var windows := TargetWindows(events, status, p.patternWindowMs);
            var ws := MineAll(p, windows);
            && WellFormed(ws) && Tally(ws, EpisodeChoices.SequenceKey(s), c).Some? && |Filter(events, IsOutcome)| > 0
            && var h := HypothesisOfKey(EpisodeChoices.SequenceKey(s), ws,
                                        OtherWindows(events, status, p.patternWindowMs), counts,
                                        Baseline(|windows|, |Filter(events, IsOutcome)|), p, c);
               Reported(h, p) ==> h in hs
  {
    var windows := TargetWindows(events, status, p.patternWindowMs);
    var others := OtherWindows(events, status, p.patternWindowMs);
    var ws, key := MineAll(p, windows), EpisodeChoices.SequenceKey(s);
    var comparable := |Filter(events, IsOutcome)|;
    RateMeaning(events, status, p, s, c);
    TargetWindowsComparable(events, status, p.patternWindowMs);
    assert windows != [];
    var found :| Counted(found, windows, others) &&
                 hs == Materialized(KeyOrder(ws), ws, others, found, Baseline(|windows|, comparable), p, c);
    CountsUnique(counts, found, windows, others, others);
    KeyOrderMembers(ws, key, c);
    if Reported(HypothesisOfKey(key, ws, others, counts, Baseline(|windows|, comparable), p, c), p) {
      MaterializedReports(KeyOrder(ws), ws, others, counts, Baseline(|windows|, comparable), p, c, key);
    }
  }

  // ---------- The order of the input ----------

  /** Event `x` lies in the window of the other outcome `o`, whose evidence satisfies `q`. */
  ghost predicate InNegativeWindow(events: seq<TemporalEvent>, status: string, windowMs: int,
                                   q: seq<TemporalEvent> -> bool,
                                   o: TemporalEvent, x: TemporalEvent) {
    && o in events && HasOtherStatus(status)(o) && q(EvidenceBefore(events, o, windowMs))
    && x in events && Precedes(o, windowMs)(x)
  }

  ghost predicate NegativeId(events: seq<TemporalEvent>, status: string, windowMs: int, q: seq<TemporalEvent> -> bool,
                             id: string) {
    exists o, x :: InNegativeWindow(events, status, windowMs, q, o, x) && x.id == id
  }

  /** The counterexample ids, read off the raw events. */
  lemma NegativeIdsMembers(events: seq<TemporalEvent>, status: string, windowMs: int, q: seq<TemporalEvent> -> bool,
                           id: string)
    ensures id in WindowEventIds(Filter(OtherWindows(events, status, windowMs), EvidenceHas(q))) <==>
            NegativeId(events, status, windowMs, q, id)
  {
    var windows := OtherWindows(events, status, windowMs);
    if id in WindowEventIds(Filter(windows, EvidenceHas(q))) {
      var w, x :| w in Filter(windows, EvidenceHas(q)) && x in w.preEvents && x.id == id;
      var o := NegativeWindowOutcome(events, status, windowMs, w);
      assert InNegativeWindow(events, status, windowMs, q, o, x);
    }
    if NegativeId(events, status, windowMs, q, id) {
      var o, x :| InNegativeWindow(events, status, windowMs, q, o, x) && x.id == id;
      NegativeOutcomeWindow(events, status, windowMs, o);
      var w := WindowBefore(events, o, windowMs);
      assert EvidenceHas(q)(w) && x in w.preEvents;
    }
  }

  lemma NegativeWindowOutcome(events: seq<TemporalEvent>, status: string, windowMs: int, w: Window)
    returns (o: TemporalEvent)
    requires w in OtherWindows(events, status, windowMs)
    ensures o in events && HasOtherStatus(status)(o) && w == WindowBefore(events, o, windowMs)
  {
    var outcomes := Filter(events, HasOtherStatus(status));
    var windows := OtherWindows(events, status, windowMs);
    var i :| 0 <= i < |windows| && windows[i] == w;
    WindowsBeforeIndex(outcomes, events, windowMs, i);
    o := outcomes[i];
    assert o in outcomes;
  }

  lemma NegativeOutcomeWindow(events: seq<TemporalEvent>, status: string, windowMs: int, o: TemporalEvent)
    requires o in events && HasOtherStatus(status)(o)
    ensures WindowBefore(events, o, windowMs) in OtherWindows(events, status, windowMs)
  {
    var outcomes := Filter(events, HasOtherStatus(status));
    assert o in outcomes;
    var i :| 0 <= i < |outcomes| && outcomes[i] == o;
    WindowsBeforeIndex(outcomes, events, windowMs, i);
    assert OtherWindows(events, status, windowMs)[i] in OtherWindows(events, status, windowMs);
  }

  lemma NegativeIdPermutation(a: seq<TemporalEvent>, b: seq<TemporalEvent>, status: string, windowMs: int,
                              q: seq<TemporalEvent> -> bool, id: string)
    requires Permutation(a, b) && DistinctIds(a) && NegativeId(a, status, windowMs, q, id)
    ensures NegativeId(b, status, windowMs, q, id)
  {
    PermutationBasics(a, b);
    var o, x :| InNegativeWindow(a, status, windowMs, q, o, x) && x.id == id;
    EvidencePermutation(a, b, o, windowMs);
    assert InNegativeWindow(b, status, windowMs, q, o, x);
  }

  lemma NegativesPermutation(a: seq<TemporalEvent>, b: seq<TemporalEvent>, status: string, windowMs: int,
                             s: seq<string>,
                             lim: EpisodeChoices.Limits)
    requires Permutation(a, b) && DistinctIds(a)
    ensures NegativesFor(OtherWindows(a, status, windowMs), s, lim)
            == NegativesFor(OtherWindows(b, status, windowMs), s, lim)
  {
    var q := Matching(s, lim);
    OtherWindowsPermutation(a, b, status, windowMs, q);
    DistinctIdsPermutation(a, b);
    forall id
      ensures id in WindowEventIds(Filter(OtherWindows(a, status, windowMs), EvidenceHas(q))) <==>
              id in WindowEventIds(Filter(OtherWindows(b, status, windowMs), EvidenceHas(q)))
    {
      NegativeIdsMembers(a, status, windowMs, q, id);
      NegativeIdsMembers(b, status, windowMs, q, id);
      if NegativeId(a, status, windowMs, q, id) {
        NegativeIdPermutation(a, b, status, windowMs, q, id);
      }
      if NegativeId(b, status, windowMs, q, id) {
        NegativeIdPermutation(b, a, status, windowMs, q, id);
      }
    }
  }

  lemma {:induction false} MaterializedSame(order: seq<string>, ws: seq<MinedWindow>, others: seq<Window>,
                                            others': seq<Window>,
                                            counts: map<string, ComponentCount>, baseline: real, p: STDPParams,
                                            c: Curves)
    requires p.Valid() && c.log1p(2.0) > 0.0 && WellFormed(ws)
    requires forall key :: key in order ==> Tally(ws, key, c).Some?
    requires forall s :: NegativesFor(others, s, p.Lim()) == NegativesFor(others', s, p.Lim())
    ensures Materialized(order, ws, others, counts, baseline, p, c)
            == Materialized(order, ws, others', counts, baseline, p, c)
  {
    if order != [] {
      var n := |order| - 1;
      assert order[n] in order;
      MaterializedSame(order[..n], ws, others, others', counts, baseline, p, c);
      assert HypothesisOfKey(order[n], ws, others, counts, baseline, p, c)
          == HypothesisOfKey(order[n], ws, others', counts, baseline, p, c);
    }
  }

  /** With distinct ids, learning from permuted events reports the same hypotheses in the same order. */
  lemma LearnedPermutation(a: seq<TemporalEvent>, b: seq<TemporalEvent>, status: string, p: STDPParams, c: Curves,
                           hs: seq<Hypothesis>, hs': seq<Hypothesis>)
    requires p.Valid() && LearningCurves(c) && DistinctIds(a) && Permutation(a, b)
    requires Learned(a, status, p, c, hs) && Learned(b, status, p, c, hs')
    ensures hs == hs'
  {
    var w := p.patternWindowMs;
    var windows, others, others' := TargetWindows(a, status, w), OtherWindows(a, status, w), OtherWindows(b, status, w);
    TargetWindowsPermutation(a, b, status, w);
    FilterPermutation(a, b, IsOutcome);
    PermutationBasics(Filter(a, IsOutcome), Filter(b, IsOutcome));
    if windows != [] {
      var ws := MineAll(p, windows);
      var baseline := Baseline(|windows|, |Filter(a, IsOutcome)|);
      var counts :| Counted(counts, windows, others)
                       && hs == Materialized(KeyOrder(ws), ws, others, counts, baseline, p, c);
      var counts' :| Counted(counts', windows, others')
                        && hs' == Materialized(KeyOrder(ws), ws, others', counts', baseline, p, c);
      forall s ensures CountWindows(others, Occurring(s)) == CountWindows(others', Occurring(s)) {
        OtherWindowsPermutation(a, b, status, w, Occurring(s));
      }
      CountsUnique(counts, counts', windows, others, others');
      forall s ensures NegativesFor(others, s, p.Lim()) == NegativesFor(others', s, p.Lim()) {
        NegativesPermutation(a, b, status, w, s, p.Lim());
      }
      MaterializedSame(KeyOrder(ws), ws, others, others', counts, baseline, p, c);
    }
  }
}
