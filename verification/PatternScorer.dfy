/** Learning the hypotheses of one target outcome, and what holds of every hypothesis reported. */
module PatternScorer {
  import opened Collections
  import opened TemporalEvents
  import EpisodeChoices
  import opened OutcomeWindows
  import opened CandidateTally
  import opened EvidenceCollection
  import opened SupportTheorems
  import PatternRates
  import opened ScoreArithmetic

  // ---------- Lead times ----------

  datatype LeadStats = LeadStats(avg: int, p50: int, p95: int)

  predicate IntLeq(x: int, y: int) {
    x <= y
  }

  /** The percentiles are the values at `floor((n - 1) * 0.5)` and `floor((n - 1) * 0.95)` of the sorted list. */
  function LeadTimeStats(values: seq<int>): Option<LeadStats> {
    if values == [] then None
    else
      var sorted := SortBy(values, IntLeq);
      var last := |sorted| - 1;
      Some(LeadStats(RoundedMean(Sum(sorted), |sorted|), sorted[last / 2], sorted[last * 95 / 100]))
  }

  lemma {:induction false} SumAppend(a: seq<int>, b: seq<int>)
    ensures Sum(a + b) == Sum(a) + Sum(b)
  {
    if b == [] {
      assert a + b == a;
    } else {
      assert (a + b)[..|a + b| - 1] == a + b[..|b| - 1];
      SumAppend(a, b[..|b| - 1]);
    }
  }

  lemma {:induction false} SumInsert(x: int, s: seq<int>)
    ensures Sum(InsertBy(x, s, IntLeq)) == x + Sum(s)
  {
    if s == [] || x <= s[0] {
      SumAppend([x], s);
    } else {
      SumInsert(x, s[1..]);
      SumAppend([s[0]], InsertBy(x, s[1..], IntLeq));
      SumAppend([s[0]], s[1..]);
      assert s == [s[0]] + s[1..];
    }
  }

  lemma {:induction false} SumSorted(s: seq<int>)
    ensures Sum(SortBy(s, IntLeq)) == Sum(s)
  {
    if s != [] {
      SumSorted(s[1..]);
      SumInsert(s[0], SortBy(s[1..], IntLeq));
      SumAppend([s[0]], s[1..]);
      assert s == [s[0]] + s[1..];
    }
  }

  /** The average is the rounded mean of the values, and the percentiles are ordered. */
  lemma LeadTimeStatsOrdered(values: seq<int>)
    requires values != []
    ensures LeadTimeStats(values).Some?
    ensures LeadTimeStats(values).value.avg == RoundedMean(Sum(values), |values|)
    ensures LeadTimeStats(values).value.p50 <= LeadTimeStats(values).value.p95
  {
    SumSorted(values);
    SortBySorted(values, IntLeq);
    PercentilesOrdered(SortBy(values, IntLeq));
  }

  lemma PercentilesOrdered(sorted: seq<int>)
    requires sorted != [] && SortedBy(sorted, IntLeq)
    ensures var last := |sorted| - 1; last / 2 <= last * 95 / 100 <= last && sorted[last / 2] <= sorted[last * 95 / 100]
  {
    var last := |sorted| - 1;
    if last / 2 < last * 95 / 100 {
      assert IntLeq(sorted[last / 2], sorted[last * 95 / 100]);
    }
  }

  // ---------- Best component ----------

  datatype ComponentEvidence = ComponentEvidence(signature: string, positive: nat, negative: nat, rate: real)

  function EvidenceFor(counts: map<string, ComponentCount>, signature: string): ComponentEvidence
    requires signature in counts
  {
    var n := counts[signature];
    ComponentEvidence(signature, n.positive, n.negative, PatternRate(n.positive, n.negative))
  }

  /** Higher rate first, then more positives, then the smaller signature. */
  predicate BetterComponent(l: ComponentEvidence, r: ComponentEvidence) {
    if l.rate != r.rate then l.rate > r.rate
    else if l.positive != r.positive then l.positive > r.positive
    else StringLeq(l.signature, r.signature)
  }

  function KnownComponents(sequence: seq<string>, counts: map<string, ComponentCount>): seq<ComponentEvidence> {
    if sequence == [] then []
    else if sequence[0] in counts then [EvidenceFor(counts, sequence[0])] + KnownComponents(sequence[1..], counts)
    else KnownComponents(sequence[1..], counts)
  }

  function BestComponent(sequence: seq<string>, counts: map<string, ComponentCount>): Option<ComponentEvidence> {
    var rows := SortBy(KnownComponents(sequence, counts), BetterComponent);
    if rows == [] then None else Some(rows[0])
  }

  lemma BetterComponentTotal()
    ensures TotalPreorder(BetterComponent)
  {
    forall x: ComponentEvidence, y ensures BetterComponent(x, y) || BetterComponent(y, x) {
      StringLeqTotal(x.signature, y.signature);
    }
    forall x: ComponentEvidence, y, z | BetterComponent(x, y) && BetterComponent(y, z) ensures BetterComponent(x, z) {
      if x.rate == y.rate == z.rate && x.positive == y.positive == z.positive {
        StringLeqTransitive(x.signature, y.signature, z.signature);
      }
    }
  }

  lemma {:induction false} KnownComponentsMembers(sequence: seq<string>, counts: map<string, ComponentCount>,
                                                  row: ComponentEvidence)
    ensures row in KnownComponents(sequence, counts) <==>
            row.signature in sequence && row.signature in counts && row == EvidenceFor(counts, row.signature)
  {
    if sequence != [] {
      KnownComponentsMembers(sequence[1..], counts, row);
      assert row.signature in sequence <==> row.signature == sequence[0] || row.signature in sequence[1..];
    }
  }

  /** The best component is one of the counted signatures of the sequence, and none of them has a higher rate. */
  lemma BestComponentIsBest(sequence: seq<string>, counts: map<string, ComponentCount>, signature: string)
    requires signature in sequence && signature in counts
    ensures BestComponent(sequence, counts).Some?
    ensures var best := BestComponent(sequence, counts).value;
            && best.signature in sequence && best.signature in counts && best == EvidenceFor(counts, best.signature)
            && BetterComponent(best, EvidenceFor(counts, signature))
            && EvidenceFor(counts, signature).rate <= best.rate
  {
    var rows := KnownComponents(sequence, counts);
    var sorted := SortBy(rows, BetterComponent);
    KnownComponentsMembers(sequence, counts, EvidenceFor(counts, signature));
    BetterComponentTotal();
    SortBySorted(rows, BetterComponent);
    PermutationBasics(sorted, rows);
    assert EvidenceFor(counts, signature) in sorted;
    KnownComponentsMembers(sequence, counts, sorted[0]);
    assert sorted[0] in sorted;
    var k :| 0 <= k < |sorted| && sorted[k] == EvidenceFor(counts, signature);
    assert k == 0 || BetterComponent(sorted[0], sorted[k]);
    assert BetterComponent(sorted[0], sorted[0]);
  }

  /** The best component of a sequence and the rate difference to it. */
  function OverBestComponent(sequence: seq<string>, counts: map<string, ComponentCount>, rate: real)
    : Option<(string, real)>
  {
    var best := BestComponent(sequence, counts);
    if best.Some? then Some((best.value.signature, RoundScore(rate - best.value.rate))) else None
  }

  // ---------- Hypotheses ----------

  datatype Hypothesis = Hypothesis(
    sequence: seq<string>,
    reviewable: bool,
    supportCount: nat,
    negativeSupportCount: nat,
    baselineRate: real,
    patternRate: real,
    lift: real,
    overBestComponent: Option<(string, real)>,
    leadTimes: Option<LeadStats>,
    averageDeltas: seq<int>,
    exampleEventIds: set<string>,
    counterexampleEventIds: set<string>,
    quality: OrderQuality,
    containsTargetProxy: bool,
    components: ScoreComponents,
    patternScore: real)

  /** The hypothesis built from one candidate. */
  function HypothesisFor(acc: Accumulator, negative: NegativeSupport, counts: map<string, ComponentCount>,
                         baseline: real, p: STDPParams, c: Curves): Hypothesis
    requires p.Valid() && |acc.supportWindows| > 0 && c.log1p(2.0) > 0.0
  {
    var support := |acc.supportWindows|;
    var rate := PatternRate(support, negative.count);
    var lift := Lift(rate, baseline);
    var components := Components(acc.temporalWeight / support as real, support, negative.count, lift, p.minSupport,
                                 p.learningRate, c.log1p);
    Hypothesis(
      acc.sequence, |acc.sequence| != 1, support, negative.count,
      RoundScore(baseline), RoundScore(rate), RoundScore(lift),
      OverBestComponent(acc.sequence, counts, rate),
      LeadTimeStats(acc.leadTimes), AverageDeltas(acc, support),
      acc.exampleEventIds, negative.eventIds, acc.quality, acc.containsTargetProxy,
      components, PatternScore(components))
  }

  predicate Reported(h: Hypothesis, p: STDPParams) {
    h.supportCount >= p.minSupport && h.patternScore >= p.activationThreshold
  }

  lemma {:induction false} TallySupported(ws: seq<MinedWindow>, key: string, c: Curves)
    requires WellFormed(ws) && Tally(ws, key, c).Some?
    ensures |Tally(ws, key, c).value.supportWindows| > 0
  {
    var last := ws[|ws| - 1];
    assert last in ws;
    if FindEpisode(last.episodes, key).Some? {
      assert last.outcome.id in Tally(ws, key, c).value.supportWindows;
    } else {
      TallySupported(ws[..|ws| - 1], key, c);
    }
  }

  /** The hypothesis of one key. */
  ghost function HypothesisOfKey(key: string, ws: seq<MinedWindow>, others: seq<Window>,
                                 counts: map<string, ComponentCount>, baseline: real, p: STDPParams,
                                 c: Curves): Hypothesis
    requires p.Valid() && c.log1p(2.0) > 0.0 && WellFormed(ws) && Tally(ws, key, c).Some?
  {
    TallySupported(ws, key, c);
    var acc := Tally(ws, key, c).value;
    HypothesisFor(acc, NegativesFor(others, acc.sequence, p.Lim()), counts, baseline, p, c)
  }

  /** The reported hypotheses of the keys in `order`. */
  ghost function Materialized(order: seq<string>, ws: seq<MinedWindow>, others: seq<Window>,
                              counts: map<string, ComponentCount>, baseline: real, p: STDPParams,
                              c: Curves): seq<Hypothesis>
    requires p.Valid() && c.log1p(2.0) > 0.0 && WellFormed(ws)
    requires forall key :: key in order ==> Tally(ws, key, c).Some?
  {
    if order == [] then []
    else
      var n := |order| - 1;
      var before := Materialized(order[..n], ws, others, counts, baseline, p, c);
      assert order[n] in order;
      var h := HypothesisOfKey(order[n], ws, others, counts, baseline, p, c);
      if Reported(h, p) then before + [h] else before
  }

  function Baseline(windows: nat, comparable: nat): real
    requires comparable > 0
  {
    windows as real / comparable as real
  }

  ghost predicate LearningCurves(c: Curves) {
    TraceCurve(c.trace) && LogCurve(c.log1p)
  }

  /** Such curves exist. */
  lemma LearningCurvesExist()
    ensures exists c :: LearningCurves(c)
  {
    assert LearningCurves(Curves(_ => 0.0, (x: real) => x + 1.0, _ => false));
  }

  lemma TargetWindowsComparable(events: seq<TemporalEvent>, status: string, windowMs: int)
    ensures |TargetWindows(events, status, windowMs)| <= |Filter(events, IsOutcome)|
  {
    SortStableSorted(events);
    FilterPermutation(SortStable(events), events, HasStatus(status));
    PermutationBasics(Filter(SortStable(events), HasStatus(status)), Filter(events, HasStatus(status)));
    FilterMonotone(events, HasStatus(status), IsOutcome);
  }

  /** What learning one outcome returns: nothing without target windows, otherwise the reported hypotheses of all
      mined keys, scored against the other outcomes and the single signatures. */
  ghost predicate Learned(events: seq<TemporalEvent>, status: string, p: STDPParams, c: Curves, hs: seq<Hypothesis>)
    requires p.Valid() && LearningCurves(c)
  {
    var windows := TargetWindows(events, status, p.patternWindowMs);
    var others := OtherWindows(events, status, p.patternWindowMs);
    var ws := MineAll(p, windows);
    var comparable := |Filter(events, IsOutcome)|;
    if windows == [] then hs == []
    else
      && comparable > 0 && WellFormed(ws)
      && (forall key :: key in KeyOrder(ws) ==> Tally(ws, key, c).Some?)
      && exists counts :: Counted(counts, windows, others) &&
           hs == Materialized(KeyOrder(ws), ws, others, counts, Baseline(|windows|, comparable), p, c)
  }

  /** The loop over the candidates in map order. */
  method MaterializeHypotheses(order: seq<string>, candidates: map<string, Accumulator>,
                               negatives: map<string, NegativeSupport>, counts: map<string, ComponentCount>,
                               baseline: real, p: STDPParams, c: Curves,
                               ghost ws: seq<MinedWindow>, ghost others: seq<Window>)
    returns (hypotheses: seq<Hypothesis>)
    requires p.Valid() && LearningCurves(c) && WellFormed(ws) && Tallied(candidates, ws, c)
    requires forall key :: key in order ==> key in candidates
    requires negatives.Keys == candidates.Keys
    requires forall key :: key in candidates ==>
              negatives[key] == NegativesFor(others, candidates[key].sequence, p.Lim())
    ensures forall key :: key in order ==> Tally(ws, key, c).Some?
    ensures hypotheses == Materialized(order, ws, others, counts, baseline, p, c)
  {
    hypotheses := [];
    forall key | key in order ensures Tally(ws, key, c).Some? {
      CandidateOfKey(ws, key, c, candidates);
    }
    for n := 0 to |order|
      invariant hypotheses == Materialized(order[..n], ws, others, counts, baseline, p, c)
    {
      var key := order[n];
      assert key in order && order[..n + 1][..n] == order[..n];
      CandidateOfKey(ws, key, c, candidates);
      var candidate := candidates[key];
      var negative := negatives[EpisodeChoices.SequenceKey(candidate.sequence)];
      var h := HypothesisFor(candidate, negative, counts, baseline, p, c);
      if Reported(h, p) {
        hypotheses := hypotheses + [h];
      }
    }
    assert order[..|order|] == order;
  }

  method LearnForOutcome(events: seq<TemporalEvent>, status: string, p: STDPParams, c: Curves)
    returns (hypotheses: seq<Hypothesis>)
    requires p.Valid() && LearningCurves(c) && PlainSignatures(events)
    ensures Learned(events, status, p, c, hypotheses)
  {
    hypotheses := [];
    var windows := BuildOutcomeWindows(events, status, p.patternWindowMs);
    var comparable := |Filter(events, IsOutcome)|;
    TargetWindowsComparable(events, status, p.patternWindowMs);
    if |windows| == 0 || comparable == 0 {
      return;
    }
    TargetWindowsPlain(events, status, p.patternWindowMs);
    var order, candidates := CollectPositiveCandidates(windows, p, c);
    var baseline := Baseline(|windows|, comparable);
    var others := OtherWindows(events, status, p.patternWindowMs);
    var negatives := CollectNegativeSupport(others, order, candidates, p);
    var counts := CollectComponentEvidence(windows, others);
    hypotheses := MaterializeHypotheses(order, candidates, negatives, counts, baseline, p, c,
                                        MineAll(p, windows), others);
  }

  /** A candidate is the tally of its key, is supported, and its sequence leads back to the key. */
  lemma CandidateOfKey(ws: seq<MinedWindow>, key: string, c: Curves, candidates: map<string, Accumulator>)
    requires WellFormed(ws) && Tallied(candidates, ws, c) && key in candidates
    ensures Tally(ws, key, c) == Some(candidates[key])
    ensures |candidates[key].supportWindows| > 0 && EpisodeChoices.SequenceKey(candidates[key].sequence) == key
  {
    assert Lookup(candidates, key) == Tally(ws, key, c);
    TallySupported(ws, key, c);
    TallyShape(ws, key, c);
    JoinSplit(key, UNIT_SEPARATOR);
  }

  lemma TargetWindowsPlain(events: seq<TemporalEvent>, status: string, windowMs: int)
    requires PlainSignatures(events)
    ensures PlainWindows(TargetWindows(events, status, windowMs))
  {
    var ordered := SortStable(events);
    SortStableSorted(events);
    PermutationBasics(ordered, events);
    PatternRates.WindowsBeforeOver(Filter(ordered, HasStatus(status)), ordered, windowMs);
  }
}
