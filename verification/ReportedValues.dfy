/** What a reported hypothesis says, read off the raw events: its supporters, its counts, its rates and scores, and
    exactly when it is reported. */
module ReportedValues {
  import opened Collections
  import opened TemporalEvents
  import OrderQualityRules
  import opened EpisodeChoices
  import EpisodeMiner
  import opened NegativeEvidence
  import opened OutcomeWindows
  import opened CandidateTally
  import opened EvidenceCollection
  import opened SupportTheorems
  import opened PatternRates
  import opened ScoreArithmetic
  import opened PatternScorer
  import opened HypothesisTheorems
  import opened HypothesisValues

  // ---------- Supporters ----------

  /** The lexicographically least admissible choice that spells `s`. */
  ghost predicate LeastSpelling(o: seq<TemporalEvent>, s: seq<string>, lim: Limits, c: Choice) {
    && Admissible(o, c, lim) && SignaturesAt(o, c) == s
    && forall d :: Admissible(o, d, lim) && SignaturesAt(o, d) == s ==> d == c || LexLess(c, d)
  }

  ghost predicate LeastEvents(o: seq<TemporalEvent>, s: seq<string>, lim: Limits, chosen: seq<TemporalEvent>) {
    exists c :: LeastSpelling(o, s, lim, c) && chosen == EventsAt(o, c)
  }

  ghost predicate SupporterOf(events: seq<TemporalEvent>, status: string, p: STDPParams, s: seq<string>,
                              x: (TemporalEvent, EpisodeMiner.MinedEpisode))
  {
    && x.0 in events && HasStatus(status)(x.0)
    && LeastEvents(EvidenceBefore(events, x.0, p.patternWindowMs), s, p.Lim(), x.1.events)
    && x.1.quality == OrderQualityRules.QualityForEvents(x.1.events)
  }

  /** The supporters are target outcomes, each with the events of its least choice. */
  ghost predicate SupportersOf(events: seq<TemporalEvent>, status: string, p: STDPParams, s: seq<string>,
                               supporters: Supporters)
  {
    DistinctSupporters(supporters) && forall x :: x in supporters ==> SupporterOf(events, status, p, s, x)
  }

  /** The window of a supporter. */
  lemma {:induction false} SupporterWindow(p: STDPParams, windows: seq<Window>, key: string,
                                           x: (TemporalEvent, EpisodeMiner.MinedEpisode)) returns (w: Window)
    requires p.Valid() && x in Supporting(MineAll(p, windows), key)
    ensures w in windows && w.outcome == x.0 && FindEpisode(MineWindow(p, w).episodes, key) == Some(x.1)
  {
    var n := |windows| - 1;
    var mined := MineAll(p, windows);
    assert mined[..n] == MineAll(p, windows[..n]) && mined[n] == MineWindow(p, windows[n]);
    w := windows[n];
    if x in Supporting(mined[..n], key) {
      w := SupporterWindow(p, windows[..n], key, x);
    }
  }

  lemma MinedEventsAreLeast(p: STDPParams, w: Window, s: seq<string>, e: EpisodeMiner.MinedEpisode)
    requires p.Valid() && PlainSignatures(w.preEvents) && s != [] && forall i :: 0 <= i < |s| ==> PlainSignature(s[i])
    requires FindEpisode(MineWindow(p, w).episodes, SequenceKey(s)) == Some(e)
    ensures LeastEvents(Evidence(w), s, p.Lim(), e.events)
    ensures e.quality == OrderQualityRules.QualityForEvents(e.events)
  {
    var o := Evidence(w);
    var c := EpisodeMiner.EpisodeOrigin(o, MinedIn(p, o), e);
    MinedChoicesExact(o, p.maxSteps, p.Lim(), p.Options().Cap());
    KeyIdentifiesSequence(o, c, s);
    SignaturesAtIndex(o, c);
    forall d | Admissible(o, d, p.Lim()) && SignaturesAt(o, d) == s ensures d == c || LexLess(c, d) {
      SignaturesAtIndex(o, d);
      MinedIsLeast(o, p.maxSteps, p.Lim(), p.Options().Cap(), c, d);
    }
    assert LeastSpelling(o, s, p.Lim(), c);
  }

  lemma TargetWindowFrom(events: seq<TemporalEvent>, status: string, windowMs: int, w: Window)
    requires DistinctIds(events) && w in TargetWindows(events, status, windowMs)
    ensures w.outcome in events && HasStatus(status)(w.outcome)
    ensures Evidence(w) == EvidenceBefore(events, w.outcome, windowMs)
  {
    var ordered := SortStable(events);
    PermutationBasics(ordered, events);
    var outcomes, windows := Filter(ordered, HasStatus(status)), TargetWindows(events, status, windowMs);
    var i :| 0 <= i < |windows| && windows[i] == w;
    WindowsBeforeIndex(outcomes, ordered, windowMs, i);
    assert outcomes[i] in outcomes;
    EvidencePermutation(events, ordered, outcomes[i], windowMs);
  }

  /** The supporters the learner tallies are supporters in this sense. */
  lemma SupportersMeaning(events: seq<TemporalEvent>, status: string, p: STDPParams, s: seq<string>)
    requires p.Valid() && DistinctIds(events) && PlainSignatures(events)
    requires s != [] && forall i :: 0 <= i < |s| ==> PlainSignature(s[i])
    ensures SupportersOf(events, status, p, s,
                         Supporting(MineAll(p, TargetWindows(events, status, p.patternWindowMs)), SequenceKey(s)))
  {
    var windows, key := TargetWindows(events, status, p.patternWindowMs), SequenceKey(s);
    TargetWindowsShape(events, status, p);
    SupportersDistinct(MineAll(p, windows), key);
    forall x | x in Supporting(MineAll(p, windows), key) ensures SupporterOf(events, status, p, s, x) {
      var w := SupporterWindow(p, windows, key, x);
      TargetWindowFrom(events, status, p.patternWindowMs, w);
      MinedEventsAreLeast(p, w, s, x.1);
    }
  }

  // ---------- Negatives ----------

  ghost function GreedilyFound(s: seq<string>, lim: Limits): seq<TemporalEvent> -> bool {
    (o: seq<TemporalEvent>) => HasFirstOccurrences(o, s, lim)
  }

  /** Whatever the limits, the negative count is the number of other outcomes whose evidence holds the first occurrences
      of the sequence. */
  lemma NegativesMeaningExactly(events: seq<TemporalEvent>, status: string, windowMs: int, s: seq<string>, lim: Limits)
    ensures NegativesFor(OtherWindows(events, status, windowMs), s, lim).count ==
            CountOutcomes(events, HasOtherStatus(status), windowMs, GreedilyFound(s, lim))
  {
    var q, r := Matching(s, lim), GreedilyFound(s, lim);
    CountOtherWindows(events, status, windowMs, q);
    var a := SelectedWith(HasOtherStatus(status), events, windowMs, q);
    var b := SelectedWith(HasOtherStatus(status), events, windowMs, r);
    forall e ensures a(e) == b(e) {
      MatchingIsGreedy(EvidenceBefore(events, e, windowMs), Filter(events, Precedes(e, windowMs)), s, lim);
    }
    FilterExtensional(events, a, b);
  }

  lemma MatchingIsGreedy(o: seq<TemporalEvent>, preEvents: seq<TemporalEvent>, s: seq<string>, lim: Limits)
    requires o == OrderedPreEvents(preEvents)
    ensures Matching(s, lim)(o) == GreedilyFound(s, lim)(o)
  {
    OrderedPreEventsChronological(preEvents);
    MatchesIff(o, s, lim);
  }

  /** The counterexample ids are those of the events in the windows counted. */
  lemma CounterexamplesMeaning(events: seq<TemporalEvent>, status: string, windowMs: int, s: seq<string>, lim: Limits,
                               id: string)
    ensures id in NegativesFor(OtherWindows(events, status, windowMs), s, lim).eventIds <==>
            NegativeId(events, status, windowMs, GreedilyFound(s, lim), id)
  {
    var q, r := Matching(s, lim), GreedilyFound(s, lim);
    NegativeIdsMembers(events, status, windowMs, q, id);
    forall o, x ensures InNegativeWindow(events, status, windowMs, q, o, x)
                   <==> InNegativeWindow(events, status, windowMs, r, o, x)
    {
      MatchingIsGreedy(EvidenceBefore(events, o, windowMs), Filter(events, Precedes(o, windowMs)), s, lim);
    }
  }

  // ---------- Best component ----------

  ghost function Preceded(events: seq<TemporalEvent>, status: string, windowMs: int, signature: string): nat {
    CountOutcomes(events, HasStatus(status), windowMs, Occurring(signature))
  }

  ghost function PrecededOthers(events: seq<TemporalEvent>, status: string, windowMs: int, signature: string): nat {
    CountOutcomes(events, HasOtherStatus(status), windowMs, Occurring(signature))
  }

  /** The fraction of target outcomes among all outcomes with the signature in their window. */
  ghost function SignatureRate(events: seq<TemporalEvent>, status: string, windowMs: int, signature: string): real
    requires Preceded(events, status, windowMs, signature) > 0
  {
    TrueFraction(Preceded(events, status, windowMs, signature), PrecededOthers(events, status, windowMs, signature))
  }

  /** Signature `x` has the higher rate; among equal ones more target outcomes, then the smaller name decide. */
  ghost predicate NotOutrankedBy(events: seq<TemporalEvent>, status: string, windowMs: int, x: string, y: string)
    requires Preceded(events, status, windowMs, x) > 0 && Preceded(events, status, windowMs, y) > 0
  {
    var r, r' := SignatureRate(events, status, windowMs, x), SignatureRate(events, status, windowMs, y);
    var n, n' := Preceded(events, status, windowMs, x), Preceded(events, status, windowMs, y);
    r > r' || (r == r' && (n > n' || (n == n' && StringLeq(x, y))))
  }

  ghost predicate AllPreceded(events: seq<TemporalEvent>, status: string, windowMs: int, s: seq<string>) {
    forall x :: x in s ==> Preceded(events, status, windowMs, x) > 0
  }

  /** The best signature of the sequence, and how much its rate falls short of the rate of the whole. */
  ghost predicate BestValues(best: Option<(string, real)>, events: seq<TemporalEvent>, status: string, windowMs: int,
                             s: seq<string>, rate: real)
  {
    && best.Some? && best.value.0 in s && AllPreceded(events, status, windowMs, s)
    && (forall x :: x in s ==> NotOutrankedBy(events, status, windowMs, best.value.0, x))
    && NearestMillionth(best.value.1, rate - SignatureRate(events, status, windowMs, best.value.0))
  }

  lemma CountsFromEvents(events: seq<TemporalEvent>, status: string, windowMs: int, counts: map<string, ComponentCount>,
                         x: string)
    requires DistinctIds(events) && Preceded(events, status, windowMs, x) > 0
    requires Counted(counts, TargetWindows(events, status, windowMs), OtherWindows(events, status, windowMs))
    ensures x in counts
    ensures EvidenceFor(counts, x) ==
            ComponentEvidence(x, Preceded(events, status, windowMs, x), PrecededOthers(events, status, windowMs, x),
                              SignatureRate(events, status, windowMs, x))
  {
    CountTargetWindows(events, status, windowMs, Occurring(x));
    CountOtherWindows(events, status, windowMs, Occurring(x));
    assert CountOf(counts, x) == ComponentCount(Preceded(events, status, windowMs, x),
                                                PrecededOthers(events, status, windowMs, x));
    RateValue(Preceded(events, status, windowMs, x), PrecededOthers(events, status, windowMs, x));
  }

  lemma BestFromEvents(events: seq<TemporalEvent>, status: string, windowMs: int, counts: map<string, ComponentCount>,
                       s: seq<string>, rate: real)
    requires DistinctIds(events) && s != [] && AllPreceded(events, status, windowMs, s)
    requires Counted(counts, TargetWindows(events, status, windowMs), OtherWindows(events, status, windowMs))
    ensures BestValues(OverBestComponent(s, counts, rate), events, status, windowMs, s, rate)
  {
    var best := BestEvidence(events, status, windowMs, counts, s);
    forall x | x in s ensures NotOutrankedBy(events, status, windowMs, best.signature, x) {
      BestOutranks(events, status, windowMs, counts, s, x);
    }
    RoundScoreNearest(rate - best.rate);
  }

  lemma BestEvidence(events: seq<TemporalEvent>, status: string, windowMs: int, counts: map<string, ComponentCount>,
                     s: seq<string>) returns (best: ComponentEvidence)
    requires DistinctIds(events) && s != [] && AllPreceded(events, status, windowMs, s)
    requires Counted(counts, TargetWindows(events, status, windowMs), OtherWindows(events, status, windowMs))
    ensures BestComponent(s, counts) == Some(best) && best.signature in s
    ensures best.rate == SignatureRate(events, status, windowMs, best.signature)
  {
    CountsFromEvents(events, status, windowMs, counts, s[0]);
    BestComponentIsBest(s, counts, s[0]);
    best := BestComponent(s, counts).value;
    CountsFromEvents(events, status, windowMs, counts, best.signature);
  }

  lemma BestOutranks(events: seq<TemporalEvent>, status: string, windowMs: int, counts: map<string, ComponentCount>,
                     s: seq<string>, x: string)
    requires DistinctIds(events) && AllPreceded(events, status, windowMs, s) && x in s
    requires Counted(counts, TargetWindows(events, status, windowMs), OtherWindows(events, status, windowMs))
    ensures BestComponent(s, counts).Some? && BestComponent(s, counts).value.signature in s
    ensures NotOutrankedBy(events, status, windowMs, BestComponent(s, counts).value.signature, x)
  {
    CountsFromEvents(events, status, windowMs, counts, x);
    BestComponentIsBest(s, counts, x);
    CountsFromEvents(events, status, windowMs, counts, BestComponent(s, counts).value.signature);
  }

  /** Every signature of a tallied sequence lies in the window of some target outcome. */
  lemma SignaturesPreceded(events: seq<TemporalEvent>, status: string, p: STDPParams, s: seq<string>)
    requires p.Valid() && DistinctIds(events) && PlainSignatures(events)
    requires forall i :: 0 <= i < |s| ==> PlainSignature(s[i])
    requires Supporting(MineAll(p, TargetWindows(events, status, p.patternWindowMs)), SequenceKey(s)) != []
    ensures AllPreceded(events, status, p.patternWindowMs, s)
  {
    var windows := TargetWindows(events, status, p.patternWindowMs);
    TargetWindowsShape(events, status, p);
    forall x | x in s ensures Preceded(events, status, p.patternWindowMs, x) > 0 {
      var i :| 0 <= i < |s| && s[i] == x;
      SupportBelowComponents(p, windows, s, i);
      CountTargetWindows(events, status, p.patternWindowMs, Occurring(x));
    }
  }

  // ---------- Quality, examples and flags ----------

  /** No warrant of any supporter's events is worse than the quality, and some supporter warrants it. */
  ghost predicate QualityOf(quality: OrderQuality, supporters: Supporters) {
    && (forall x, q :: x in supporters && OrderQualityRules.Warrants(x.1.events, q) ==>
          OrderQualityRules.Rank(q) <= OrderQualityRules.Rank(quality))
    && exists x :: x in supporters && OrderQualityRules.Warrants(x.1.events, quality)
  }

  lemma {:induction false} TallyQualityAttained(ws: seq<MinedWindow>, key: string, c: Curves)
    requires WellFormed(ws) && Tally(ws, key, c).Some?
    ensures exists x :: x in Supporting(ws, key) && x.1.quality == Tally(ws, key, c).value.quality
  {
    var init, last := ws[..|ws| - 1], ws[|ws| - 1];
    assert last in ws;
    if Tally(init, key, c).Some? {
      TallyQualityAttained(init, key, c);
      var x :| x in Supporting(init, key) && x.1.quality == Tally(init, key, c).value.quality;
      assert x in Supporting(ws, key);
    }
    var found := FindEpisode(last.episodes, key);
    if found.Some? {
      assert WellFormedEpisode(found.value);
      assert (last.outcome, found.value) in Supporting(ws, key);
    }
  }

  lemma TallyQualityOf(ws: seq<MinedWindow>, key: string, c: Curves)
    requires WellFormed(ws) && Tally(ws, key, c).Some?
    requires forall x :: x in Supporting(ws, key) ==>
               x.1.quality == OrderQualityRules.QualityForEvents(x.1.events)
    ensures QualityOf(Tally(ws, key, c).value.quality, Supporting(ws, key))
  {
    var quality := Tally(ws, key, c).value.quality;
    TallyQualityIsWorst(ws, key, c, quality);
    TallyQualityAttained(ws, key, c);
    var x :| x in Supporting(ws, key) && x.1.quality == quality;
    OrderQualityRules.QualityIsWorstWarranted(x.1.events);
    forall x, q | x in Supporting(ws, key) && OrderQualityRules.Warrants(x.1.events, q)
      ensures OrderQualityRules.Rank(q) <= OrderQualityRules.Rank(quality)
    {
      OrderQualityRules.QualityIsWorstWarranted(x.1.events);
    }
  }

  // ---------- All values together ----------

  /** The numbers: counts, rates, scores and times. */
  ghost predicate Numbers(h: Hypothesis, events: seq<TemporalEvent>, status: string, p: STDPParams, c: Curves,
                          supporters: Supporters)
    requires p.Valid() && c.log1p(2.0) > 0.0
  {
    && Measures(h, supporters, |Filter(events, HasStatus(status))|, |Filter(events, IsOutcome)|, p, c)
    && h.negativeSupportCount ==
       CountOutcomes(events, HasOtherStatus(status), p.patternWindowMs, GreedilyFound(h.sequence, p.Lim()))
  }

  /** What goes with the numbers: the best single signature, the order quality, the event ids and the two flags. */
  ghost predicate Notes(h: Hypothesis, events: seq<TemporalEvent>, status: string, p: STDPParams, c: Curves,
                        supporters: Supporters)
    requires h.supportCount > 0
  {
    && BestValues(h.overBestComponent, events, status, p.patternWindowMs, h.sequence,
                  TrueFraction(h.supportCount, h.negativeSupportCount))
    && QualityOf(h.quality, supporters)
    && (forall id :: id in h.exampleEventIds <==> IsExample(supporters, id))
    && (forall id :: id in h.counterexampleEventIds <==>
          NegativeId(events, status, p.patternWindowMs, GreedilyFound(h.sequence, p.Lim()), id))
    && (h.containsTargetProxy <==> exists x :: x in h.sequence && c.isProxy(x))
    && (h.reviewable <==> |h.sequence| >= 2)
  }

  ghost function SupportersFor(events: seq<TemporalEvent>, status: string, p: STDPParams, s: seq<string>): Supporters
    requires p.Valid()
  {
    Supporting(MineAll(p, TargetWindows(events, status, p.patternWindowMs)), SequenceKey(s))
  }

  /** The hypothesis of sequence `s` says what the raw events give, whether it is reported or not. */
  ghost predicate TrueValues(h: Hypothesis, events: seq<TemporalEvent>, status: string, p: STDPParams, c: Curves,
                             s: seq<string>)
    requires p.Valid() && c.log1p(2.0) > 0.0
  {
    var supporters := SupportersFor(events, status, p, s);
    && h.sequence == s != [] && (forall i :: 0 <= i < |s| ==> PlainSignature(s[i]))
    && SupportersOf(events, status, p, s, supporters)
    && Numbers(h, events, status, p, c, supporters)
    && Notes(h, events, status, p, c, supporters)
  }

  lemma TargetCount(events: seq<TemporalEvent>, status: string, windowMs: int)
    ensures |TargetWindows(events, status, windowMs)| == |Filter(events, HasStatus(status))|
  {
    SortStableSorted(events);
    FilterPermutation(SortStable(events), events, HasStatus(status));
    PermutationBasics(Filter(SortStable(events), HasStatus(status)), Filter(events, HasStatus(status)));
  }

  /** The hypothesis built for a tallied key. */
  ghost predicate KeyedHypothesis(h: Hypothesis, events: seq<TemporalEvent>, status: string, p: STDPParams, c: Curves,
                                  key: string, counts: map<string, ComponentCount>)
    requires p.Valid() && LearningCurves(c)
  {
    ComesFrom(h, events, status, p, c, key, counts) && Facts(h, events, status, p, c, key, counts)
  }

  lemma NumbersOfKey(h: Hypothesis, events: seq<TemporalEvent>, status: string, p: STDPParams, c: Curves, key: string,
                     counts: map<string, ComponentCount>)
    requires p.Valid() && LearningCurves(c) && DistinctIds(events) && PlainSignatures(events)
    requires KeyedHypothesis(h, events, status, p, c, key, counts)
    ensures Numbers(h, events, status, p, c, SupportersFor(events, status, p, h.sequence))
  {
    var w := p.patternWindowMs;
    var windows := TargetWindows(events, status, w);
    var ws := MineAll(p, windows);
    var acc := Tally(ws, key, c).value;
    TargetCount(events, status, w);
    TallySupported(ws, key, c);
    TallySummarizes(ws, key, c);
    TallyWeight(ws, key, c);
    KeyIsInside(events, status, p, key);
    NegativesMeaningExactly(events, status, w, h.sequence, p.Lim());
    MeasuresOfSummary(h, acc, Supporting(ws, key), NegativesFor(OtherWindows(events, status, w), h.sequence, p.Lim()),
                      counts, |windows|, |Filter(events, IsOutcome)|, p, c);
  }

  lemma NotesOfKey(h: Hypothesis, events: seq<TemporalEvent>, status: string, p: STDPParams, c: Curves, key: string,
                   counts: map<string, ComponentCount>)
    requires p.Valid() && LearningCurves(c) && DistinctIds(events) && PlainSignatures(events)
    requires KeyedHypothesis(h, events, status, p, c, key, counts)
    requires SupportersOf(events, status, p, h.sequence, SupportersFor(events, status, p, h.sequence))
    ensures Notes(h, events, status, p, c, SupportersFor(events, status, p, h.sequence))
  {
    var w := p.patternWindowMs;
    var ws := MineAll(p, TargetWindows(events, status, w));
    SignaturesPreceded(events, status, p, h.sequence);
    BestFromEvents(events, status, w, counts, h.sequence, PatternRate(h.supportCount, h.negativeSupportCount));
    RateValue(h.supportCount, h.negativeSupportCount);
    TallyQualityOf(ws, key, c);
    TallyProxyExact(ws, key, c);
    forall id ensures id in h.exampleEventIds <==> IsExample(Supporting(ws, key), id) {
      TallyExamples(ws, key, c, id);
    }
    forall id
      ensures id in h.counterexampleEventIds <==>
              NegativeId(events, status, w, GreedilyFound(h.sequence, p.Lim()), id)
    {
      CounterexamplesMeaning(events, status, w, h.sequence, p.Lim(), id);
    }
  }

  lemma ValuesOfKey(h: Hypothesis, events: seq<TemporalEvent>, status: string, p: STDPParams, c: Curves, key: string,
                    counts: map<string, ComponentCount>)
    requires p.Valid() && LearningCurves(c) && DistinctIds(events) && PlainSignatures(events)
    requires ComesFrom(h, events, status, p, c, key, counts)
    ensures TrueValues(h, events, status, p, c, h.sequence)
  {
    FactsOfOrigin(events, status, p, c, h, key, counts);
    SupportersMeaning(events, status, p, h.sequence);
    NumbersOfKey(h, events, status, p, c, key, counts);
    NotesOfKey(h, events, status, p, c, key, counts);
  }

  /** Every reported hypothesis has these values and passes both thresholds. */
  lemma ReportedAreTrue(events: seq<TemporalEvent>, status: string, p: STDPParams, c: Curves, hs: seq<Hypothesis>,
                        h: Hypothesis)
    requires p.Valid() && LearningCurves(c) && DistinctIds(events) && PlainSignatures(events)
    requires Learned(events, status, p, c, hs) && h in hs
    ensures TrueValues(h, events, status, p, c, h.sequence)
    ensures h.supportCount >= p.minSupport && h.patternScore >= p.activationThreshold
    ensures h.components.supportFactor == 1.0
  {
    var key, counts := HypothesisOrigin(events, status, p, c, hs, h);
    ValuesOfKey(h, events, status, p, c, key, counts);
  }

  /** `hs` was materialized from these component counts. */
  ghost predicate MaterializedFrom(hs: seq<Hypothesis>, events: seq<TemporalEvent>, status: string, p: STDPParams,
                                   c: Curves, counts: map<string, ComponentCount>)
    requires p.Valid() && LearningCurves(c)
  {
    var windows := TargetWindows(events, status, p.patternWindowMs);
    var others := OtherWindows(events, status, p.patternWindowMs);
    var ws, comparable := MineAll(p, windows), |Filter(events, IsOutcome)|;
    && comparable > 0 && WellFormed(ws) && (forall key :: key in KeyOrder(ws) ==> Tally(ws, key, c).Some?)
    && hs == Materialized(KeyOrder(ws), ws, others, counts, Baseline(|windows|, comparable), p, c)
  }

  /** The hypothesis of a sequence with supporters. */
  lemma CandidateOf(events: seq<TemporalEvent>, status: string, p: STDPParams, c: Curves, hs: seq<Hypothesis>,
                    s: seq<string>) returns (h: Hypothesis, counts: map<string, ComponentCount>)
    requires p.Valid() && LearningCurves(c) && DistinctIds(events) && PlainSignatures(events)
    requires Learned(events, status, p, c, hs) && SupportersFor(events, status, p, s) != []
    ensures ComesFrom(h, events, status, p, c, SequenceKey(s), counts)
    ensures MaterializedFrom(hs, events, status, p, c, counts)
  {
    var windows := TargetWindows(events, status, p.patternWindowMs);
    var others := OtherWindows(events, status, p.patternWindowMs);
    var ws, comparable := MineAll(p, windows), |Filter(events, IsOutcome)|;
    TallySummarizes(ws, SequenceKey(s), c);
    TargetWindowsComparable(events, status, p.patternWindowMs);
    counts :| Counted(counts, windows, others) &&
              hs == Materialized(KeyOrder(ws), ws, others, counts, Baseline(|windows|, comparable), p, c);
    h := HypothesisOfKey(SequenceKey(s), ws, others, counts, Baseline(|windows|, comparable), p, c);
  }

  lemma CandidateReported(h: Hypothesis, events: seq<TemporalEvent>, status: string, p: STDPParams, c: Curves,
                          hs: seq<Hypothesis>, key: string, counts: map<string, ComponentCount>)
    requires p.Valid() && LearningCurves(c)
    requires ComesFrom(h, events, status, p, c, key, counts) && MaterializedFrom(hs, events, status, p, c, counts)
    ensures Reported(h, p) ==> h in hs
  {
    var windows := TargetWindows(events, status, p.patternWindowMs);
    var others := OtherWindows(events, status, p.patternWindowMs);
    var ws, comparable := MineAll(p, windows), |Filter(events, IsOutcome)|;
    KeyOrderMembers(ws, key, c);
    if Reported(h, p) {
      MaterializedReports(KeyOrder(ws), ws, others, counts, Baseline(|windows|, comparable), p, c, key);
    }
  }

  lemma CandidateIsOnly(h: Hypothesis, events: seq<TemporalEvent>, status: string, p: STDPParams, c: Curves,
                        hs: seq<Hypothesis>, s: seq<string>, counts: map<string, ComponentCount>, x: Hypothesis)
    requires p.Valid() && LearningCurves(c) && DistinctIds(events) && PlainSignatures(events)
    requires ComesFrom(h, events, status, p, c, SequenceKey(s), counts)
    requires MaterializedFrom(hs, events, status, p, c, counts) && x in hs
    ensures Reported(x, p) && (x.sequence == s ==> x == h)
  {
    var windows := TargetWindows(events, status, p.patternWindowMs);
    var others := OtherWindows(events, status, p.patternWindowMs);
    var ws := MineAll(p, windows);
    var key := MaterializedOrigin(KeyOrder(ws), ws, others, counts, Baseline(|windows|, |Filter(events, IsOutcome)|), p,
                                  c, x);
    FactsOfOrigin(events, status, p, c, x, key, counts);
  }

  /** For every sequence with supporters there is one hypothesis with these values, and it is reported if and only if it
      passes both thresholds; no other hypothesis of that sequence is. */
  lemma ReportedExactly(events: seq<TemporalEvent>, status: string, p: STDPParams, c: Curves, hs: seq<Hypothesis>,
                        s: seq<string>) returns (h: Hypothesis)
    requires p.Valid() && LearningCurves(c) && DistinctIds(events) && PlainSignatures(events)
    requires Learned(events, status, p, c, hs)
    requires s != [] && (forall i :: 0 <= i < |s| ==> PlainSignature(s[i])) && SupportersFor(events, status, p, s) != []
    ensures TrueValues(h, events, status, p, c, s)
    ensures h in hs <==> h.supportCount >= p.minSupport && h.patternScore >= p.activationThreshold
    ensures forall x :: x in hs && x.sequence == s ==> x == h
  {
    var counts;
    h, counts := CandidateOf(events, status, p, c, hs, s);
    KeyedSequence(h, events, status, p, c, SequenceKey(s), counts, s);
    ValuesOfKey(h, events, status, p, c, SequenceKey(s), counts);
    CandidateReported(h, events, status, p, c, hs, SequenceKey(s), counts);
    forall x | x in hs ensures Reported(x, p) && (x.sequence == s ==> x == h) {
      CandidateIsOnly(h, events, status, p, c, hs, s, counts, x);
    }
  }

  lemma KeyedSequence(h: Hypothesis, events: seq<TemporalEvent>, status: string, p: STDPParams, c: Curves, key: string,
                      counts: map<string, ComponentCount>, s: seq<string>)
    requires p.Valid() && LearningCurves(c) && DistinctIds(events) && PlainSignatures(events)
    requires ComesFrom(h, events, status, p, c, key, counts)
    requires s != [] && (forall i :: 0 <= i < |s| ==> PlainSignature(s[i])) && key == SequenceKey(s)
    ensures h.sequence == s
  {
    FactsOfOrigin(events, status, p, c, h, key, counts);
    SplitJoin(s, UNIT_SEPARATOR);
  }
}
