/** The meaning of the reported rates: positive and negative counts measure the same thing on the two families
    of windows, and both are anti-monotone. */
module PatternRates {
  import opened Collections
  import opened TemporalEvents
  import opened EpisodeChoices
  import opened CandidateCap
  import opened EpisodeMiner
  import opened NegativeEvidence
  import opened OutcomeWindows
  import opened CandidateTally
  import opened EvidenceCollection
  import SupportTheorems

  // ---------- From mined windows to counts ----------

  ghost function MinedKey(p: STDPParams, key: string): seq<TemporalEvent> -> bool
    requires p.Valid()
  {
    (o: seq<TemporalEvent>) => HasKey(o, MinedIn(p, o), key)
  }

  ghost function Embedding(s: seq<string>, lim: Limits): seq<TemporalEvent> -> bool {
    (o: seq<TemporalEvent>) => Embeds(o, s, lim)
  }

  /** No window has more minable keys than the candidate cap. */
  ghost predicate Uncapped(p: STDPParams, windows: seq<Window>)
    requires p.Valid()
  {
    forall w :: w in windows ==> NothingLost(Evidence(w), p.maxSteps, p.Lim(), p.Options().Cap())
  }

  /** Windows with few enough pre-events have none. */
  lemma FewEventsUncapped(p: STDPParams, windows: seq<Window>)
    requires p.Valid()
    requires forall w :: w in windows ==>
               ChoiceCount(|w.preEvents|, p.maxSteps) <= if p.maxCandidates.Some? then p.maxCandidates.value else 5000
    ensures Uncapped(p, windows)
  {
    forall w | w in windows ensures NothingLost(Evidence(w), p.maxSteps, p.Lim(), p.Options().Cap()) {
      ChoiceCountGrows(|Evidence(w)|, |w.preEvents|, p.maxSteps);
      FewEventsLoseNothing(Evidence(w), p.maxSteps, p.Lim(), p.Options().Cap());
    }
  }

  lemma {:induction false} FindRenderedEpisode(o: seq<TemporalEvent>, cs: seq<Choice>, key: string)
    ensures FindEpisode(EpisodesAt(o, cs), key).Some? <==> HasKey(o, cs, key)
  {
    if cs != [] {
      var rest := cs[1..];
      FindRenderedEpisode(o, rest, key);
      assert EpisodesAt(o, cs)[1..] == EpisodesAt(o, rest) && EpisodesAt(o, cs)[0].key == Key(o, cs[0]);
      if HasKey(o, rest, key) {
        var c :| c in rest && Key(o, c) == key;
        assert c in cs;
      }
      if Key(o, cs[0]) == key {
        assert cs[0] in cs;
      }
      if HasKey(o, cs, key) && Key(o, cs[0]) != key {
        var c :| c in cs && Key(o, c) == key;
        assert c in rest;
      }
    }
  }

  lemma FindMinedEpisode(p: STDPParams, w: Window, key: string)
    requires p.Valid()
    ensures FindEpisode(MineWindow(p, w).episodes, key).Some? <==> EvidenceHas(MinedKey(p, key))(w)
  {
    var q := MinedKey(p, key);
    assert EvidenceHas(q)(w) == q(Evidence(w));
    assert q(Evidence(w)) == HasKey(Evidence(w), MinedIn(p, Evidence(w)), key);
    FindRenderedEpisode(Evidence(w), MinedIn(p, Evidence(w)), key);
  }

  /** The supporters of a key are the windows it was mined in. */
  lemma {:induction false} SupportersAreMinedWindows(p: STDPParams, windows: seq<Window>, key: string)
    requires p.Valid()
    ensures |Supporting(MineAll(p, windows), key)| == CountWindows(windows, MinedKey(p, key))
  {
    if windows != [] {
      var n := |windows| - 1;
      var mined := MineAll(p, windows);
      assert mined[..n] == MineAll(p, windows[..n]) && mined[n] == MineWindow(p, windows[n]);
      SupportersAreMinedWindows(p, windows[..n], key);
      FindMinedEpisode(p, windows[n], key);
      FilterSnoc(windows, n, EvidenceHas(MinedKey(p, key)));
      assert windows[..n + 1] == windows;
    }
  }

  ghost predicate DistinctOutcomes(ws: seq<MinedWindow>) {
    forall i, j :: 0 <= i < j < |ws| ==> ws[i].outcome.id != ws[j].outcome.id
  }

  lemma {:induction false} SupportersDistinct(ws: seq<MinedWindow>, key: string)
    requires DistinctOutcomes(ws)
    ensures forall x :: x in Supporting(ws, key) ==> exists w :: w in ws && w.outcome == x.0
    ensures SupportTheorems.DistinctSupporters(Supporting(ws, key))
  {
    if ws != [] {
      var n := |ws| - 1;
      var prior := Supporting(ws[..n], key);
      SupportersDistinct(ws[..n], key);
      assert ws[n] in ws;
      forall x | x in prior ensures x.0.id != ws[n].outcome.id && exists w :: w in ws && w.outcome == x.0 {
        var w :| w in ws[..n] && w.outcome == x.0;
        assert w in ws;
      }
      var s := Supporting(ws, key);
      assert s == prior || (s[..|prior|] == prior && |s| == |prior| + 1 && s[|prior|].0 == ws[n].outcome);
      forall i, j | 0 <= i < j < |s| ensures s[i].0.id != s[j].0.id {
        assert s[i] == prior[i] && prior[i] in prior;
        assert j < |prior| ==> s[j] == prior[j];
      }
    }
  }

  /** How many windows support a key, as the scorer reads it off the accumulator. */
  ghost function SupportCount(ws: seq<MinedWindow>, key: string, c: Curves): nat
    requires WellFormed(ws)
  {
    if Tally(ws, key, c).Some? then |Tally(ws, key, c).value.supportWindows| else 0
  }

  lemma SupportCountIsSupporters(ws: seq<MinedWindow>, key: string, c: Curves)
    requires WellFormed(ws) && DistinctOutcomes(ws)
    ensures SupportCount(ws, key, c) == |Supporting(ws, key)|
  {
    SupportTheorems.TallySummarizes(ws, key, c);
    SupportersDistinct(ws, key);
    SupportTheorems.SupporterIdsCount(Supporting(ws, key));
  }

  // ---------- Target windows ----------

  ghost predicate SameOutcomes(ws: seq<MinedWindow>, windows: seq<Window>) {
    && |ws| == |windows|
    && forall i :: 0 <= i < |ws| ==> ws[i].outcome == windows[i].outcome
  }

  lemma SameOutcomesSnoc(ws: seq<MinedWindow>, last: MinedWindow, windows: seq<Window>, n: nat)
    requires n + 1 == |windows| && SameOutcomes(ws, windows[..n]) && last.outcome == windows[n].outcome
    ensures SameOutcomes(ws + [last], windows)
  {
  }

  lemma {:induction false} MineAllOutcomes(p: STDPParams, windows: seq<Window>)
    requires p.Valid()
    ensures SameOutcomes(MineAll(p, windows), windows)
  {
    if windows != [] {
      var n := |windows| - 1;
      MineAllOutcomes(p, windows[..n]);
      SameOutcomesSnoc(MineAll(p, windows[..n]), MineWindow(p, windows[n]), windows, n);
    }
  }

  ghost predicate WindowsOver(windows: seq<Window>, events: seq<TemporalEvent>, windowMs: int) {
    forall w :: w in windows ==> forall e :: e in w.preEvents ==>
      e in events && 0 < w.outcome.timestamp - e.timestamp <= windowMs
  }

  lemma WindowsBeforeOver(outcomes: seq<TemporalEvent>, events: seq<TemporalEvent>, windowMs: int)
    ensures WindowsOver(WindowsBefore(outcomes, events, windowMs), events, windowMs)
  {
    var windows := WindowsBefore(outcomes, events, windowMs);
    forall w, e | w in windows && e in w.preEvents
      ensures e in events && 0 < w.outcome.timestamp - e.timestamp <= windowMs
    {
      var i :| 0 <= i < |windows| && windows[i] == w;
      WindowsBeforeIndex(outcomes, events, windowMs, i);
    }
  }

  /** Target windows are plain, lie inside the window length and have distinct outcomes. */
  lemma TargetWindowsShape(events: seq<TemporalEvent>, status: string, p: STDPParams)
    requires p.Valid() && DistinctIds(events) && PlainSignatures(events)
    ensures var windows := TargetWindows(events, status, p.patternWindowMs);
            && PlainWindows(windows) && WindowsOver(windows, SortStable(events), p.patternWindowMs)
            && WellFormed(MineAll(p, windows)) && DistinctOutcomes(MineAll(p, windows))
  {
    var ordered := SortStable(events);
    var outcomes := Filter(ordered, HasStatus(status));
    var windows := TargetWindows(events, status, p.patternWindowMs);
    SortStableSorted(events);
    PermutationBasics(ordered, events);
    WindowsBeforeOver(outcomes, ordered, p.patternWindowMs);
    MineAllWellFormed(p, windows);
    DistinctIdsPermutation(events, ordered);
    DistinctIdsFilter(ordered, HasStatus(status));
    MineAllOutcomes(p, windows);
    forall i | 0 <= i < |windows| ensures MineAll(p, windows)[i].outcome == outcomes[i] {
      WindowsBeforeIndex(outcomes, ordered, p.patternWindowMs, i);
    }
  }

  lemma RenderedEpisodeInside(o: seq<TemporalEvent>, c: Choice, outcome: TemporalEvent, windowMs: int)
    requires Chronological(o) && Increasing(o, c)
    requires forall x :: x in o ==> 0 < outcome.timestamp - x.timestamp <= windowMs
    ensures SupportTheorems.InsideWindow(outcome, EpisodeFor(EventsAt(o, c)), windowMs)
    ensures |EpisodeFor(EventsAt(o, c)).events| == |c|
  {
    EventsAtIndex(o, c);
    var events := EventsAt(o, c);
    forall i, j | 0 <= i <= j < |events| ensures Delta(outcome, events[j]) <= Delta(outcome, events[i]) {
      ChronologicalPair(o, c[i], c[j]);
    }
    forall i | 0 <= i < |events| ensures 0 <= Delta(outcome, events[i]) <= windowMs {
      assert events[i] in o;
    }
  }

  /** A mined episode lies inside its window and has at most `maxSteps` events. */
  lemma MinedEpisodeInside(p: STDPParams, w: Window, windowMs: int, e: MinedEpisode)
    requires p.Valid() && e in MineWindow(p, w).episodes
    requires forall x :: x in w.preEvents ==> 0 < w.outcome.timestamp - x.timestamp <= windowMs
    ensures SupportTheorems.InsideWindow(w.outcome, e, windowMs) && |e.events| <= p.maxSteps
  {
    var c := EpisodeOrigin(Evidence(w), MinedIn(p, Evidence(w)), e);
    MinedChoicesExact(Evidence(w), p.maxSteps, p.Lim(), p.Options().Cap());
    OrderedPreEventsChronological(w.preEvents);
    RenderedEpisodeInside(Evidence(w), c, w.outcome, windowMs);
  }

  lemma KeyedEpisodeInside(p: STDPParams, w: Window, windowMs: int, key: string)
    requires p.Valid() && PlainSignatures(w.preEvents)
    requires forall x :: x in w.preEvents ==> 0 < w.outcome.timestamp - x.timestamp <= windowMs
    requires FindEpisode(MineWindow(p, w).episodes, key).Some?
    ensures var e := FindEpisode(MineWindow(p, w).episodes, key).value;
            && |e.events| == |Split(key, UNIT_SEPARATOR)| <= p.maxSteps
            && SupportTheorems.InsideWindow(w.outcome, e, windowMs)
  {
    MineWindowShape(p, w);
    MinedEpisodeInside(p, w, windowMs, FindEpisode(MineWindow(p, w).episodes, key).value);
  }

  /** The lead time recorded for a window is the longest that any choice with the same key gives. */
  lemma RecordedLeadIsLongest(p: STDPParams, w: Window, e: MinedEpisode, c: Choice)
    requires p.Valid() && e in MineWindow(p, w).episodes
    requires Minable(Evidence(w), c, p.maxSteps, p.Lim()) && Key(Evidence(w), c) == e.key
    ensures e.events != [] && Delta(w.outcome, Evidence(w)[c[0]]) <= Delta(w.outcome, e.events[0])
  {
    var o := Evidence(w);
    var d := EpisodeOrigin(o, MinedIn(p, o), e);
    OrderedPreEventsChronological(w.preEvents);
    MinedLeadIsLongest(o, p.maxSteps, p.Lim(), p.Options().Cap(), d, c);
    EventsAtIndex(o, d);
  }

  /** All supporters of a key lie inside their windows and have one event per signature, at most `maxSteps`. */
  lemma {:induction false} SupportersAreInside(p: STDPParams, windows: seq<Window>, events: seq<TemporalEvent>,
                                               windowMs: int, key: string)
    requires p.Valid() && PlainWindows(windows) && WindowsOver(windows, events, windowMs)
    ensures SupportTheorems.SupportersInside(Supporting(MineAll(p, windows), key), |Split(key, UNIT_SEPARATOR)|,
                                             windowMs)
    ensures Supporting(MineAll(p, windows), key) != [] ==> |Split(key, UNIT_SEPARATOR)| <= p.maxSteps
  {
    if windows != [] {
      var n := |windows| - 1;
      var mined := MineAll(p, windows);
      assert windows[n] in windows;
      assert mined[..n] == MineAll(p, windows[..n]) && mined[n] == MineWindow(p, windows[n]);
      SupportersAreInside(p, windows[..n], events, windowMs, key);
      if FindEpisode(mined[n].episodes, key).Some? {
        KeyedEpisodeInside(p, windows[n], windowMs, key);
      }
    }
  }

  // ---------- Support counts embeddings ----------

  /** Every mined key is an embedding, also under the cap; uncapped, every embedding is mined. */
  lemma MinedKeyIsEmbedding(p: STDPParams, w: Window, s: seq<string>)
    requires p.Valid() && PlainSignatures(w.preEvents)
    requires s != [] && forall i :: 0 <= i < |s| ==> PlainSignature(s[i])
    ensures EvidenceHas(MinedKey(p, SequenceKey(s)))(w) ==> EvidenceHas(Embedding(s, p.Lim()))(w)
    ensures NothingLost(Evidence(w), p.maxSteps, p.Lim(), p.Options().Cap()) && |s| <= p.maxSteps ==>
              EvidenceHas(MinedKey(p, SequenceKey(s)))(w) == EvidenceHas(Embedding(s, p.Lim()))(w)
  {
    var o, mined, key := Evidence(w), MinedIn(p, Evidence(w)), SequenceKey(s);
    var q, r := MinedKey(p, key), Embedding(s, p.Lim());
    assert EvidenceHas(q)(w) == q(o) && EvidenceHas(r)(w) == r(o);
    assert q(o) == HasKey(o, mined, key) && r(o) == Embeds(o, s, p.Lim());
    MinedChoicesExact(o, p.maxSteps, p.Lim(), p.Options().Cap());
    if HasKey(o, mined, key) {
      var c :| c in mined && Key(o, c) == key;
      KeyIdentifiesSequence(o, c, s);
    }
    if NothingLost(o, p.maxSteps, p.Lim(), p.Options().Cap()) {
      MinedExactlyEmbedded(o, s, p.maxSteps, p.Lim(), p.Options().Cap());
    }
  }

  /** No sequence has more supporters than windows it embeds in. */
  lemma SupportersEmbed(p: STDPParams, windows: seq<Window>, s: seq<string>)
    requires p.Valid() && PlainWindows(windows)
    requires s != [] && forall i :: 0 <= i < |s| ==> PlainSignature(s[i])
    ensures |Supporting(MineAll(p, windows), SequenceKey(s))| <= CountWindows(windows, Embedding(s, p.Lim()))
  {
    var key := SequenceKey(s);
    SupportersAreMinedWindows(p, windows, key);
    forall w | w in windows
      ensures EvidenceHas(MinedKey(p, key))(w) ==> EvidenceHas(Embedding(s, p.Lim()))(w)
    {
      MinedKeyIsEmbedding(p, w, s);
    }
    FilterMonotone(windows, EvidenceHas(MinedKey(p, key)), EvidenceHas(Embedding(s, p.Lim())));
  }

  /** Uncapped, the supporters of a sequence are exactly the windows it embeds in. */
  lemma SupportersAreEmbeddings(p: STDPParams, windows: seq<Window>, s: seq<string>)
    requires p.Valid() && PlainWindows(windows) && Uncapped(p, windows)
    requires 1 <= |s| <= p.maxSteps && forall i :: 0 <= i < |s| ==> PlainSignature(s[i])
    ensures |Supporting(MineAll(p, windows), SequenceKey(s))| == CountWindows(windows, Embedding(s, p.Lim()))
  {
    var key := SequenceKey(s);
    SupportersAreMinedWindows(p, windows, key);
    forall w | w in windows
      ensures EvidenceHas(MinedKey(p, key))(w) == EvidenceHas(Embedding(s, p.Lim()))(w)
    {
      MinedKeyIsEmbedding(p, w, s);
    }
    FilterExtensional(windows, EvidenceHas(MinedKey(p, key)), EvidenceHas(Embedding(s, p.Lim())));
  }

  ghost predicate WindowInside(w: Window, windowMs: int) {
    forall e :: e in w.preEvents ==> 0 < w.outcome.timestamp - e.timestamp <= windowMs
  }

  lemma EvidenceSpread(w: Window, windowMs: int)
    requires WindowInside(w, windowMs)
    ensures Spread(Evidence(w), windowMs - 1)
  {
    var o := Evidence(w);
    forall i, j | 0 <= i < |o| && 0 <= j < |o| ensures o[i].timestamp - o[j].timestamp <= windowMs - 1 {
      assert o[i] in o && o[j] in o;
    }
  }

  lemma MatchingVersusEmbedding(w: Window, s: seq<string>, lim: Limits, windowMs: int)
    ensures EvidenceHas(Matching(s, lim))(w) ==> EvidenceHas(Embedding(s, lim))(w)
    ensures (WindowInside(w, windowMs) && GapCannotBind(lim, windowMs)) || |s| <= 2 ==>
              EvidenceHas(Matching(s, lim))(w) == EvidenceHas(Embedding(s, lim))(w)
  {
    var o := Evidence(w);
    var q, r := Matching(s, lim), Embedding(s, lim);
    assert EvidenceHas(q)(w) == q(o) && EvidenceHas(r)(w) == r(o);
    assert q(o) == Matches(o, s, lim) && r(o) == Embeds(o, s, lim);
    OrderedPreEventsChronological(w.preEvents);
    if Matches(o, s, lim) {
      MatcherSound(o, s, lim);
    }
    if |s| <= 2 {
      MatcherComplete(o, s, lim);
    } else if WindowInside(w, windowMs) && GapCannotBind(lim, windowMs) {
      EvidenceSpread(w, windowMs);
      MatcherCompleteInWindow(o, s, lim, windowMs);
    }
  }

  ghost predicate WindowsInside(windows: seq<Window>, windowMs: int) {
    forall w :: w in windows ==> WindowInside(w, windowMs)
  }

  /** Negative windows are never overcounted, and counted exactly when the gap cannot mislead the matcher. */
  lemma NegativesAreEmbeddings(windows: seq<Window>, s: seq<string>, lim: Limits, windowMs: int)
    ensures NegativesFor(windows, s, lim).count <= CountWindows(windows, Embedding(s, lim))
    ensures (WindowsInside(windows, windowMs) && GapCannotBind(lim, windowMs)) || |s| <= 2 ==>
              NegativesFor(windows, s, lim).count == CountWindows(windows, Embedding(s, lim))
  {
    forall w | w in windows
      ensures EvidenceHas(Matching(s, lim))(w) ==> EvidenceHas(Embedding(s, lim))(w)
      ensures (WindowsInside(windows, windowMs) && GapCannotBind(lim, windowMs)) || |s| <= 2 ==>
                EvidenceHas(Matching(s, lim))(w) == EvidenceHas(Embedding(s, lim))(w)
    {
      MatchingVersusEmbedding(w, s, lim, windowMs);
    }
    FilterMonotone(windows, EvidenceHas(Matching(s, lim)), EvidenceHas(Embedding(s, lim)));
    if (WindowsInside(windows, windowMs) && GapCannotBind(lim, windowMs)) || |s| <= 2 {
      FilterExtensional(windows, EvidenceHas(Matching(s, lim)), EvidenceHas(Embedding(s, lim)));
    }
  }

  lemma OtherWindowsInside(events: seq<TemporalEvent>, status: string, windowMs: int)
    ensures WindowsInside(OtherWindows(events, status, windowMs), windowMs)
  {
    var windows := OtherWindows(events, status, windowMs);
    WindowsBeforeOver(Filter(events, HasOtherStatus(status)), events, windowMs);
    forall w | w in windows ensures WindowInside(w, windowMs) {
      assert WindowsOver(windows, events, windowMs);
    }
  }

  /** The negative count of a sequence is the number of other outcomes it precedes. */
  ghost predicate NegativesExact(events: seq<TemporalEvent>, status: string, p: STDPParams, s: seq<string>)
    requires p.Valid()
  {
    NegativesFor(OtherWindows(events, status, p.patternWindowMs), s, p.Lim()).count ==
    CountOutcomes(events, HasOtherStatus(status), p.patternWindowMs, Embedding(s, p.Lim()))
  }

  lemma NegativesMeaning(events: seq<TemporalEvent>, status: string, p: STDPParams, s: seq<string>)
    requires p.Valid()
    ensures NegativesFor(OtherWindows(events, status, p.patternWindowMs), s, p.Lim()).count <=
            CountOutcomes(events, HasOtherStatus(status), p.patternWindowMs, Embedding(s, p.Lim()))
    ensures GapCannotBind(p.Lim(), p.patternWindowMs) || |s| <= 2 ==> NegativesExact(events, status, p, s)
  {
    OtherWindowsInside(events, status, p.patternWindowMs);
    NegativesAreEmbeddings(OtherWindows(events, status, p.patternWindowMs), s, p.Lim(), p.patternWindowMs);
    CountOtherWindows(events, status, p.patternWindowMs, Embedding(s, p.Lim()));
  }

  /** The meaning of the counts, on the raw events alone. The support never exceeds the number of target outcomes
      preceded by an embedding of `s`, the negative count never exceeds that of other outcomes. Uncapped the first is
      equal; when the gap cannot bind in a window, or `s` is short, the second is. Then both together count all
      comparable outcomes preceded by one, so the pattern rate is the true fraction. */
  lemma RateMeaning(events: seq<TemporalEvent>, status: string, p: STDPParams, s: seq<string>, c: Curves)
    requires p.Valid() && DistinctIds(events) && PlainSignatures(events)
    requires s != [] && forall i :: 0 <= i < |s| ==> PlainSignature(s[i])
    ensures WellFormed(MineAll(p, TargetWindows(events, status, p.patternWindowMs)))
    ensures var w := p.patternWindowMs;
            var windows := TargetWindows(events, status, w);
            var support := SupportCount(MineAll(p, windows), SequenceKey(s), c);
            var negative := NegativesFor(OtherWindows(events, status, w), s, p.Lim()).count;
            var truth := Embedding(s, p.Lim());
            && support <= CountOutcomes(events, HasStatus(status), w, truth)
            && negative <= CountOutcomes(events, HasOtherStatus(status), w, truth)
            && CountOutcomes(events, IsOutcome, w, truth)
            == CountOutcomes(events, HasStatus(status), w, truth)
             + CountOutcomes(events, HasOtherStatus(status), w, truth)
            && (Uncapped(p, windows) && |s| <= p.maxSteps ==>
                  support == CountOutcomes(events, HasStatus(status), w, truth))
            && (GapCannotBind(p.Lim(), w) || |s| <= 2 ==>
                  negative == CountOutcomes(events, HasOtherStatus(status), w, truth))
  {
    var w := p.patternWindowMs;
    var windows := TargetWindows(events, status, w);
    var truth := Embedding(s, p.Lim());
    TargetWindowsShape(events, status, p);
    SupportCountIsSupporters(MineAll(p, windows), SequenceKey(s), c);
    SupportersEmbed(p, windows, s);
    if Uncapped(p, windows) && |s| <= p.maxSteps {
      SupportersAreEmbeddings(p, windows, s);
    }
    NegativesMeaning(events, status, p, s);
    CountTargetWindows(events, status, w, truth);
    CountOtherWindows(events, status, w, truth);
    WindowFamiliesPartition(events, status, w, truth);
  }

  // ---------- Anti-monotonicity ----------

  lemma SubsequenceOccurs(o: seq<TemporalEvent>, c: Choice, i: nat)
    requires Bounded(o, c) && i < |c|
    ensures |SignaturesAt(o, c)| == |c| && Occurring(SignaturesAt(o, c)[i])(o)
  {
    SignaturesAtIndex(o, c);
    assert o[c[i]] in o;
  }

  /** A sequence is supported by no more windows than any of its prefixes, even when the search was capped. */
  lemma SupportAntiMonotone(p: STDPParams, windows: seq<Window>, s: seq<string>, n: nat)
    requires p.Valid() && PlainWindows(windows)
    requires 1 <= n <= |s| && forall i :: 0 <= i < |s| ==> PlainSignature(s[i])
    ensures |Supporting(MineAll(p, windows), SequenceKey(s))| <= |Supporting(MineAll(p, windows), SequenceKey(s[..n]))|
  {
    var key, prefix := SequenceKey(s), SequenceKey(s[..n]);
    SupportersAreMinedWindows(p, windows, key);
    SupportersAreMinedWindows(p, windows, prefix);
    forall w | w in windows && EvidenceHas(MinedKey(p, key))(w) ensures EvidenceHas(MinedKey(p, prefix))(w) {
      MinedPrefixInWindow(p, w, s, n);
    }
    FilterMonotone(windows, EvidenceHas(MinedKey(p, key)), EvidenceHas(MinedKey(p, prefix)));
  }

  /** The choice behind a mined sequence. */
  lemma MinedChoiceOf(p: STDPParams, w: Window, s: seq<string>) returns (c: Choice)
    requires p.Valid() && PlainSignatures(w.preEvents) && EvidenceHas(MinedKey(p, SequenceKey(s)))(w)
    requires s != [] && forall i :: 0 <= i < |s| ==> PlainSignature(s[i])
    ensures c in MinedIn(p, Evidence(w)) && SignaturesAt(Evidence(w), c) == s
    ensures Admissible(Evidence(w), c, p.Lim())
  {
    var o, q := Evidence(w), MinedKey(p, SequenceKey(s));
    assert EvidenceHas(q)(w) == q(o);
    c :| c in MinedIn(p, o) && Key(o, c) == SequenceKey(s);
    MinedChoicesExact(o, p.maxSteps, p.Lim(), p.Options().Cap());
    KeyIdentifiesSequence(o, c, s);
  }

  lemma PrefixKeyMined(o: seq<TemporalEvent>, maxSteps: nat, lim: Limits, cap: nat, c: Choice, n: nat)
    requires maxSteps >= 1 && c in MinedChoices(o, maxSteps, lim, cap) && Admissible(o, c, lim) && 1 <= n <= |c|
    ensures |SignaturesAt(o, c)| == |c|
    ensures HasKey(o, MinedChoices(o, maxSteps, lim, cap), SequenceKey(SignaturesAt(o, c)[..n]))
  {
    AdmissiblePrefix(o, c, n, lim);
    MinedPrefixClosed(o, maxSteps, lim, cap, c, n);
  }

  lemma MinedPrefixInWindow(p: STDPParams, w: Window, s: seq<string>, n: nat)
    requires p.Valid() && PlainSignatures(w.preEvents) && EvidenceHas(MinedKey(p, SequenceKey(s)))(w)
    requires 1 <= n <= |s| && forall i :: 0 <= i < |s| ==> PlainSignature(s[i])
    ensures EvidenceHas(MinedKey(p, SequenceKey(s[..n])))(w)
  {
    var o, r := Evidence(w), MinedKey(p, SequenceKey(s[..n]));
    var c := MinedChoiceOf(p, w, s);
    SignaturesAtIndex(o, c);
    PrefixKeyMined(o, p.maxSteps, p.Lim(), p.Options().Cap(), c, n);
    assert r(o) == HasKey(o, MinedIn(p, o), SequenceKey(s[..n]));
    assert EvidenceHas(r)(w) == r(o);
  }

  lemma MinedComponentInWindow(p: STDPParams, w: Window, s: seq<string>, i: nat)
    requires p.Valid() && PlainSignatures(w.preEvents) && EvidenceHas(MinedKey(p, SequenceKey(s)))(w)
    requires i < |s| && forall k :: 0 <= k < |s| ==> PlainSignature(s[k])
    ensures EvidenceHas(Occurring(s[i]))(w)
  {
    var o, z := Evidence(w), Occurring(s[i]);
    var c := MinedChoiceOf(p, w, s);
    SignaturesAtIndex(o, c);
    SubsequenceOccurs(o, c, i);
    assert EvidenceHas(z)(w) == z(o);
  }

  /** A sequence is supported by no more windows than any of its signatures occurs in. */
  lemma SupportBelowComponents(p: STDPParams, windows: seq<Window>, s: seq<string>, i: nat)
    requires p.Valid() && PlainWindows(windows)
    requires i < |s| && forall k :: 0 <= k < |s| ==> PlainSignature(s[k])
    ensures |Supporting(MineAll(p, windows), SequenceKey(s))| <= CountWindows(windows, Occurring(s[i]))
  {
    var key := SequenceKey(s);
    SupportersAreMinedWindows(p, windows, key);
    forall w | w in windows && EvidenceHas(MinedKey(p, key))(w) ensures EvidenceHas(Occurring(s[i]))(w) {
      MinedComponentInWindow(p, w, s, i);
    }
    FilterMonotone(windows, EvidenceHas(MinedKey(p, key)), EvidenceHas(Occurring(s[i])));
  }

  lemma {:induction false} ScanPrefix(o: seq<TemporalEvent>, s: seq<string>, lim: Limits, start: nat, prev: nat,
                                      cursor: nat, index: nat, n: nat)
    requires start < |o| && prev < |o| && index <= |o| && cursor <= n <= |s|
    requires ScanFrom(o, s, lim, start, prev, cursor, index)
    ensures ScanFrom(o, s[..n], lim, start, prev, cursor, index)
    decreases |o| - index
  {
    if cursor < n {
      if PreEventSignature(o[index]) != s[cursor] {
        ScanPrefix(o, s, lim, start, prev, cursor, index + 1, n);
      } else {
        ScanPrefix(o, s, lim, start, index, cursor + 1, index + 1, n);
      }
    }
  }

  lemma MatchesPrefixAndComponents(w: Window, s: seq<string>, lim: Limits, n: nat)
    requires EvidenceHas(Matching(s, lim))(w) && 1 <= n <= |s|
    ensures EvidenceHas(Matching(s[..n], lim))(w)
    ensures forall i :: 0 <= i < |s| ==> EvidenceHas(Occurring(s[i]))(w)
  {
    var o := Evidence(w);
    var q, r := Matching(s, lim), Matching(s[..n], lim);
    assert EvidenceHas(q)(w) == q(o) && EvidenceHas(r)(w) == r(o);
    var start :| 0 <= start < |o| && MatchesAt(o, s, lim, start);
    ScanPrefix(o, s, lim, start, start, 1, start + 1, n);
    assert MatchesAt(o, s[..n], lim, start);
    MatcherSound(o, s, lim);
    var c :| Admissible(o, c, lim) && SignaturesAt(o, c) == s;
    SignaturesAtIndex(o, c);
    forall i | 0 <= i < |s| ensures EvidenceHas(Occurring(s[i]))(w) {
      SubsequenceOccurs(o, c, i);
      var z := Occurring(s[i]);
      assert EvidenceHas(z)(w) == z(o);
    }
  }

  /** The same on the negative side, whatever the limits. */
  lemma NegativesAntiMonotone(windows: seq<Window>, s: seq<string>, lim: Limits, n: nat, i: nat)
    requires 1 <= n <= |s| && i < |s|
    ensures NegativesFor(windows, s, lim).count <= NegativesFor(windows, s[..n], lim).count
    ensures NegativesFor(windows, s, lim).count <= CountWindows(windows, Occurring(s[i]))
  {
    forall w | EvidenceHas(Matching(s, lim))(w)
      ensures EvidenceHas(Matching(s[..n], lim))(w) && EvidenceHas(Occurring(s[i]))(w)
    {
      MatchesPrefixAndComponents(w, s, lim, n);
    }
    FilterMonotone(windows, EvidenceHas(Matching(s, lim)), EvidenceHas(Matching(s[..n], lim)));
    FilterMonotone(windows, EvidenceHas(Matching(s, lim)), EvidenceHas(Occurring(s[i])));
  }

  // ---------- Single signatures ----------

  lemma SingletonEmbeds(w: Window, signature: string, lim: Limits)
    ensures EvidenceHas(Embedding([signature], lim))(w) == EvidenceHas(Occurring(signature))(w)
  {
    var o := Evidence(w);
    var q, r := Embedding([signature], lim), Occurring(signature);
    assert EvidenceHas(q)(w) == q(o) && EvidenceHas(r)(w) == r(o);
    if Embeds(o, [signature], lim) {
      var c :| Admissible(o, c, lim) && SignaturesAt(o, c) == [signature];
      SubsequenceOccurs(o, c, 0);
    }
    if r(o) {
      var e :| e in o && PreEventSignature(e) == signature;
      var i :| 0 <= i < |o| && o[i] == e;
      SignaturesAtIndex(o, [i]);
      assert SignaturesAt(o, [i]) == [signature];
      assert Admissible(o, [i], lim);
    }
  }

  /** Uncapped, a single signature has the counts of its component, so it has no lift over it. */
  lemma SingletonCounts(p: STDPParams, windows: seq<Window>, others: seq<Window>, signature: string)
    requires p.Valid() && PlainWindows(windows) && Uncapped(p, windows) && PlainSignature(signature)
    ensures |Supporting(MineAll(p, windows), SequenceKey([signature]))| == CountWindows(windows, Occurring(signature))
    ensures NegativesFor(others, [signature], p.Lim()).count == CountWindows(others, Occurring(signature))
  {
    SupportersAreEmbeddings(p, windows, [signature]);
    NegativesAreEmbeddings(others, [signature], p.Lim(), p.patternWindowMs);
    forall w ensures EvidenceHas(Embedding([signature], p.Lim()))(w) == EvidenceHas(Occurring(signature))(w) {
      SingletonEmbeds(w, signature, p.Lim());
    }
    FilterExtensional(windows, EvidenceHas(Embedding([signature], p.Lim())), EvidenceHas(Occurring(signature)));
    FilterExtensional(others, EvidenceHas(Embedding([signature], p.Lim())), EvidenceHas(Occurring(signature)));
  }
}
