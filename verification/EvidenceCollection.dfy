/** The three collecting passes of the scorer: mined candidates of the target windows, matched windows of the
    other outcomes, and the counts of single signatures. */
module EvidenceCollection {
  import opened Collections
  import opened TemporalEvents
  import opened EpisodeChoices
  import opened EpisodeMiner
  import NegativeEvidence
  import opened OutcomeWindows
  import opened CandidateTally

  datatype STDPParams = STDPParams(
    patternWindowMs: int,
    preTraceDecayMs: int,
    learningRate: real,
    activationThreshold: real,
    minSupport: int,
    maxSteps: int,
    maxSpan: Option<int>,
    maxGap: Option<int>,
    maxCandidates: Option<int>)
  {
    /** The numeric checks of `assertParams`. */
    predicate Valid() {
      && patternWindowMs > 0 && preTraceDecayMs > 0 && learningRate > 0.0 && minSupport > 0 && maxSteps > 0
      && (maxSpan.Some? ==> maxSpan.value >= 0)
      && (maxGap.Some? ==> maxGap.value >= 0)
      && (maxCandidates.Some? ==> maxCandidates.value > 0)
    }

    /** A missing span limit falls back to the window. */
    function Options(): MiningOptions {
      MiningOptions(maxSteps, Some(if maxSpan.Some? then maxSpan.value else patternWindowMs), maxGap, maxCandidates)
    }

    function Lim(): Limits {
      Options().Limits()
    }
  }

  // ---------- Positive candidates ----------

  ghost function MinedIn(p: STDPParams, o: seq<TemporalEvent>): seq<Choice>
    requires p.Valid()
  {
    MinedChoices(o, p.maxSteps, p.Lim(), p.Options().Cap())
  }

  ghost function MineWindow(p: STDPParams, w: Window): MinedWindow
    requires p.Valid()
  {
    MinedWindow(w.outcome, EpisodesAt(Evidence(w), MinedIn(p, Evidence(w))))
  }

  ghost function MineAll(p: STDPParams, windows: seq<Window>): (r: seq<MinedWindow>)
    requires p.Valid()
    ensures |r| == |windows|
  {
    if windows == [] then []
    else MineAll(p, windows[..|windows| - 1]) + [MineWindow(p, windows[|windows| - 1])]
  }

  ghost predicate PlainWindows(windows: seq<Window>) {
    forall w :: w in windows ==> PlainSignatures(w.preEvents)
  }

  lemma EpisodeWellFormed(o: seq<TemporalEvent>, c: Choice)
    requires PlainSignatures(o) && Bounded(o, c) && c != []
    ensures WellFormedEpisode(EpisodeFor(EventsAt(o, c)))
  {
    SignaturesAtIndex(o, c);
    SplitJoin(SignaturesAt(o, c), UNIT_SEPARATOR);
  }

  /** Every mined episode of a plain window is well formed, and no key occurs twice. */
  lemma MineWindowShape(p: STDPParams, w: Window)
    requires p.Valid() && PlainSignatures(w.preEvents)
    ensures forall e :: e in MineWindow(p, w).episodes ==> WellFormedEpisode(e)
    ensures DistinctEpisodeKeys(MineWindow(p, w).episodes)
  {
    var o, mined := Evidence(w), MinedIn(p, Evidence(w));
    var episodes := EpisodesAt(o, mined);
    MinedChoicesExact(o, p.maxSteps, p.Lim(), p.Options().Cap());
    forall i | 0 <= i < |mined|
      ensures episodes[i] == EpisodeFor(EventsAt(o, mined[i])) && WellFormedEpisode(episodes[i])
      ensures episodes[i].key == Key(o, mined[i])
    {
      EpisodesAtIndex(o, mined, i);
      assert mined[i] in mined;
      EpisodeWellFormed(o, mined[i]);
    }
  }

  lemma {:induction false} MineAllWellFormed(p: STDPParams, windows: seq<Window>)
    requires p.Valid() && PlainWindows(windows)
    ensures WellFormed(MineAll(p, windows))
  {
    if windows != [] {
      var n := |windows| - 1;
      assert windows[n] in windows;
      MineAllWellFormed(p, windows[..n]);
      MineWindowShape(p, windows[n]);
    }
  }

  /** Mining one window; the scorer sorts the window once more before it mines it. */
  method MinePositiveWindow(w: Window, p: STDPParams) returns (episodes: seq<MinedEpisode>)
    requires p.Valid()
    ensures MinedWindow(w.outcome, episodes) == MineWindow(p, w)
  {
    OrderedPreEventsResort(w.preEvents);
    var orderedPreEvents := SortStable(w.preEvents);
    var mined := MineOrderedEpisodes(orderedPreEvents, p.Options());
    episodes := mined.value;
  }

  lemma MineAllSnoc(p: STDPParams, windows: seq<Window>, n: nat)
    requires p.Valid() && PlainWindows(windows) && n < |windows|
    ensures var mined, next := MineAll(p, windows[..n]), MineWindow(p, windows[n]);
            && MineAll(p, windows[..n + 1]) == mined + [next]
            && WellFormed(mined) && WellFormed(mined + [next]) && DistinctEpisodeKeys(next.episodes)
            && KeyOrder(mined + [next]) == AppendNew(KeyOrder(mined), next.episodes)
  {
    var mined, next := MineAll(p, windows[..n]), MineWindow(p, windows[n]);
    assert windows[..n + 1][..n] == windows[..n];
    assert PlainWindows(windows[..n]) && PlainWindows(windows[..n + 1]);
    assert (mined + [next])[..|mined|] == mined;
    assert windows[n] in windows;
    MineWindowShape(p, windows[n]);
    MineAllWellFormed(p, windows[..n]);
    MineAllWellFormed(p, windows[..n + 1]);
  }

  method CollectPositiveCandidates(windows: seq<Window>, p: STDPParams, c: Curves)
    returns (order: seq<string>, candidates: map<string, Accumulator>)
    requires p.Valid() && PlainWindows(windows)
    ensures WellFormed(MineAll(p, windows)) && Tallied(candidates, MineAll(p, windows), c)
    ensures order == KeyOrder(MineAll(p, windows)) && forall key :: key in order <==> key in candidates
  {
    order, candidates := [], map[];
    ghost var mined := [];
    for n := 0 to |windows|
      invariant mined == MineAll(p, windows[..n]) && WellFormed(mined)
      invariant Tallied(candidates, mined, c)
      invariant order == KeyOrder(mined) && forall key :: key in order <==> key in candidates
    {
      MineAllSnoc(p, windows, n);
      var episodes := MinePositiveWindow(windows[n], p);
      var w := MinedWindow(windows[n].outcome, episodes);
      order, candidates := AddWindow(mined, w, c, order, candidates);
      mined := mined + [w];
    }
    assert windows[..|windows|] == windows;
  }

  // ---------- Negative support ----------

  datatype NegativeSupport = NegativeSupport(count: nat, eventIds: set<string>)

  ghost function Matching(s: seq<string>, lim: Limits): seq<TemporalEvent> -> bool {
    (o: seq<TemporalEvent>) => NegativeEvidence.Matches(o, s, lim)
  }

  ghost function WindowEventIds(windows: seq<Window>): set<string> {
    set w, e | w in windows && e in w.preEvents :: e.id
  }

  /** How many windows the matcher accepts, and the ids of the events in them. */
  ghost function NegativesFor(windows: seq<Window>, s: seq<string>, lim: Limits): NegativeSupport {
    NegativeSupport(CountWindows(windows, Matching(s, lim)),
                    WindowEventIds(Filter(windows, EvidenceHas(Matching(s, lim)))))
  }

  /** The inner loop for one candidate. */
  method CountNegatives(windows: seq<Window>, s: seq<string>, lim: Limits) returns (negative: NegativeSupport)
    ensures negative == NegativesFor(windows, s, lim)
  {
    negative := NegativeSupport(0, {});
    ghost var accepts := EvidenceHas(Matching(s, lim));
    ghost var taken: seq<Window> := [];
    for n := 0 to |windows|
      invariant taken == Filter(windows[..n], accepts)
      invariant negative == NegativeSupport(|taken|, WindowEventIds(taken))
    {
      var w := windows[n];
      FilterSnoc(windows, n, accepts);
      var found := NegativeEvidence.ContainsOrderedEpisode(w.preEvents, s, lim);
      AcceptedWindow(w, s, lim);
      if found {
        negative := NegativeSupport(negative.count + 1, negative.eventIds + (set e | e in w.preEvents :: e.id));
        WindowEventIdsSnoc(taken, w);
        taken := taken + [w];
      }
    }
    assert windows[..|windows|] == windows;
  }

  lemma AcceptedWindow(w: Window, s: seq<string>, lim: Limits)
    ensures EvidenceHas(Matching(s, lim))(w) <==> NegativeEvidence.Matches(OrderedPreEvents(w.preEvents), s, lim)
  {
    var q := Matching(s, lim);
    assert EvidenceHas(q)(w) == q(Evidence(w));
    assert q(Evidence(w)) == NegativeEvidence.Matches(Evidence(w), s, lim);
  }

  lemma WindowEventIdsSnoc(windows: seq<Window>, w: Window)
    ensures WindowEventIds(windows + [w]) == WindowEventIds(windows) + (set e | e in w.preEvents :: e.id)
  {
    forall id | id in WindowEventIds(windows) ensures id in WindowEventIds(windows + [w]) {
      var v, e :| v in windows && e in v.preEvents && e.id == id;
      assert v in windows + [w];
    }
    forall e | e in w.preEvents ensures e.id in WindowEventIds(windows + [w]) {
      assert w in windows + [w];
    }
  }

  method CollectNegativeSupport(windows: seq<Window>, order: seq<string>, candidates: map<string, Accumulator>,
                                p: STDPParams)
    returns (supports: map<string, NegativeSupport>)
    requires forall key :: key in order <==> key in candidates
    ensures supports.Keys == candidates.Keys
    ensures forall key :: key in candidates ==>
              supports[key] == NegativesFor(windows, candidates[key].sequence, p.Lim())
  {
    supports := map[];
    for n := 0 to |order|
      invariant supports.Keys == set key | key in order[..n]
      invariant forall key :: key in supports ==>
                  key in candidates && supports[key] == NegativesFor(windows, candidates[key].sequence, p.Lim())
    {
      assert order[n] in order && order[..n + 1] == order[..n] + [order[n]];
      var negative := CountNegatives(windows, candidates[order[n]].sequence, p.Lim());
      supports := supports[order[n] := negative];
    }
    assert order[..|order|] == order;
  }

  // ---------- Component evidence ----------

  datatype ComponentCount = ComponentCount(positive: nat, negative: nat)

  /** The distinct signatures of the pre-events, in order of first occurrence (a JavaScript set). */
  function SignaturesInWindow(events: seq<TemporalEvent>): (r: seq<string>)
    ensures NoDuplicates(r)
    ensures forall s :: s in r <==> exists e :: e in events && IsPreEvent(e) && PreEventSignature(e) == s
  {
    if events == [] then []
    else
      var n := |events| - 1;
      var before, last := SignaturesInWindow(events[..n]), events[n];
      assert forall e :: e in events <==> e in events[..n] || e == last;
      if IsPreEvent(last) && PreEventSignature(last) !in before then before + [PreEventSignature(last)] else before
  }

  /** Does a signature occur among the evidence? */
  ghost function Occurring(signature: string): seq<TemporalEvent> -> bool {
    (o: seq<TemporalEvent>) => exists e :: e in o && PreEventSignature(e) == signature
  }

  lemma SignaturesInWindowOccur(w: Window, signature: string)
    ensures signature in SignaturesInWindow(w.preEvents) <==> EvidenceHas(Occurring(signature))(w)
  {
    if e :| e in Evidence(w) && PreEventSignature(e) == signature {
      assert e in w.preEvents && IsPreEvent(e);
    }
    if signature in SignaturesInWindow(w.preEvents) {
      var e :| e in w.preEvents && IsPreEvent(e) && PreEventSignature(e) == signature;
      assert e in Evidence(w);
    }
  }

  function CountOf(counts: map<string, ComponentCount>, signature: string): ComponentCount {
    if signature in counts then counts[signature] else ComponentCount(0, 0)
  }

  function Bump(before: ComponentCount, positive: bool): ComponentCount {
    if positive then before.(positive := before.positive + 1) else before.(negative := before.negative + 1)
  }

  /** Adds one window's signatures, each once. */
  method AddSignatures(counts: map<string, ComponentCount>, signatures: seq<string>, positive: bool)
    returns (r: map<string, ComponentCount>)
    requires NoDuplicates(signatures)
    ensures Added(counts, r, signatures, positive)
  {
    r := counts;
    for n := 0 to |signatures|
      invariant Added(counts, r, signatures[..n], positive)
    {
      AddedStep(counts, r, signatures, n, positive);
      r := r[signatures[n] := Bump(CountOf(r, signatures[n]), positive)];
    }
    assert signatures[..|signatures|] == signatures;
  }

  lemma AddedStep(counts: map<string, ComponentCount>, r: map<string, ComponentCount>, signatures: seq<string>, n: nat,
                  positive: bool)
    requires n < |signatures| && NoDuplicates(signatures) && Added(counts, r, signatures[..n], positive)
    ensures Added(counts, r[signatures[n] := Bump(CountOf(r, signatures[n]), positive)], signatures[..n + 1], positive)
  {
    var s := signatures[n];
    var next := r[s := Bump(CountOf(r, s), positive)];
    assert s !in signatures[..n];
    assert forall t :: t in signatures[..n + 1] <==> t in signatures[..n] || t == s;
    forall t
      ensures CountOf(next, t) ==
              if t in signatures[..n + 1] then Bump(CountOf(counts, t), positive) else CountOf(counts, t)
    {
      assert CountOf(next, t) == if t == s then Bump(CountOf(r, s), positive) else CountOf(r, t);
    }
  }

  /** The counts of all signatures over the two families. */
  ghost predicate Counted(counts: map<string, ComponentCount>, positives: seq<Window>, negatives: seq<Window>) {
    forall s ::
      && CountOf(counts, s) == ComponentCount(CountWindows(positives, Occurring(s)),
                                              CountWindows(negatives, Occurring(s)))
      && (s in counts <==> CountOf(counts, s) != ComponentCount(0, 0))
  }

  /** In how many windows of each family does a signature occur? */
  method CollectComponentEvidence(positiveWindows: seq<Window>, negativeWindows: seq<Window>)
    returns (counts: map<string, ComponentCount>)
    ensures Counted(counts, positiveWindows, negativeWindows)
  {
    counts := map[];
    for n := 0 to |positiveWindows|
      invariant Counted(counts, positiveWindows[..n], [])
    {
      var next := AddSignatures(counts, SignaturesInWindow(positiveWindows[n].preEvents), true);
      CountedPositive(counts, next, positiveWindows, n);
      counts := next;
    }
    assert positiveWindows[..|positiveWindows|] == positiveWindows;
    for n := 0 to |negativeWindows|
      invariant Counted(counts, positiveWindows, negativeWindows[..n])
    {
      var next := AddSignatures(counts, SignaturesInWindow(negativeWindows[n].preEvents), false);
      CountedNegative(counts, next, positiveWindows, negativeWindows, n);
      counts := next;
    }
    assert negativeWindows[..|negativeWindows|] == negativeWindows;
  }

  lemma CountWindowsSnoc(windows: seq<Window>, n: nat, s: string)
    requires n < |windows|
    ensures CountWindows(windows[..n + 1], Occurring(s)) ==
            CountWindows(windows[..n], Occurring(s)) + if s in SignaturesInWindow(windows[n].preEvents) then 1 else 0
  {
    FilterSnoc(windows, n, EvidenceHas(Occurring(s)));
    SignaturesInWindowOccur(windows[n], s);
  }

  ghost predicate Added(counts: map<string, ComponentCount>, next: map<string, ComponentCount>,
                        signatures: seq<string>, positive: bool) {
    && (forall s :: s in next <==> s in counts || s in signatures)
    && forall s :: CountOf(next, s) ==
                   if s in signatures then Bump(CountOf(counts, s), positive) else CountOf(counts, s)
  }

  lemma CountedPositive(counts: map<string, ComponentCount>, next: map<string, ComponentCount>,
                        positives: seq<Window>, n: nat)
    requires n < |positives| && Counted(counts, positives[..n], [])
    requires Added(counts, next, SignaturesInWindow(positives[n].preEvents), true)
    ensures Counted(next, positives[..n + 1], [])
  {
    forall s
      ensures CountOf(next, s) == ComponentCount(CountWindows(positives[..n + 1], Occurring(s)),
                                                 CountWindows([], Occurring(s)))
      ensures s in next <==> CountOf(next, s) != ComponentCount(0, 0)
    {
      CountWindowsSnoc(positives, n, s);
      assert CountOf(counts, s) == ComponentCount(CountWindows(positives[..n], Occurring(s)),
                                                  CountWindows([], Occurring(s)));
    }
  }

  lemma CountedNegative(counts: map<string, ComponentCount>, next: map<string, ComponentCount>,
                        positives: seq<Window>, negatives: seq<Window>, n: nat)
    requires n < |negatives| && Counted(counts, positives, negatives[..n])
    requires Added(counts, next, SignaturesInWindow(negatives[n].preEvents), false)
    ensures Counted(next, positives, negatives[..n + 1])
  {
    forall s
      ensures CountOf(next, s) == ComponentCount(CountWindows(positives, Occurring(s)),
                                                 CountWindows(negatives[..n + 1], Occurring(s)))
      ensures s in next <==> CountOf(next, s) != ComponentCount(0, 0)
    {
      CountWindowsSnoc(negatives, n, s);
      assert CountOf(counts, s) == ComponentCount(CountWindows(positives, Occurring(s)),
                                                  CountWindows(negatives[..n], Occurring(s)));
    }
  }
}
