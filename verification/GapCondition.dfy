/** When the negative counts of the learner are the true ones: the exact condition on its gap limit. */
module GapCondition {
  import opened Collections
  import opened TemporalEvents
  import opened EpisodeChoices
  import opened NegativeEvidence
  import opened OutcomeWindows
  import opened CandidateTally
  import opened EvidenceCollection
  import SupportTheorems
  import opened PatternRates
  import HypothesisTheorems

  // ---------- Which keys the learner counts negatives for ----------

  lemma KeyOrderMined(p: STDPParams, windows: seq<Window>, key: string)
    requires p.Valid() && PlainWindows(windows)
    ensures key in KeyOrder(MineAll(p, windows)) <==> exists w :: w in windows && EvidenceHas(MinedKey(p, key))(w)
  {
    var ws, c, mined := MineAll(p, windows), Curves(_ => 0.0, x => x, _ => false), EvidenceHas(MinedKey(p, key));
    MineAllWellFormed(p, windows);
    HypothesisTheorems.KeyOrderMembers(ws, key, c);
    SupportTheorems.TallySummarizes(ws, key, c);
    SupportersAreMinedWindows(p, windows, key);
    var kept := Filter(windows, mined);
    if kept != [] {
      assert kept[0] in kept;
    }
  }

  /** Its prefixes were mined too, so a mined choice is no longer than the cap; here for lengths up to three. */
  lemma MinedWithinCap(o: seq<TemporalEvent>, maxSteps: nat, lim: Limits, cap: nat, d: Choice)
    requires maxSteps >= 1 && PlainSignatures(o) && d in MinedChoices(o, maxSteps, lim, cap)
    ensures |d| <= maxSteps && (cap <= 2 ==> |d| <= 2)
  {
    var mined := MinedChoices(o, maxSteps, lim, cap);
    MinedChoicesExact(o, maxSteps, lim, cap);
    if |d| >= 3 {
      var i := PrefixKept(o, maxSteps, lim, cap, d, 1);
      var j := PrefixKept(o, maxSteps, lim, cap, d, 2);
      var k := PrefixKept(o, maxSteps, lim, cap, d, 3);
      assert i != j && j != k && i != k;
    }
  }

  /** Where the key of a prefix was kept, and how long what was kept is. */
  lemma PrefixKept(o: seq<TemporalEvent>, maxSteps: nat, lim: Limits, cap: nat, d: Choice, n: nat) returns (i: nat)
    requires maxSteps >= 1 && PlainSignatures(o) && d in MinedChoices(o, maxSteps, lim, cap) && 1 <= n <= |d|
    ensures i < |MinedChoices(o, maxSteps, lim, cap)| && |MinedChoices(o, maxSteps, lim, cap)[i]| == n
  {
    var mined := MinedChoices(o, maxSteps, lim, cap);
    MinedChoicesExact(o, maxSteps, lim, cap);
    MinedPrefixClosed(o, maxSteps, lim, cap, d, n);
    var c :| c in mined && Key(o, c) == Key(o, d[..n]);
    AdmissiblePrefix(o, d, n, lim);
    SignaturesAtIndex(o, d[..n]);
    ChoiceIsPlain(o, d[..n]);
    KeyIdentifiesSequence(o, c, SignaturesAt(o, d[..n]));
    SignaturesAtIndex(o, c);
    i :| 0 <= i < |mined| && mined[i] == c;
  }

  /** A mined key has at most `max_steps` signatures, and at most two under a cap of two. */
  lemma MinedKeyLength(p: STDPParams, w: Window, key: string)
    requires p.Valid() && PlainSignatures(w.preEvents) && EvidenceHas(MinedKey(p, key))(w)
    ensures |Split(key, UNIT_SEPARATOR)| <= p.maxSteps
    ensures p.Options().Cap() <= 2 ==> |Split(key, UNIT_SEPARATOR)| <= 2
  {
    var o, q := Evidence(w), MinedKey(p, key);
    assert q(o) == HasKey(o, MinedIn(p, o), key);
    var d :| d in MinedIn(p, o) && Key(o, d) == key;
    MinedWithinCap(o, p.maxSteps, p.Lim(), p.Options().Cap(), d);
    MinedChoicesExact(o, p.maxSteps, p.Lim(), p.Options().Cap());
    SignaturesAtIndex(o, d);
    ChoiceIsPlain(o, d);
    SplitJoin(SignaturesAt(o, d), UNIT_SEPARATOR);
  }

  // ---------- A scene with one other outcome and one target outcome ----------

  /** A sorted list of events without outcomes, all of them in the window before an outcome. */
  ghost predicate FillsWindow(o: seq<TemporalEvent>, last: TemporalEvent, windowMs: int) {
    && SortedBy(o, EventLeq)
    && (forall e :: e in o ==> IsPreEvent(e) && Precedes(last, windowMs)(e))
  }

  /** The list `early` before the other outcome `other`, and more than a window later the list `late` before
      `target`. */
  datatype Scene = Scene(early: seq<TemporalEvent>, other: TemporalEvent, late: seq<TemporalEvent>,
                         target: TemporalEvent)
  {
    function Events(): seq<TemporalEvent> {
      early + [other] + (late + [target])
    }

    ghost predicate Apart(status: string, windowMs: int) {
      && FillsWindow(early, other, windowMs) && FillsWindow(late, target, windowMs)
      && HasOtherStatus(status)(other) && HasStatus(status)(target)
      && (forall e :: e in early + [other] ==> !Precedes(target, windowMs)(e))
      && (forall e :: e in late + [target] ==> !Precedes(other, windowMs)(e))
      && !Precedes(other, windowMs)(other) && !Precedes(target, windowMs)(target)
    }
  }

  lemma FilterOneSide(a: seq<TemporalEvent>, x: TemporalEvent, b: seq<TemporalEvent>, keep: TemporalEvent -> bool)
    requires (forall e :: e in a ==> keep(e)) && !keep(x) && forall e :: e in b ==> !keep(e)
    ensures Filter(a + [x] + b, keep) == a && Filter(b + (a + [x]), keep) == a
  {
    FilterKeepsAll(a, keep);
    FilterKeepsNone([x], keep);
    FilterKeepsNone(b, keep);
    FilterAppend(a, [x], keep);
    FilterAppend(a + [x], b, keep);
    FilterAppend(b, a + [x], keep);
  }

  lemma SceneEvidence(x: Scene, status: string, windowMs: int)
    requires x.Apart(status, windowMs)
    ensures EvidenceBefore(x.Events(), x.other, windowMs) == x.early
    ensures EvidenceBefore(x.Events(), x.target, windowMs) == x.late
  {
    FilterOneSide(x.early, x.other, x.late + [x.target], Precedes(x.other, windowMs));
    FilterOneSide(x.late, x.target, x.early + [x.other], Precedes(x.target, windowMs));
    OrderedIsFixed(x.early);
    OrderedIsFixed(x.late);
  }

  /** If the early list embeds the sequence but does not match it, its negative count is wrong. */
  lemma SceneMiscount(x: Scene, status: string, p: STDPParams, s: seq<string>)
    requires p.Valid() && x.Apart(status, p.patternWindowMs)
    requires Embeds(x.early, s, p.Lim()) && !Matches(x.early, s, p.Lim())
    ensures !NegativesExact(x.Events(), status, p, s)
  {
    var events, w, select := x.Events(), p.patternWindowMs, HasOtherStatus(status);
    var q, r := Matching(s, p.Lim()), Embedding(s, p.Lim());
    SceneEvidence(x, status, w);
    CountOtherWindows(events, status, w, q);
    forall e | e in events ensures !SelectedWith(select, events, w, q)(e) {
      assert e in x.early || e == x.other || e in x.late || e == x.target;
    }
    FilterKeepsNone(events, SelectedWith(select, events, w, q));
    assert x.other in events && SelectedWith(select, events, w, r)(x.other);
    assert x.other in Filter(events, SelectedWith(select, events, w, r));
  }

  lemma TargetWindowOf(events: seq<TemporalEvent>, status: string, windowMs: int, outcome: TemporalEvent)
    returns (w: Window)
    requires DistinctIds(events) && outcome in events && HasStatus(status)(outcome)
    ensures w in TargetWindows(events, status, windowMs) && Evidence(w) == EvidenceBefore(events, outcome, windowMs)
  {
    var ordered := SortStable(events);
    PermutationBasics(ordered, events);
    var outcomes := Filter(ordered, HasStatus(status));
    var i :| 0 <= i < |outcomes| && outcomes[i] == outcome;
    WindowsBeforeIndex(outcomes, ordered, windowMs, i);
    w := WindowsBefore(outcomes, ordered, windowMs)[i];
    EvidencePermutation(events, ordered, outcome, windowMs);
  }

  /** A key mined from `m` is one the learner counts negatives for. */
  lemma SceneKey(events: seq<TemporalEvent>, m: seq<TemporalEvent>, target: TemporalEvent, status: string,
                 p: STDPParams, key: string)
    requires p.Valid() && DistinctIds(events) && PlainSignatures(events)
    requires target in events && HasStatus(status)(target) && EvidenceBefore(events, target, p.patternWindowMs) == m
    requires HasKey(m, MinedIn(p, m), key)
    ensures key in KeyOrder(MineAll(p, TargetWindows(events, status, p.patternWindowMs)))
  {
    var windows, q := TargetWindows(events, status, p.patternWindowMs), MinedKey(p, key);
    var w := TargetWindowOf(events, status, p.patternWindowMs, target);
    TargetWindowsShape(events, status, p);
    assert EvidenceHas(q)(w) == q(m) == HasKey(m, MinedIn(p, m), key);
    KeyOrderMined(p, windows, key);
  }

  // ---------- Three events at one time ----------

  /** With room for three steps and three candidates the whole list is mined. */
  lemma ThreeMined(m: seq<TemporalEvent>, maxSteps: nat, lim: Limits, cap: nat)
    requires |m| == 3 && m[0].timestamp == m[1].timestamp == m[2].timestamp
    requires maxSteps >= 3 && cap >= 3 && Within(0, lim.maxSpan) && Within(0, lim.maxGap)
    ensures HasKey(m, MinedChoices(m, maxSteps, lim, cap), Key(m, [0, 1, 2]))
  {
    MinedChoicesExact(m, maxSteps, lim, cap);
    AllThreeMinable(m, maxSteps, lim);
    ThreeAccounted(m, maxSteps, lim, cap, MinedChoices(m, maxSteps, lim, cap));
  }

  lemma AllThreeMinable(m: seq<TemporalEvent>, maxSteps: nat, lim: Limits)
    requires |m| == 3 && m[0].timestamp == m[1].timestamp == m[2].timestamp
    requires maxSteps >= 3 && Within(0, lim.maxSpan) && Within(0, lim.maxGap)
    ensures Minable(m, [0, 1, 2], maxSteps, lim)
  {
  }

  lemma ThreeAccounted(m: seq<TemporalEvent>, maxSteps: nat, lim: Limits, cap: nat, r: seq<Choice>)
    requires |m| == 3 && cap >= 3 && ExactResult(m, maxSteps, lim, cap, r) && Minable(m, [0, 1, 2], maxSteps, lim)
    ensures HasKey(m, r, Key(m, [0, 1, 2]))
  {
    var c: Choice := [0, 1, 2];
    assert Accounted(m, c, r, cap);
    if forall d :: d in r ==> LexLess(d, c) {
      forall d | d in r ensures d != [] && Increasing(m, d) && LexLess(d, [0, 1, 2]) {
        assert Minable(m, d, maxSteps, lim) && LexLess(d, c);
      }
      FewBeforeAllThree(m, r);
    }
  }

  lemma FewBeforeAllThree(m: seq<TemporalEvent>, r: seq<Choice>)
    requires |m| == 3 && LexSorted(r)
    requires forall d :: d in r ==> d != [] && Increasing(m, d) && LexLess(d, [0, 1, 2])
    ensures |r| <= 2
  {
    if |r| > 2 {
      assert r[0] in r && r[1] in r && r[2] in r;
      LexLessTrichotomy(r[0], r[1]);
      LexLessTrichotomy(r[1], r[2]);
      LexLessTrichotomy(r[0], r[2]);
      BeforeAllThree(m, r[0]);
      BeforeAllThree(m, r[1]);
      BeforeAllThree(m, r[2]);
    }
  }

  lemma BeforeAllThree(m: seq<TemporalEvent>, d: Choice)
    requires |m| == 3 && d != [] && Increasing(m, d) && LexLess(d, [0, 1, 2])
    ensures d == [0] || d == [0, 1]
  {
    var c: Choice := [0, 1, 2];
    assert c[1..] == [1, 2] && c[1..][1..] == [2] && c[1..][1..][1..] == [];
    assert d[0] == 0 && LexLess(d[1..], [1, 2]);
    if |d| == 1 {
      assert d == [0];
    } else {
      assert d[1..][0] == d[1] && d[1] == 1 && LexLess(d[1..][1..], [2]);
      if |d| > 2 {
        assert d[1..][1..][0] == d[2] > d[1];
        assert !LexLess(d[1..][1..][1..], []);
      } else {
        assert d == [0, 1];
      }
    }
  }

  // ---------- The witness ----------

  function SampleOutcome(id: string, timestamp: int, status: string): TemporalEvent {
    SampleEvent(id, "O", timestamp).(terminalStatus := Some(status))
  }

  function SampleGroup(t: int): seq<TemporalEvent> {
    [SampleEvent("6", "A", t), SampleEvent("7", "B", t), SampleEvent("8", "C", t)]
  }

  lemma SamplePlain(e: TemporalEvent)
    requires e.eventType in {"A", "B", "C", "O"} && e.eventSource == "s" && e.actionKind == None
    ensures PlainSignature(PreEventSignature(e))
  {
    SampleSignature(e);
  }

  lemma GroupFills(t: int, status: string, windowMs: int)
    requires windowMs > 0
    ensures FillsWindow(SampleGroup(t), SampleOutcome("9", t + 1, status), windowMs)
  {
    var m, last := SampleGroup(t), SampleOutcome("9", t + 1, status);
    assert StringLeq("6", "7") && StringLeq("7", "8") && StringLeq("6", "8");
    assert EventLeq(m[0], m[1]) && EventLeq(m[1], m[2]) && EventLeq(m[0], m[2]);
    assert last.id[0] == '9' && m[0].id[0] == '6' && m[1].id[0] == '7' && m[2].id[0] == '8';
  }

  lemma GapSampleFills(g: int, status: string, windowMs: int)
    requires 0 < g <= windowMs - 2
    ensures FillsWindow(BindingGapEvents(g), SampleOutcome("5", g + 2, status), windowMs)
  {
    var o, last := BindingGapEvents(g), SampleOutcome("5", g + 2, status);
    BindingGapSorted(g);
    assert o[0].id[0] == '1' && o[1].id[0] == '2' && o[2].id[0] == '3' && o[3].id[0] == '4' && last.id[0] == '5';
  }

  lemma GroupSequence(t: int)
    ensures SignaturesAt(SampleGroup(t), [0, 1, 2]) == BindingGapSequence()
  {
    var m, c: Choice := SampleGroup(t), [0, 1, 2];
    SignaturesAtIndex(m, c);
    SampleSignature(m[0]);
    SampleSignature(m[1]);
    SampleSignature(m[2]);
    var s := SignaturesAt(m, c);
    assert s[0] == PreEventSignature(m[c[0]]) && s[1] == PreEventSignature(m[c[1]])
           && s[2] == PreEventSignature(m[c[2]]);
    var q := BindingGapSequence();
    assert s[0] == q[0] && s[1] == q[1] && s[2] == q[2];
  }

  /** The binding-gap sample before another outcome, then A, B and C directly before a target outcome. */
  function SampleScene(g: int, windowMs: int, status: string): Scene {
    Scene(BindingGapEvents(g), SampleOutcome("5", g + 2, status + "x"),
          SampleGroup(g + windowMs + 3), SampleOutcome("9", g + windowMs + 4, status))
  }

  lemma SampleIds(g: int, windowMs: int, status: string)
    ensures DistinctIds(SampleScene(g, windowMs, status).Events())
  {
    var e := SampleScene(g, windowMs, status).Events();
    assert e[0].id[0] == '1' && e[1].id[0] == '2' && e[2].id[0] == '3' && e[3].id[0] == '4' && e[4].id[0] == '5';
    assert e[5].id[0] == '6' && e[6].id[0] == '7' && e[7].id[0] == '8' && e[8].id[0] == '9';
  }

  lemma SamplePlainEvents(g: int, windowMs: int, status: string)
    ensures PlainSignatures(SampleScene(g, windowMs, status).Events())
  {
    forall e | e in SampleScene(g, windowMs, status).Events() ensures PlainSignature(PreEventSignature(e)) {
      SamplePlain(e);
    }
  }

  lemma SampleApart(g: int, windowMs: int, status: string)
    requires 0 < g <= windowMs - 2
    ensures SampleScene(g, windowMs, status).Apart(status, windowMs)
  {
    GapSampleFills(g, status + "x", windowMs);
    GroupFills(g + windowMs + 3, status, windowMs);
  }

  // ---------- The exact condition ----------

  /** Every sequence the learner mines from the target windows has the true negative count. */
  ghost predicate LearnerExact(events: seq<TemporalEvent>, status: string, p: STDPParams)
    requires p.Valid()
  {
    forall key :: key in KeyOrder(MineAll(p, TargetWindows(events, status, p.patternWindowMs))) ==>
      NegativesExact(events, status, p, Split(key, UNIT_SEPARATOR))
  }

  /** The gap is unset, not positive, or as long as the span limit or the window less one millisecond; or no sequence of
      three signatures is ever mined. */
  predicate GapHarmless(p: STDPParams) {
    || p.maxGap == None || p.maxGap.value <= 0
    || (p.maxSpan.Some? && p.maxGap.value >= p.maxSpan.value) || p.maxGap.value >= p.patternWindowMs - 1
    || p.maxSteps <= 2 || (p.maxCandidates.Some? && p.maxCandidates.value <= 2)
  }

  lemma GapHarmlessMeans(p: STDPParams)
    requires p.Valid()
    ensures GapHarmless(p) <==>
            GapCannotBind(p.Lim(), p.patternWindowMs) || p.maxSteps <= 2 || p.Options().Cap() <= 2
  {
  }

  lemma HarmlessIsExact(events: seq<TemporalEvent>, status: string, p: STDPParams)
    requires p.Valid() && GapHarmless(p) && DistinctIds(events) && PlainSignatures(events)
    ensures LearnerExact(events, status, p)
  {
    var windows := TargetWindows(events, status, p.patternWindowMs);
    TargetWindowsShape(events, status, p);
    GapHarmlessMeans(p);
    forall key | key in KeyOrder(MineAll(p, windows))
      ensures NegativesExact(events, status, p, Split(key, UNIT_SEPARATOR))
    {
      KeyOrderMined(p, windows, key);
      var w :| w in windows && EvidenceHas(MinedKey(p, key))(w);
      MinedKeyLength(p, w, key);
      NegativesMeaning(events, status, p, Split(key, UNIT_SEPARATOR));
    }
  }

  lemma GroupMined(t: int, p: STDPParams)
    requires p.Valid() && p.maxSteps >= 3 && p.Options().Cap() >= 3
    ensures HasKey(SampleGroup(t), MinedIn(p, SampleGroup(t)), SequenceKey(BindingGapSequence()))
  {
    ThreeMined(SampleGroup(t), p.maxSteps, p.Lim(), p.Options().Cap());
    GroupSequence(t);
  }

  /** The learner takes a wrong count for a sequence that the early list embeds but does not match, when it is mined
      from the late list. */
  ghost predicate Misleading(x: Scene, status: string, p: STDPParams, s: seq<string>)
    requires p.Valid()
  {
    && Plausible(x, status, p.patternWindowMs)
    && Embeds(x.early, s, p.Lim()) && !Matches(x.early, s, p.Lim())
    && HasKey(x.late, MinedIn(p, x.late), SequenceKey(s))
  }

  lemma MisleadingIsInexact(x: Scene, status: string, p: STDPParams, s: seq<string>)
    requires p.Valid() && Misleading(x, status, p, s) && Split(SequenceKey(s), UNIT_SEPARATOR) == s
    ensures !LearnerExact(x.Events(), status, p)
  {
    SceneMiscount(x, status, p, s);
    SceneEvidence(x, status, p.patternWindowMs);
    assert x.target in x.Events();
    SceneKey(x.Events(), x.late, x.target, status, p, SequenceKey(s));
    NotExact(x.Events(), status, p, SequenceKey(s));
  }

  ghost predicate Plausible(x: Scene, status: string, windowMs: int) {
    x.Apart(status, windowMs) && DistinctIds(x.Events()) && PlainSignatures(x.Events())
  }

  lemma SamplePlausible(g: int, windowMs: int, status: string)
    requires 0 < g <= windowMs - 2
    ensures Plausible(SampleScene(g, windowMs, status), status, windowMs)
  {
    SampleIds(g, windowMs, status);
    SamplePlainEvents(g, windowMs, status);
    SampleApart(g, windowMs, status);
  }

  lemma EarlyConfuses(early: seq<TemporalEvent>, lim: Limits)
    requires GapBinds(lim) && early == BindingGapEvents(lim.maxGap.value)
    ensures Embeds(early, BindingGapSequence(), lim) && !Matches(early, BindingGapSequence(), lim)
  {
    BindingGapEmbeds(lim);
    BindingGapMisses(lim);
  }

  lemma LateMined(late: seq<TemporalEvent>, t: int, p: STDPParams)
    requires p.Valid() && p.maxSteps >= 3 && p.Options().Cap() >= 3 && late == SampleGroup(t)
    ensures HasKey(late, MinedIn(p, late), SequenceKey(BindingGapSequence()))
  {
    GroupMined(t, p);
  }

  lemma PlausibleMisleads(x: Scene, t: int, status: string, p: STDPParams)
    requires p.Valid() && !GapHarmless(p) && Plausible(x, status, p.patternWindowMs)
    requires x.early == BindingGapEvents(p.Lim().maxGap.value) && x.late == SampleGroup(t)
    ensures Misleading(x, status, p, BindingGapSequence())
  {
    GapHarmlessMeans(p);
    EarlyConfuses(x.early, p.Lim());
    LateMined(x.late, t, p);
  }

  lemma SampleMisleads(status: string, p: STDPParams) returns (x: Scene)
    requires p.Valid() && !GapHarmless(p)
    ensures Misleading(x, status, p, BindingGapSequence())
  {
    GapHarmlessMeans(p);
    var g, w := p.Lim().maxGap.value, p.patternWindowMs;
    x := SampleScene(g, w, status);
    SamplePlausible(g, w, status);
    PlausibleMisleads(x, g + w + 3, status, p);
  }

  lemma HarmfulIsInexact(status: string, p: STDPParams) returns (events: seq<TemporalEvent>)
    requires p.Valid() && !GapHarmless(p)
    ensures DistinctIds(events) && PlainSignatures(events) && !LearnerExact(events, status, p)
  {
    var x := SampleMisleads(status, p);
    SequencePlain();
    SplitJoin(BindingGapSequence(), UNIT_SEPARATOR);
    MisleadingIsInexact(x, status, p, BindingGapSequence());
    events := x.Events();
  }

  lemma NotExact(events: seq<TemporalEvent>, status: string, p: STDPParams, key: string)
    requires p.Valid() && key in KeyOrder(MineAll(p, TargetWindows(events, status, p.patternWindowMs)))
    requires !NegativesExact(events, status, p, Split(key, UNIT_SEPARATOR))
    ensures !LearnerExact(events, status, p)
  {
  }

  lemma SequencePlain()
    ensures forall s :: s in BindingGapSequence() ==> PlainSignature(s)
  {
  }

  /** The exact condition: every negative count the learner takes, over all events with distinct ids, is the true one if
      and only if the gap is unset, not positive, or at least as long as the span or the window admits, or sequences of
      three signatures are never mined. */
  lemma NegativesExactIff(status: string, p: STDPParams)
    requires p.Valid()
    ensures (forall events :: DistinctIds(events) && PlainSignatures(events) ==> LearnerExact(events, status, p))
       <==> GapHarmless(p)
  {
    if GapHarmless(p) {
      forall events | DistinctIds(events) && PlainSignatures(events) ensures LearnerExact(events, status, p) {
        HarmlessIsExact(events, status, p);
      }
    } else {
      var events := HarmfulIsInexact(status, p);
    }
  }
}
