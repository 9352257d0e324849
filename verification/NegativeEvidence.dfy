/** The greedy episode matcher, what it promises and exactly when it is complete. */
module NegativeEvidence {
  import opened Collections
  import opened TemporalEvents
  import opened EpisodeChoices
  import CandidateCap

  // ---------- The greedy scan ----------

  /** Does the scan that started at `start`, has matched `cursor` signatures, the last one at `prev`,
      match the remaining signatures from `index` on? */
  predicate ScanFrom(o: seq<TemporalEvent>, s: seq<string>, lim: Limits, start: nat, prev: nat, cursor: nat, index: nat)
    requires start < |o| && prev < |o| && index <= |o| && cursor <= |s|
    decreases |o| - index
  {
    if cursor == |s| then true
    else if index == |o| then false
    else if !Within(o[index].timestamp - o[start].timestamp, lim.maxSpan) then false
    else if !Within(o[index].timestamp - o[prev].timestamp, lim.maxGap) then false
    else if PreEventSignature(o[index]) != s[cursor] then ScanFrom(o, s, lim, start, prev, cursor, index + 1)
    else ScanFrom(o, s, lim, start, index, cursor + 1, index + 1)
  }

  predicate MatchesAt(o: seq<TemporalEvent>, s: seq<string>, lim: Limits, start: nat)
    requires start < |o| && s != []
  {
    PreEventSignature(o[start]) == s[0] && ScanFrom(o, s, lim, start, start, 1, start + 1)
  }

  /** The matcher as a predicate on sorted pre-events. */
  ghost predicate Matches(o: seq<TemporalEvent>, s: seq<string>, lim: Limits) {
    s != [] && exists start :: 0 <= start < |o| && MatchesAt(o, s, lim, start)
  }

  ghost predicate NoMatchBefore(o: seq<TemporalEvent>, s: seq<string>, lim: Limits, n: nat)
    requires n <= |o| && s != []
  {
    forall k :: 0 <= k < n ==> !MatchesAt(o, s, lim, k)
  }

  lemma NoMatchStep(o: seq<TemporalEvent>, s: seq<string>, lim: Limits, n: nat, next: nat)
    requires n < |o| && s != [] && next == n + 1 && NoMatchBefore(o, s, lim, n) && !MatchesAt(o, s, lim, n)
    ensures NoMatchBefore(o, s, lim, next)
  {
  }

  /** The nested loops of the matcher. */
  method ContainsOrderedEpisode(events: seq<TemporalEvent>, signatures: seq<string>, lim: Limits)
    returns (found: bool)
    ensures found <==> Matches(OrderedPreEvents(events), signatures, lim)
    ensures found <==> HasFirstOccurrences(OrderedPreEvents(events), signatures, lim)
  {
    if |signatures| == 0 {
      MatchesIffGreedy(events, signatures, lim);
      return false;
    }
    var ordered := OrderedPreEvents(events);
    var startIndex := 0;
    while startIndex < |ordered|
      invariant 0 <= startIndex <= |ordered|
      invariant NoMatchBefore(ordered, signatures, lim, startIndex)
    {
      if PreEventSignature(ordered[startIndex]) == signatures[0] {
        var cursor, previous, eventIndex := 1, startIndex, startIndex + 1;
        while eventIndex < |ordered| && cursor < |signatures|
          invariant startIndex < eventIndex <= |ordered| && previous < |ordered| && 1 <= cursor <= |signatures|
          invariant MatchesAt(ordered, signatures, lim, startIndex) <==>
                    ScanFrom(ordered, signatures, lim, startIndex, previous, cursor, eventIndex)
        {
          var event := ordered[eventIndex];
          if !Within(event.timestamp - ordered[startIndex].timestamp, lim.maxSpan) { break; }
          if !Within(event.timestamp - ordered[previous].timestamp, lim.maxGap) { break; }
          if PreEventSignature(event) == signatures[cursor] {
            previous := eventIndex;
            cursor := cursor + 1;
          }
          eventIndex := eventIndex + 1;
        }
        if cursor == |signatures| {
          MatchesIffGreedy(events, signatures, lim);
          return true;
        }
      }
      NoMatchStep(ordered, signatures, lim, startIndex, startIndex + 1);
      startIndex := startIndex + 1;
    }
    MatchesIffGreedy(events, signatures, lim);
    return false;
  }

  // ---------- Soundness ----------

  /** A successful scan extends the choice it has made so far to an embedding. */
  lemma {:induction false} ScanSound(o: seq<TemporalEvent>, s: seq<string>, lim: Limits, c: Choice, index: nat)
    requires Admissible(o, c, lim) && |c| <= |s| && SignaturesAt(o, c) == s[..|c|]
    requires c[|c| - 1] < index <= |o|
    requires ScanFrom(o, s, lim, c[0], c[|c| - 1], |c|, index)
    ensures Embeds(o, s, lim)
    decreases |o| - index
  {
    if |c| == |s| {
      assert s[..|c|] == s;
    } else if PreEventSignature(o[index]) != s[|c|] {
      ScanSound(o, s, lim, c, index + 1);
    } else {
      ExtendStep(o, c, index, lim);
      SignaturesSnoc(o, c, index);
      assert s[..|c| + 1] == s[..|c|] + [s[|c|]];
      ScanSound(o, s, lim, c + [index], index + 1);
    }
  }

  lemma SignaturesSnoc(o: seq<TemporalEvent>, c: Choice, i: nat)
    requires Bounded(o, c) && i < |o|
    ensures SignaturesAt(o, c + [i]) == SignaturesAt(o, c) + [PreEventSignature(o[i])]
  {
    EventsAtSnoc(o, c, i);
    SignaturesAtIndex(o, c);
    SignaturesAtIndex(o, c + [i]);
  }

  /** Whatever the limits, a reported match is an embedding: negatives are never overcounted. */
  lemma MatcherSound(o: seq<TemporalEvent>, s: seq<string>, lim: Limits)
    requires Matches(o, s, lim)
    ensures Embeds(o, s, lim)
  {
    var start :| 0 <= start < |o| && MatchesAt(o, s, lim, start);
    SignaturesAtIndex(o, [start]);
    assert SignaturesAt(o, [start]) == s[..1];
    ScanSound(o, s, lim, [start], start + 1);
  }

  // ---------- What a match is ----------

  /** The choice spells `s`, stays within the limits, and takes for every further signature its first occurrence after
      the event chosen before. */
  ghost predicate FirstOccurrences(o: seq<TemporalEvent>, s: seq<string>, lim: Limits, c: Choice) {
    && Admissible(o, c, lim) && SignaturesAt(o, c) == s
    && forall k, next, j :: 0 <= k && next == k + 1 && next < |c| && c[k] < j < c[next] ==>
         PreEventSignature(o[j]) != PreEventSignature(o[c[next]])
  }

  ghost predicate HasFirstOccurrences(o: seq<TemporalEvent>, s: seq<string>, lim: Limits) {
    exists c :: FirstOccurrences(o, s, lim, c)
  }

  /** The choice `c` holds the first occurrences of the first signatures, and the next one does not occur before
      `index`. */
  ghost predicate FoundUntil(o: seq<TemporalEvent>, s: seq<string>, lim: Limits, c: Choice, index: nat) {
    && |c| <= |s| && FirstOccurrences(o, s[..|c|], lim, c) && c[|c| - 1] < index <= |o|
    && (|c| < |s| ==> forall j :: c[|c| - 1] < j < index ==> PreEventSignature(o[j]) != s[|c|])
  }

  /** A successful scan completes the first occurrences it has taken so far. */
  lemma {:induction false} ScanFindsFirst(o: seq<TemporalEvent>, s: seq<string>, lim: Limits, c: Choice, index: nat)
    returns (d: Choice)
    requires FoundUntil(o, s, lim, c, index) && ScanFrom(o, s, lim, c[0], c[|c| - 1], |c|, index)
    ensures FirstOccurrences(o, s, lim, d)
    decreases |o| - index
  {
    if |c| == |s| {
      assert s[..|c|] == s;
      d := c;
    } else if PreEventSignature(o[index]) != s[|c|] {
      PassesOver(o, s, lim, c, index, index + 1);
      d := ScanFindsFirst(o, s, lim, c, index + 1);
    } else {
      TakesFirst(o, s, lim, c, index, index + 1);
      d := ScanFindsFirst(o, s, lim, c + [index], index + 1);
    }
  }

  lemma PassesOver(o: seq<TemporalEvent>, s: seq<string>, lim: Limits, c: Choice, index: nat, next: nat)
    requires FoundUntil(o, s, lim, c, index) && |c| < |s| && index < |o| && next == index + 1
    requires PreEventSignature(o[index]) != s[|c|]
    ensures FoundUntil(o, s, lim, c, next)
  {
  }

  lemma TakesFirst(o: seq<TemporalEvent>, s: seq<string>, lim: Limits, c: Choice, index: nat, next: nat)
    requires FoundUntil(o, s, lim, c, index) && |c| < |s| && index < |o| && next == index + 1
    requires PreEventSignature(o[index]) == s[|c|] && Fits(o, c, index, lim)
    ensures FoundUntil(o, s, lim, c + [index], next)
  {
    ExtendStep(o, c, index, lim);
    SignaturesSnoc(o, c, index);
    assert s[..|c| + 1] == s[..|c|] + [s[|c|]];
  }

  /** The scan cannot miss first occurrences within the limits. */
  lemma {:induction false} FirstIsScanned(o: seq<TemporalEvent>, s: seq<string>, lim: Limits, c: Choice, cursor: nat,
                                          index: nat)
    requires Chronological(o) && FirstOccurrences(o, s, lim, c) && |c| == |s| && 1 <= cursor <= |s|
    requires c[cursor - 1] < index <= |o| && (cursor < |s| ==> index <= c[cursor])
    ensures ScanFrom(o, s, lim, c[0], c[cursor - 1], cursor, index)
    decreases |o| - index
  {
    if cursor < |s| {
      SignaturesAtIndex(o, c);
      ChronologicalPair(o, index, c[cursor]);
      var prev, next: nat := cursor - 1, index + 1;
      assert Within(o[c[cursor]].timestamp - o[c[prev]].timestamp, lim.maxGap);
      ScanStep(o, s, lim, c[0], c[prev], cursor, index, next);
      if index == c[cursor] {
        FirstIsScanned(o, s, lim, c, cursor + 1, next);
      } else {
        FirstIsScanned(o, s, lim, c, cursor, next);
      }
    }
  }

  /** On a chronological list, whatever the limits: a sequence matches if and only if its greedy choice, which takes the
      first occurrence of each further signature, stays within the limits from some first event on. */
  lemma MatchesIff(o: seq<TemporalEvent>, s: seq<string>, lim: Limits)
    requires Chronological(o)
    ensures Matches(o, s, lim) <==> HasFirstOccurrences(o, s, lim)
  {
    if Matches(o, s, lim) {
      var start :| 0 <= start < |o| && MatchesAt(o, s, lim, start);
      var c := MatchFindsFirst(o, s, lim, start);
    }
    if c :| FirstOccurrences(o, s, lim, c) {
      FirstIsMatched(o, s, lim, c);
    }
  }

  lemma MatchFindsFirst(o: seq<TemporalEvent>, s: seq<string>, lim: Limits, start: nat) returns (c: Choice)
    requires s != [] && start < |o| && MatchesAt(o, s, lim, start)
    ensures FirstOccurrences(o, s, lim, c)
  {
    SignaturesAtIndex(o, [start]);
    assert SignaturesAt(o, [start]) == s[..1];
    c := ScanFindsFirst(o, s, lim, [start], start + 1);
  }

  lemma FirstIsMatched(o: seq<TemporalEvent>, s: seq<string>, lim: Limits, c: Choice)
    requires Chronological(o) && FirstOccurrences(o, s, lim, c)
    ensures Matches(o, s, lim)
  {
    SignaturesAtIndex(o, c);
    FirstIsScanned(o, s, lim, c, 1, c[0] + 1);
    assert MatchesAt(o, s, lim, c[0]);
  }

  lemma MatchesIffGreedy(events: seq<TemporalEvent>, s: seq<string>, lim: Limits)
    ensures Matches(OrderedPreEvents(events), s, lim) <==> HasFirstOccurrences(OrderedPreEvents(events), s, lim)
  {
    OrderedPreEventsChronological(events);
    MatchesIff(OrderedPreEvents(events), s, lim);
  }

  // ---------- Completeness ----------

  /** The gap limit can never reject what the span limit accepts, or admits no positive gap at all. */
  predicate NonBindingGap(lim: Limits) {
    lim.maxGap.None? || lim.maxGap.value <= 0 || (lim.maxSpan.Some? && lim.maxSpan.value <= lim.maxGap.value)
  }

  /** The gap check cannot stop the scan before the next event of the embedding `d`. */
  lemma GapCheckPasses(o: seq<TemporalEvent>, s: seq<string>, lim: Limits, d: Choice, prev: nat, cursor: nat,
                       index: nat)
    requires Chronological(o) && (NonBindingGap(lim) || |s| <= 2)
    requires Admissible(o, d, lim) && |d| == |s| && 1 <= cursor < |s|
    requires d[0] <= prev <= d[cursor - 1] && prev < index <= d[cursor] && (cursor == 1 ==> prev == d[0])
    ensures Within(o[index].timestamp - o[d[0]].timestamp, lim.maxSpan)
    ensures Within(o[index].timestamp - o[prev].timestamp, lim.maxGap)
  {
    ChronologicalPair(o, index, d[cursor]);
    ChronologicalPair(o, d[0], prev);
    ChronologicalPair(o, prev, index);
    if lim.maxGap.Some? && lim.maxGap.value <= 0 {
      NoGapMeansSameTime(o, lim, d, cursor);
    }
    if lim.maxSpan.None? && lim.maxGap.Some? && lim.maxGap.value > 0 {
      assert |s| <= 2;
    }
  }

  /** When no positive gap is allowed, all chosen events carry one timestamp. */
  lemma {:induction false} NoGapMeansSameTime(o: seq<TemporalEvent>, lim: Limits, d: Choice, k: nat)
    requires Chronological(o) && Admissible(o, d, lim) && k < |d|
    requires lim.maxGap.Some? && lim.maxGap.value <= 0
    ensures o[d[k]].timestamp == o[d[0]].timestamp && (k >= 1 ==> lim.maxGap.value == 0)
  {
    if k > 0 {
      NoGapMeansSameTime(o, lim, d, k - 1);
      ChronologicalPair(o, d[k - 1], d[k]);
    }
  }

  /** One step of the scan inside the limits. */
  lemma ScanStep(o: seq<TemporalEvent>, s: seq<string>, lim: Limits, start: nat, prev: nat, cursor: nat, index: nat,
                 next: nat)
    requires start < |o| && prev < |o| && index < |o| && cursor < |s| && next == index + 1
    requires Within(o[index].timestamp - o[start].timestamp, lim.maxSpan)
    requires Within(o[index].timestamp - o[prev].timestamp, lim.maxGap)
    ensures PreEventSignature(o[index]) == s[cursor] && ScanFrom(o, s, lim, start, index, cursor + 1, next) ==>
              ScanFrom(o, s, lim, start, prev, cursor, index)
    ensures PreEventSignature(o[index]) != s[cursor] && ScanFrom(o, s, lim, start, prev, cursor, next) ==>
              ScanFrom(o, s, lim, start, prev, cursor, index)
  {
  }

  /** Greedy stays ahead: the scan reaches every signature no later than the embedding `d` does. */
  lemma {:induction false} GreedyStaysAhead(o: seq<TemporalEvent>, s: seq<string>, lim: Limits, d: Choice,
                                            prev: nat, cursor: nat, index: nat)
    requires Chronological(o) && (NonBindingGap(lim) || |s| <= 2)
    requires Admissible(o, d, lim) && SignaturesAt(o, d) == s && |d| == |s| && 1 <= cursor <= |s|
    requires d[0] <= prev <= d[cursor - 1] && prev < index <= |o| && (cursor == 1 ==> prev == d[0])
    requires cursor < |s| ==> index <= d[cursor]
    ensures ScanFrom(o, s, lim, d[0], prev, cursor, index)
    decreases |o| - index
  {
    if cursor < |s| {
      SignaturesAtIndex(o, d);
      GapCheckPasses(o, s, lim, d, prev, cursor, index);
      var next: nat := index + 1;
      ScanStep(o, s, lim, d[0], prev, cursor, index, next);
      if PreEventSignature(o[index]) == s[cursor] {
        GreedyStaysAhead(o, s, lim, d, index, cursor + 1, next);
      } else {
        assert s[cursor] == PreEventSignature(o[d[cursor]]);
        GreedyStaysAhead(o, s, lim, d, prev, cursor, next);
      }
    }
  }

  /** With a non-binding gap, or for at most two signatures, the matcher finds every embedding. */
  lemma MatcherComplete(o: seq<TemporalEvent>, s: seq<string>, lim: Limits)
    requires Chronological(o) && (NonBindingGap(lim) || |s| <= 2)
    ensures Matches(o, s, lim) <==> Embeds(o, s, lim)
  {
    if Matches(o, s, lim) {
      MatcherSound(o, s, lim);
    }
    if Embeds(o, s, lim) {
      var d :| Admissible(o, d, lim) && SignaturesAt(o, d) == s;
      SignaturesAtIndex(o, d);
      GreedyStaysAhead(o, s, lim, d, d[0], 1, d[0] + 1);
      assert MatchesAt(o, s, lim, d[0]);
    }
  }

  // ---------- Completeness fails for every binding gap ----------

  function SampleEvent(id: string, eventType: string, timestamp: int): TemporalEvent {
    TemporalEvent(id, eventType, "s", None, None, timestamp, None, None, None, None, None, "production", false)
  }

  /** A@0, B@0, B@g, C@g+1: the scan takes the first B and is then too far from C. */
  function BindingGapEvents(g: int): seq<TemporalEvent> {
    [SampleEvent("1", "A", 0), SampleEvent("2", "B", 0), SampleEvent("3", "B", g), SampleEvent("4", "C", g + 1)]
  }

  function BindingGapSequence(): seq<string> {
    ["A|s|none|none", "B|s|none|none", "C|s|none|none"]
  }

  lemma SampleSignature(e: TemporalEvent)
    requires |e.eventType| == 1 && e.eventSource == "s" && e.actionKind == None
    ensures PreEventSignature(e) == e.eventType + "|s|none|none"
  {
    var parts := [e.eventType, "s", "none", "none"];
    assert parts[1..] == ["s", "none", "none"] && parts[1..][1..] == ["none", "none"]
        && parts[1..][1..][1..] == ["none"];
    assert Join(["none", "none"], '|') == "none|none" by {
      assert ["none", "none"][1..] == ["none"];
    }
    assert Join(["s", "none", "none"], '|') == "s|none|none" by {
      assert ["s", "none", "none"][1..] == ["none", "none"];
    }
  }

  lemma BindingGapSorted(g: int)
    requires g > 0
    ensures SortedBy(BindingGapEvents(g), EventLeq)
  {
    var o := BindingGapEvents(g);
    assert StringLeq("1", "2");
    assert EventLeq(o[0], o[1]);
    forall i, j | 0 <= i < j < |o| ensures EventLeq(o[i], o[j]) {
      assert i != 0 || j != 1 ==> o[i].timestamp < o[j].timestamp;
    }
  }

  lemma OrderedIsFixed(o: seq<TemporalEvent>)
    requires SortedBy(o, EventLeq) && forall e :: e in o ==> IsPreEvent(e)
    ensures OrderedPreEvents(o) == o
  {
    SortByFixpoint(o, EventLeq);
    FilterKeepsAll(o, IsPreEvent);
  }

  lemma BindingGapDistinct(g: int)
    ensures DistinctIds(BindingGapEvents(g)) && forall e :: e in BindingGapEvents(g) ==> IsPreEvent(e)
  {
    var o := BindingGapEvents(g);
    assert o[0].id[0] == '1' && o[1].id[0] == '2' && o[2].id[0] == '3' && o[3].id[0] == '4';
  }

  /** The sample is already sorted, has distinct ids and holds no outcome. */
  lemma BindingGapOrdered(g: int)
    requires g > 0
    ensures DistinctIds(BindingGapEvents(g)) && OrderedPreEvents(BindingGapEvents(g)) == BindingGapEvents(g)
  {
    BindingGapSorted(g);
    BindingGapDistinct(g);
    OrderedIsFixed(BindingGapEvents(g));
  }

  /** The gap is positive and the span admits one millisecond more. */
  predicate GapBinds(lim: Limits) {
    lim.maxGap.Some? && lim.maxGap.value > 0 && Within(lim.maxGap.value + 1, lim.maxSpan)
  }

  lemma BindingGapEmbeds(lim: Limits)
    requires GapBinds(lim)
    ensures Embeds(BindingGapEvents(lim.maxGap.value), BindingGapSequence(), lim)
  {
    var g := lim.maxGap.value;
    var o, s, c: Choice := BindingGapEvents(g), BindingGapSequence(), [0, 2, 3];
    SampleSignature(o[0]);
    SampleSignature(o[2]);
    SampleSignature(o[3]);
    assert Bounded(o, c);
    SignaturesAtIndex(o, c);
    var t := SignaturesAt(o, c);
    assert t[0] == PreEventSignature(o[c[0]]);
    assert t[1] == PreEventSignature(o[c[1]]) && t[2] == PreEventSignature(o[c[2]]);
    assert t[0] == s[0] && t[1] == s[1] && t[2] == s[2];
    assert t == s;
    BindingGapAdmissible(lim);
  }

  lemma BindingGapAdmissible(lim: Limits)
    requires GapBinds(lim)
    ensures Admissible(BindingGapEvents(lim.maxGap.value), [0, 2, 3], lim)
  {
  }

  lemma BindingGapMisses(lim: Limits)
    requires GapBinds(lim)
    ensures !Matches(BindingGapEvents(lim.maxGap.value), BindingGapSequence(), lim)
  {
    var o, s := BindingGapEvents(lim.maxGap.value), BindingGapSequence();
    SampleSignature(o[0]);
    SampleSignature(o[1]);
    SampleSignature(o[2]);
    SampleSignature(o[3]);
    assert s[0][0] == 'A' && PreEventSignature(o[1])[0] == 'B' && PreEventSignature(o[3])[0] == 'C';
    forall start | 0 <= start < |o| ensures !MatchesAt(o, s, lim, start) {
      if start == 0 {
        assert s[2][0] == 'C' && PreEventSignature(o[2])[0] == 'B';
        assert !ScanFrom(o, s, lim, 0, 1, 2, 3);
        assert !ScanFrom(o, s, lim, 0, 1, 2, 2);
        assert !ScanFrom(o, s, lim, 0, 0, 1, 1);
      }
    }
  }

  /** The exact condition on event lists of any extent: with distinct ids, the matcher finds every embedding of every
      sequence if and only if the gap limit is non-binding. */
  lemma MatcherCompleteExactly(lim: Limits)
    ensures (forall events, s :: DistinctIds(events) && Embeds(OrderedPreEvents(events), s, lim) ==>
               Matches(OrderedPreEvents(events), s, lim))
       <==> NonBindingGap(lim)
  {
    if NonBindingGap(lim) {
      forall events, s | DistinctIds(events) && Embeds(OrderedPreEvents(events), s, lim)
        ensures Matches(OrderedPreEvents(events), s, lim)
      {
        OrderedPreEventsChronological(events);
        MatcherComplete(OrderedPreEvents(events), s, lim);
      }
    } else {
      var o, s := BindingGapEvents(lim.maxGap.value), BindingGapSequence();
      BindingGapOrdered(lim.maxGap.value);
      BindingGapEmbeds(lim);
      BindingGapMisses(lim);
      assert Embeds(OrderedPreEvents(o), s, lim) && !Matches(OrderedPreEvents(o), s, lim);
    }
  }

  // ---------- Inside a window ----------

  /** All events lie within `r` milliseconds of each other. */
  ghost predicate Spread(o: seq<TemporalEvent>, r: int) {
    forall i, j :: 0 <= i < |o| && 0 <= j < |o| ==> o[i].timestamp - o[j].timestamp <= r
  }

  /** Inside a window of `windowMs`, which excludes its outcome, no span exceeds this. */
  function Reach(lim: Limits, windowMs: int): int {
    if lim.maxSpan.Some? && lim.maxSpan.value < windowMs then lim.maxSpan.value else windowMs - 1
  }

  /** The gap is unset, not positive, or at least the reach: no window of this length can tell it from no gap limit. */
  predicate GapCannotBind(lim: Limits, windowMs: int) {
    lim.maxGap.None? || lim.maxGap.value <= 0 || lim.maxGap.value >= Reach(lim, windowMs)
  }

  function WindowLimits(lim: Limits, windowMs: int): Limits {
    lim.(maxSpan := Some(Reach(lim, windowMs)))
  }

  /** Inside a window the span limit may be replaced by the reach: for choices, */
  lemma AdmissibleInWindow(o: seq<TemporalEvent>, c: Choice, lim: Limits, windowMs: int)
    requires Spread(o, windowMs - 1)
    ensures Admissible(o, c, lim) <==> Admissible(o, c, WindowLimits(lim, windowMs))
  {
    if Increasing(o, c) {
      forall k | 1 <= k < |c|
        ensures Within(o[c[k]].timestamp - o[c[0]].timestamp, lim.maxSpan)
           <==> Within(o[c[k]].timestamp - o[c[0]].timestamp, WindowLimits(lim, windowMs).maxSpan)
      {
      }
    }
  }

  /** and for the scan. */
  lemma {:induction false} ScanInWindow(o: seq<TemporalEvent>, s: seq<string>, lim: Limits, windowMs: int,
                                        start: nat, prev: nat, cursor: nat, index: nat)
    requires Spread(o, windowMs - 1)
    requires start < |o| && prev < |o| && index <= |o| && cursor <= |s|
    ensures ScanFrom(o, s, lim, start, prev, cursor, index)
         == ScanFrom(o, s, WindowLimits(lim, windowMs), start, prev, cursor, index)
    decreases |o| - index
  {
    if cursor < |s| && index < |o| {
      assert Within(o[index].timestamp - o[start].timestamp, lim.maxSpan)
        <==> Within(o[index].timestamp - o[start].timestamp, WindowLimits(lim, windowMs).maxSpan);
      ScanInWindow(o, s, lim, windowMs, start, prev, cursor, index + 1);
      ScanInWindow(o, s, lim, windowMs, start, index, cursor + 1, index + 1);
    }
  }

  lemma MatchesInWindow(o: seq<TemporalEvent>, s: seq<string>, lim: Limits, windowMs: int)
    requires Spread(o, windowMs - 1)
    ensures Matches(o, s, lim) <==> Matches(o, s, WindowLimits(lim, windowMs))
  {
    if s != [] {
      forall start | 0 <= start < |o|
        ensures MatchesAt(o, s, lim, start) == MatchesAt(o, s, WindowLimits(lim, windowMs), start)
      {
        ScanInWindow(o, s, lim, windowMs, start, start, 1, start + 1);
      }
    }
  }

  lemma EmbedsInWindow(o: seq<TemporalEvent>, s: seq<string>, lim: Limits, windowMs: int)
    requires Spread(o, windowMs - 1)
    ensures Embeds(o, s, lim) <==> Embeds(o, s, WindowLimits(lim, windowMs))
  {
    forall c ensures Admissible(o, c, lim) <==> Admissible(o, c, WindowLimits(lim, windowMs)) {
      AdmissibleInWindow(o, c, lim, windowMs);
    }
  }

  /** Inside a window the matcher finds every embedding as soon as the gap reaches across it. */
  lemma MatcherCompleteInWindow(o: seq<TemporalEvent>, s: seq<string>, lim: Limits, windowMs: int)
    requires Chronological(o) && Spread(o, windowMs - 1) && (GapCannotBind(lim, windowMs) || |s| <= 2)
    ensures Matches(o, s, lim) <==> Embeds(o, s, lim)
  {
    MatchesInWindow(o, s, lim, windowMs);
    EmbedsInWindow(o, s, lim, windowMs);
    MatcherComplete(o, s, WindowLimits(lim, windowMs));
  }

  // ---------- Miner and matcher agree ----------

  /** Sequences of plain signatures have the same key only when they are the same sequence. */
  lemma KeyIdentifiesSequence(o: seq<TemporalEvent>, c: Choice, s: seq<string>)
    requires PlainSignatures(o) && Bounded(o, c) && c != [] && s != []
    requires forall i :: 0 <= i < |s| ==> PlainSignature(s[i])
    requires Key(o, c) == SequenceKey(s)
    ensures SignaturesAt(o, c) == s
  {
    SignaturesAtIndex(o, c);
    JoinInjective(SignaturesAt(o, c), s, UNIT_SEPARATOR);
  }

  lemma ChoiceIsPlain(o: seq<TemporalEvent>, c: Choice)
    requires PlainSignatures(o) && Bounded(o, c)
    ensures forall i :: 0 <= i < |SignaturesAt(o, c)| ==> PlainSignature(SignaturesAt(o, c)[i])
  {
    SignaturesAtIndex(o, c);
  }

  ghost predicate Mined(o: seq<TemporalEvent>, s: seq<string>, maxSteps: nat, lim: Limits, cap: nat)
    requires maxSteps >= 1
  {
    exists c :: c in MinedChoices(o, maxSteps, lim, cap) && SignaturesAt(o, c) == s
  }

  /** Uncapped, the miner reports exactly the sequences of at most `maxSteps` signatures that embed. */
  lemma MinedExactlyEmbedded(o: seq<TemporalEvent>, s: seq<string>, maxSteps: nat, lim: Limits, cap: nat)
    requires PlainSignatures(o) && maxSteps >= 1 && CandidateCap.NothingLost(o, maxSteps, lim, cap)
    ensures Mined(o, s, maxSteps, lim, cap) <==> Embeds(o, s, lim) && |s| <= maxSteps
  {
    MinedChoicesExact(o, maxSteps, lim, cap);
    var mined := MinedChoices(o, maxSteps, lim, cap);
    if c :| c in mined && SignaturesAt(o, c) == s {
      SignaturesAtIndex(o, c);
    }
    if Embeds(o, s, lim) && |s| <= maxSteps {
      var c :| Admissible(o, c, lim) && SignaturesAt(o, c) == s;
      SignaturesAtIndex(o, c);
      CandidateCap.EnoughRoom(o, maxSteps, lim, cap);
      var d :| d in mined && Key(o, d) == Key(o, c);
      ChoiceIsPlain(o, c);
      KeyIdentifiesSequence(o, d, s);
    }
  }

  /** The central agreement: with a non-binding gap and an uncapped search, the matcher accepts a sequence of
      at most `maxSteps` signatures exactly when the miner reports it. */
  lemma MinerMatcherAgree(events: seq<TemporalEvent>, s: seq<string>, maxSteps: nat, lim: Limits, cap: nat)
    requires PlainSignatures(events) && maxSteps >= 1 && |s| <= maxSteps
    requires NonBindingGap(lim) || |s| <= 2
    requires CandidateCap.NothingLost(OrderedPreEvents(events), maxSteps, lim, cap)
    ensures Matches(OrderedPreEvents(events), s, lim) <==> Mined(OrderedPreEvents(events), s, maxSteps, lim, cap)
  {
    OrderedPreEventsChronological(events);
    MatcherComplete(OrderedPreEvents(events), s, lim);
    MinedExactlyEmbedded(OrderedPreEvents(events), s, maxSteps, lim, cap);
  }
}
