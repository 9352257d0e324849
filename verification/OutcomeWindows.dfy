/** The look-back windows before outcome events, for the target outcome and for all the others. */
module OutcomeWindows {
  import opened Collections
  import opened TemporalEvents

  datatype Window = Window(outcome: TemporalEvent, preEvents: seq<TemporalEvent>)

  predicate IsOutcome(e: TemporalEvent) {
    e.terminalStatus.Some?
  }

  function HasStatus(status: string): TemporalEvent -> bool {
    (e: TemporalEvent) => e.terminalStatus == Some(status)
  }

  function HasOtherStatus(status: string): TemporalEvent -> bool {
    (e: TemporalEvent) => IsOutcome(e) && e.terminalStatus != Some(status)
  }

  function Precedes(outcome: TemporalEvent, windowMs: int): TemporalEvent -> bool {
    (e: TemporalEvent) => outcome.timestamp - windowMs <= e.timestamp < outcome.timestamp && e.id != outcome.id
  }

  function WindowBefore(events: seq<TemporalEvent>, outcome: TemporalEvent, windowMs: int): Window {
    Window(outcome, Filter(events, Precedes(outcome, windowMs)))
  }

  function WindowsBefore(outcomes: seq<TemporalEvent>, events: seq<TemporalEvent>, windowMs: int): (r: seq<Window>)
    ensures |r| == |outcomes|
  {
    if outcomes == [] then []
    else [WindowBefore(events, outcomes[0], windowMs)] + WindowsBefore(outcomes[1..], events, windowMs)
  }

  lemma {:induction false} WindowsBeforeSnoc(outcomes: seq<TemporalEvent>, outcome: TemporalEvent,
                                             events: seq<TemporalEvent>, windowMs: int)
    ensures WindowsBefore(outcomes + [outcome], events, windowMs) ==
            WindowsBefore(outcomes, events, windowMs) + [WindowBefore(events, outcome, windowMs)]
  {
    if outcomes == [] {
      assert [outcome][1..] == [] && outcomes + [outcome] == [outcome];
    } else {
      assert (outcomes + [outcome])[1..] == outcomes[1..] + [outcome];
      WindowsBeforeSnoc(outcomes[1..], outcome, events, windowMs);
    }
  }

  lemma {:induction false} WindowsBeforeIndex(outcomes: seq<TemporalEvent>, events: seq<TemporalEvent>, windowMs: int,
                                              i: nat)
    requires i < |outcomes|
    ensures WindowsBefore(outcomes, events, windowMs)[i] == WindowBefore(events, outcomes[i], windowMs)
  {
    if i > 0 {
      WindowsBeforeIndex(outcomes[1..], events, windowMs, i - 1);
    }
  }

  /** The windows of the target outcome are taken from the sorted events. */
  function TargetWindows(events: seq<TemporalEvent>, status: string, windowMs: int): seq<Window> {
    var ordered := SortStable(events);
    WindowsBefore(Filter(ordered, HasStatus(status)), ordered, windowMs)
  }

  /** The windows of the other outcomes are taken from the events as they come. */
  function OtherWindows(events: seq<TemporalEvent>, status: string, windowMs: int): seq<Window> {
    WindowsBefore(Filter(events, HasOtherStatus(status)), events, windowMs)
  }

  /** One window per target outcome, in sorted order, with the sorted events before it. */
  lemma TargetWindowsInOrder(events: seq<TemporalEvent>, status: string, windowMs: int)
    ensures var ordered, windows := SortStable(events), TargetWindows(events, status, windowMs);
            && |windows| == |Filter(ordered, HasStatus(status))|
            && forall i :: 0 <= i < |windows| ==>
                 && windows[i].outcome == Filter(ordered, HasStatus(status))[i]
                 && windows[i].preEvents == Filter(ordered, Precedes(windows[i].outcome, windowMs))
  {
    var ordered, windows := SortStable(events), TargetWindows(events, status, windowMs);
    var outcomes := Filter(ordered, HasStatus(status));
    forall i | 0 <= i < |windows| ensures windows[i] == WindowBefore(ordered, outcomes[i], windowMs) {
      WindowsBeforeIndex(outcomes, ordered, windowMs, i);
    }
  }

  lemma NextWindow(ordered: seq<TemporalEvent>, n: nat, next: nat, status: string, windowMs: int)
    requires n < |ordered| && next == n + 1
    ensures WindowsBefore(Filter(ordered[..next], HasStatus(status)), ordered, windowMs) ==
            WindowsBefore(Filter(ordered[..n], HasStatus(status)), ordered, windowMs)
            + if ordered[n].terminalStatus == Some(status) then [WindowBefore(ordered, ordered[n], windowMs)] else []
  {
    FilterSnoc(ordered, n, HasStatus(status));
    if ordered[n].terminalStatus == Some(status) {
      WindowsBeforeSnoc(Filter(ordered[..n], HasStatus(status)), ordered[n], ordered, windowMs);
    } else {
      assert Filter(ordered[..next], HasStatus(status)) == Filter(ordered[..n], HasStatus(status));
    }
  }

  method BuildOutcomeWindows(events: seq<TemporalEvent>, status: string, windowMs: int)
    returns (windows: seq<Window>)
    ensures windows == TargetWindows(events, status, windowMs)
  {
    var ordered := SortStable(events);
    windows := [];
    for n := 0 to |ordered|
      invariant windows == WindowsBefore(Filter(ordered[..n], HasStatus(status)), ordered, windowMs)
    {
      var outcome := ordered[n];
      NextWindow(ordered, n, n + 1, status, windowMs);
      if outcome.terminalStatus == Some(status) {
        windows := windows + [Window(outcome, Filter(ordered, Precedes(outcome, windowMs)))];
      }
    }
    assert ordered[..|ordered|] == ordered;
  }

  // ---------- Both families together ----------

  /** What a window says about a sequence depends only on these events, in this order. */
  function Evidence(w: Window): seq<TemporalEvent> {
    OrderedPreEvents(w.preEvents)
  }

  /** The same, read off the unsorted events. */
  function EvidenceBefore(events: seq<TemporalEvent>, outcome: TemporalEvent, windowMs: int): seq<TemporalEvent> {
    Evidence(WindowBefore(events, outcome, windowMs))
  }

  /** Sorting or permuting the events first does not change the evidence of an outcome. */
  lemma EvidencePermutation(a: seq<TemporalEvent>, b: seq<TemporalEvent>, outcome: TemporalEvent, windowMs: int)
    requires Permutation(a, b) && DistinctIds(a)
    ensures EvidenceBefore(a, outcome, windowMs) == EvidenceBefore(b, outcome, windowMs)
  {
    FilterPermutation(a, b, Precedes(outcome, windowMs));
    DistinctIdsFilter(a, Precedes(outcome, windowMs));
    OrderedPreEventsPermutation(Filter(a, Precedes(outcome, windowMs)), Filter(b, Precedes(outcome, windowMs)));
  }

  /** The evidence is what lies inside the window and is no outcome itself: deltas are positive and at most the
      window. */
  lemma EvidenceInWindow(events: seq<TemporalEvent>, outcome: TemporalEvent, windowMs: int, e: TemporalEvent)
    ensures e in EvidenceBefore(events, outcome, windowMs) <==>
            e in events && e.terminalStatus == None && e.id != outcome.id
            && 0 < outcome.timestamp - e.timestamp <= windowMs
  {
  }

  ghost function EvidenceHas(p: seq<TemporalEvent> -> bool): Window -> bool {
    (w: Window) => p(Evidence(w))
  }

  /** Events selected by `select` whose evidence satisfies `p`. */
  ghost function SelectedWith(select: TemporalEvent -> bool, events: seq<TemporalEvent>, windowMs: int,
                              p: seq<TemporalEvent> -> bool): TemporalEvent -> bool {
    (e: TemporalEvent) => select(e) && p(EvidenceBefore(events, e, windowMs))
  }

  /** The number of windows whose evidence satisfies `p`. */
  ghost function CountWindows(windows: seq<Window>, p: seq<TemporalEvent> -> bool): nat {
    |Filter(windows, EvidenceHas(p))|
  }

  /** The number of events selected by `select` whose evidence, read off the raw events, satisfies `p`. */
  ghost function CountOutcomes(events: seq<TemporalEvent>, select: TemporalEvent -> bool, windowMs: int,
                               p: seq<TemporalEvent> -> bool): nat {
    |Filter(events, SelectedWith(select, events, windowMs, p))|
  }

  /** Counting the windows of the selected outcomes is counting those outcomes. */
  lemma {:induction false} CountWindowsBefore(outcomes: seq<TemporalEvent>, select: TemporalEvent -> bool,
                                              events: seq<TemporalEvent>, windowMs: int, p: seq<TemporalEvent> -> bool)
    ensures CountWindows(WindowsBefore(Filter(outcomes, select), events, windowMs), p) ==
            |Filter(outcomes, SelectedWith(select, events, windowMs, p))|
  {
    if outcomes != [] {
      CountWindowsBefore(outcomes[1..], select, events, windowMs, p);
      if select(outcomes[0]) {
        var windows := WindowsBefore(Filter(outcomes, select), events, windowMs);
        assert Filter(outcomes, select)[1..] == Filter(outcomes[1..], select);
        assert windows[0] == WindowBefore(events, outcomes[0], windowMs);
        assert windows[1..] == WindowsBefore(Filter(outcomes[1..], select), events, windowMs);
      }
    }
  }

  /** The same count on permuted events. */
  lemma CountOutcomesPermutation(a: seq<TemporalEvent>, b: seq<TemporalEvent>, select: TemporalEvent -> bool,
                                 windowMs: int, p: seq<TemporalEvent> -> bool)
    requires Permutation(a, b) && DistinctIds(a)
    ensures CountOutcomes(a, select, windowMs, p) == CountOutcomes(b, select, windowMs, p)
  {
    var q, r := SelectedWith(select, a, windowMs, p), SelectedWith(select, b, windowMs, p);
    forall e ensures q(e) == r(e) {
      EvidencePermutation(a, b, e, windowMs);
    }
    FilterExtensional(a, q, r);
    FilterPermutation(a, b, r);
    PermutationBasics(Filter(a, r), Filter(b, r));
  }

  /** Target windows with `p` are the target outcomes whose raw evidence has `p`. */
  lemma CountTargetWindows(events: seq<TemporalEvent>, status: string, windowMs: int, p: seq<TemporalEvent> -> bool)
    requires DistinctIds(events)
    ensures CountWindows(TargetWindows(events, status, windowMs), p) ==
            CountOutcomes(events, HasStatus(status), windowMs, p)
  {
    SortStableSorted(events);
    CountWindowsBefore(SortStable(events), HasStatus(status), SortStable(events), windowMs, p);
    CountOutcomesPermutation(events, SortStable(events), HasStatus(status), windowMs, p);
  }

  lemma CountOtherWindows(events: seq<TemporalEvent>, status: string, windowMs: int, p: seq<TemporalEvent> -> bool)
    ensures CountWindows(OtherWindows(events, status, windowMs), p) ==
            CountOutcomes(events, HasOtherStatus(status), windowMs, p)
  {
    CountWindowsBefore(events, HasOtherStatus(status), events, windowMs, p);
  }

  /** The two families partition the comparable outcomes, whatever is counted. */
  lemma WindowFamiliesPartition(events: seq<TemporalEvent>, status: string, windowMs: int,
                                p: seq<TemporalEvent> -> bool)
    requires DistinctIds(events)
    ensures CountWindows(TargetWindows(events, status, windowMs), p)
          + CountWindows(OtherWindows(events, status, windowMs), p)
         == CountOutcomes(events, IsOutcome, windowMs, p)
  {
    var all := SelectedWith(IsOutcome, events, windowMs, p);
    var target := SelectedWith(HasStatus(status), events, windowMs, p);
    var other := SelectedWith(HasOtherStatus(status), events, windowMs, p);
    CountTargetWindows(events, status, windowMs, p);
    CountOtherWindows(events, status, windowMs, p);
    FilterPartition(events, all, HasStatus(status));
    FilterExtensional(events, Both(all, HasStatus(status)), target);
    FilterExtensional(events, Except(all, HasStatus(status)), other);
  }

  // ---------- The order of the input ----------

  lemma TargetWindowsPermutation(a: seq<TemporalEvent>, b: seq<TemporalEvent>, status: string, windowMs: int)
    requires Permutation(a, b) && DistinctIds(a)
    ensures TargetWindows(a, status, windowMs) == TargetWindows(b, status, windowMs)
  {
    SortStablePermutation(a, b);
  }

  /** Although the other windows are built from unsorted events, no count over them sees the input order. */
  lemma OtherWindowsPermutation(a: seq<TemporalEvent>, b: seq<TemporalEvent>, status: string, windowMs: int,
                                p: seq<TemporalEvent> -> bool)
    requires Permutation(a, b) && DistinctIds(a)
    ensures CountWindows(OtherWindows(a, status, windowMs), p) == CountWindows(OtherWindows(b, status, windowMs), p)
  {
    CountOtherWindows(a, status, windowMs, p);
    CountOtherWindows(b, status, windowMs, p);
    CountOutcomesPermutation(a, b, HasOtherStatus(status), windowMs, p);
  }
}
