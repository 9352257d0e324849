/** The bounded depth-first episode miner: push and pop on one shared list, a `seen` set, a growing result
    list, a cap, and two early exits from the loop. It computes exactly `MinedChoices`. */
module EpisodeMiner {
  import opened Collections
  import opened TemporalEvents
  import OrderQualityRules
  import opened EpisodeChoices

  datatype MiningOptions = MiningOptions(
    maxSteps: int,
    maxSpan: Option<int>,
    maxGap: Option<int>,
    maxCandidates: Option<int>)
  {
    function Limits(): Limits {
      EpisodeChoices.Limits(maxSpan, maxGap)
    }

    function Cap(): int {
      if maxCandidates.Some? then maxCandidates.value else 5000
    }

    /** The checks of `assertMiningOptions`, in their order. */
    function Check(): Option<MiningError> {
      if maxSteps <= 0 then Some(MaxStepsNotPositive)
      else if maxSpan.Some? && maxSpan.value < 0 then Some(MaxSpanNegative)
      else if maxGap.Some? && maxGap.value < 0 then Some(MaxGapNegative)
      else if maxCandidates.Some? && maxCandidates.value <= 0 then Some(MaxCandidatesNotPositive)
      else None
    }
  }

  datatype MiningError = MaxStepsNotPositive | MaxSpanNegative | MaxGapNegative | MaxCandidatesNotPositive

  predicate Violates(options: MiningOptions, e: MiningError) {
    match e
    case MaxStepsNotPositive => options.maxSteps <= 0
    case MaxSpanNegative => options.maxSpan.Some? && options.maxSpan.value < 0
    case MaxGapNegative => options.maxGap.Some? && options.maxGap.value < 0
    case MaxCandidatesNotPositive => options.maxCandidates.Some? && options.maxCandidates.value <= 0
  }

  function PlaceOf(e: MiningError): nat {
    match e
    case MaxStepsNotPositive => 0
    case MaxSpanNegative => 1
    case MaxGapNegative => 2
    case MaxCandidatesNotPositive => 3
  }

  /** The error is that of the first check that fails, and there is none when all pass. */
  lemma FirstCheckDecides(options: MiningOptions, e: MiningError)
    ensures options.Check() == Some(e) <==>
            Violates(options, e) && forall d :: PlaceOf(d) < PlaceOf(e) ==> !Violates(options, d)
    ensures options.Check() == None <==> forall d :: !Violates(options, d)
  {
    var found := options.Check();
    if found.Some? {
      assert Violates(options, found.value);
      assert PlaceOf(found.value) < PlaceOf(e) || PlaceOf(e) <= PlaceOf(found.value);
    }
  }

  datatype MinedEpisode = MinedEpisode(
    key: string,
    sequence: seq<string>,
    events: seq<TemporalEvent>,
    quality: OrderQuality)

  function EpisodeFor(events: seq<TemporalEvent>): MinedEpisode {
    MinedEpisode(SequenceKey(SequenceOf(events)), SequenceOf(events), events,
                 OrderQualityRules.QualityForEvents(events))
  }

  /** The episodes of a list of choices. */
  ghost function EpisodesAt(o: seq<TemporalEvent>, cs: seq<Choice>): (r: seq<MinedEpisode>)
    ensures |r| == |cs|
  {
    if cs == [] then [] else [EpisodeFor(EventsAt(o, cs[0]))] + EpisodesAt(o, cs[1..])
  }

  lemma {:induction false} EpisodesAtSnoc(o: seq<TemporalEvent>, cs: seq<Choice>, c: Choice)
    ensures EpisodesAt(o, cs + [c]) == EpisodesAt(o, cs) + [EpisodeFor(EventsAt(o, c))]
  {
    if cs == [] {
      assert cs + [c] == [c] && [c][1..] == [];
    } else {
      assert (cs + [c])[1..] == cs[1..] + [c];
      EpisodesAtSnoc(o, cs[1..], c);
    }
  }

  lemma {:induction false} EpisodesAtIndex(o: seq<TemporalEvent>, cs: seq<Choice>, i: nat)
    requires i < |cs|
    ensures EpisodesAt(o, cs)[i] == EpisodeFor(EventsAt(o, cs[i]))
  {
    if i > 0 {
      EpisodesAtIndex(o, cs[1..], i - 1);
    }
  }

  /** Every rendered episode comes from one of the choices. */
  lemma {:induction false} EpisodeOrigin(o: seq<TemporalEvent>, cs: seq<Choice>, e: MinedEpisode) returns (c: Choice)
    requires e in EpisodesAt(o, cs)
    ensures c in cs && e == EpisodeFor(EventsAt(o, c))
  {
    c := cs[0];
    if e != EpisodeFor(EventsAt(o, cs[0])) {
      c := EpisodeOrigin(o, cs[1..], e);
    }
  }

  class EpisodeSearch {
    const ordered: seq<TemporalEvent>
    const maxSteps: nat
    const lim: Limits
    const cap: nat

    var current: seq<TemporalEvent>
    var seen: set<string>
    var episodes: seq<MinedEpisode>

    /** The indices behind `current`, and the choices behind `episodes`. */
    ghost var choice: Choice
    ghost var kept: seq<Choice>

    ghost predicate Valid()
      reads this
    {
      && Chronological(ordered) && maxSteps >= 1
      && Bounded(ordered, choice) && current == EventsAt(ordered, choice)
      && episodes == EpisodesAt(ordered, kept)
      && seen == KeysOf(ordered, kept)
      && |kept| <= cap
    }

    constructor (ordered: seq<TemporalEvent>, maxSteps: nat, lim: Limits, cap: nat)
      requires Chronological(ordered) && maxSteps >= 1
      ensures Valid() && current == [] && kept == []
      ensures this.ordered == ordered && this.maxSteps == maxSteps && this.lim == lim && this.cap == cap
    {
      this.ordered, this.maxSteps, this.lim, this.cap := ordered, maxSteps, lim, cap;
      current, seen, episodes := [], {}, [];
      choice, kept := [], [];
    }

    /** Records the current episode unless its key was recorded before. */
    method AddEpisode()
      requires Valid() && choice != [] && |kept| < cap
      modifies this
      ensures Valid() && current == old(current) && choice == old(choice)
      ensures kept == Collect(ordered, [choice], cap, old(kept))
    {
      var sequence := SequenceOf(current);
      var key := SequenceKey(sequence);
      assert key == Key(ordered, choice);
      KeysOfExact(ordered, kept, key);
      assert [choice][1..] == [];
      if key in seen {
        return;
      }
      seen := seen + {key};
      episodes := episodes + [MinedEpisode(key, sequence, current, OrderQualityRules.QualityForEvents(current))];
      KeysOfSnoc(ordered, kept, choice);
      EpisodesAtSnoc(ordered, kept, choice);
      kept := kept + [choice];
    }

    /** Adds the current episode and then every extension of it; `current` is restored. */
    method ExtendEpisode(nextIndex: nat)
      requires Valid() && choice != [] && Admissible(ordered, choice, lim) && |choice| <= maxSteps
      requires nextIndex == choice[|choice| - 1] + 1 && |kept| < cap
      modifies this
      ensures Valid() && current == old(current) && choice == old(choice)
      ensures kept == Collect(ordered, Subtree(ordered, choice, maxSteps, lim), cap, old(kept))
      decreases |ordered| - nextIndex, 0
    {
      ghost var cur := choice;
      EventsAtIndex(ordered, cur);
      ghost var before := kept;
      AddEpisode();
      FromIndexStart(ordered, cur, nextIndex, maxSteps, lim, cap, before, kept);
      if |current| >= maxSteps || |episodes| >= cap {
        if |current| < maxSteps {
          FromIndexExit(ordered, cur, nextIndex, maxSteps, lim, cap, kept);
        }
        return;
      }
      var first := current[0];
      var previous := current[|current| - 1];
      assert first == ordered[cur[0]] && previous == ordered[cur[|cur| - 1]];
      var index := nextIndex;
      ghost var target := FromIndex(ordered, cur, index, maxSteps, lim, cap, kept);
      while index < |ordered| && |episodes| < cap
        invariant nextIndex <= index && Extendable(ordered, cur, index, maxSteps, lim)
        invariant Valid() && choice == cur && current == old(current)
        invariant target == FromIndex(ordered, cur, index, maxSteps, lim, cap, kept)
      {
        var next := ordered[index];
        if !Within(next.timestamp - first.timestamp, lim.maxSpan) { break; }
        if !Within(next.timestamp - previous.timestamp, lim.maxGap) { break; }
        ghost var prior, here := kept, index;
        ExtendStep(ordered, cur, index, lim);
        Descend(next, index);
        index := index + 1;
        FromIndexStep(ordered, cur, here, index, maxSteps, lim, cap, prior, kept, target);
      }
      FromIndexExit(ordered, cur, index, maxSteps, lim, cap, kept);
    }

    /** One iteration's push, recursive call and pop. */
    method Descend(next: TemporalEvent, index: nat)
      requires Valid() && index < |ordered| && next == ordered[index] && |choice| < maxSteps && |kept| < cap
      requires Admissible(ordered, choice + [index], lim)
      modifies this
      ensures Valid() && current == old(current) && choice == old(choice)
      ensures kept == Collect(ordered, Subtree(ordered, choice + [index], maxSteps, lim), cap, old(kept))
      decreases |ordered| - index - 1, 1
    {
      EventsAtSnoc(ordered, choice, index);
      current := current + [next];
      choice := choice + [index];
      ExtendEpisode(index + 1);
      current := current[..|current| - 1];
      choice := choice[..|choice| - 1];
    }
  }

  // ---------- What is left to collect at a loop index ----------

  ghost predicate Extendable(o: seq<TemporalEvent>, cur: Choice, i: nat, maxSteps: nat, lim: Limits) {
    && (cur == [] || Admissible(o, cur, lim)) && |cur| < maxSteps
    && i <= |o| && (cur != [] ==> cur[|cur| - 1] < i)
  }

  /** The kept choices once all extensions of `cur` from index `i` on have been collected. */
  ghost function FromIndex(o: seq<TemporalEvent>, cur: Choice, i: nat, maxSteps: nat, lim: Limits, cap: nat,
                           kept: seq<Choice>): seq<Choice>
    requires Extendable(o, cur, i, maxSteps, lim)
  {
    Collect(o, Children(o, cur, i, maxSteps, lim), cap, kept)
  }

  /** After the choice itself comes what its extensions contribute. */
  lemma FromIndexStart(o: seq<TemporalEvent>, cur: Choice, next: nat, maxSteps: nat, lim: Limits, cap: nat,
                       kept: seq<Choice>, kept': seq<Choice>)
    requires Admissible(o, cur, lim) && next == cur[|cur| - 1] + 1 && kept' == Collect(o, [cur], cap, kept)
    ensures |cur| == maxSteps ==> Collect(o, Subtree(o, cur, maxSteps, lim), cap, kept) == kept'
    ensures |cur| < maxSteps ==> Collect(o, Subtree(o, cur, maxSteps, lim), cap, kept) ==
                                 FromIndex(o, cur, next, maxSteps, lim, cap, kept')
  {
    if |cur| < maxSteps {
      CollectAppend(o, [cur], Children(o, cur, next, maxSteps, lim), cap, kept);
    } else {
      assert [cur] + [] == [cur];
    }
  }

  /** Collecting the subtree of index `i` leaves what the later indices contribute. */
  lemma FromIndexStep(o: seq<TemporalEvent>, cur: Choice, i: nat, next: nat, maxSteps: nat, lim: Limits, cap: nat,
                      kept: seq<Choice>, kept': seq<Choice>, target: seq<Choice>)
    requires i < |o| && next == i + 1 && Extendable(o, cur, i, maxSteps, lim) && Fits(o, cur, i, lim)
    requires Admissible(o, cur + [i], lim)
    requires kept' == Collect(o, Subtree(o, cur + [i], maxSteps, lim), cap, kept)
    requires target == FromIndex(o, cur, i, maxSteps, lim, cap, kept)
    ensures target == FromIndex(o, cur, next, maxSteps, lim, cap, kept')
  {
    CollectAppend(o, Subtree(o, cur + [i], maxSteps, lim), Children(o, cur, next, maxSteps, lim), cap, kept);
  }

  /** Leaving the loop loses nothing: at the end, at the cap, or at an index that is too late. */
  lemma FromIndexExit(o: seq<TemporalEvent>, cur: Choice, i: nat, maxSteps: nat, lim: Limits, cap: nat,
                      kept: seq<Choice>)
    requires Chronological(o) && Extendable(o, cur, i, maxSteps, lim)
    requires i == |o| || |kept| >= cap || !Fits(o, cur, i, lim)
    ensures FromIndex(o, cur, i, maxSteps, lim, cap, kept) == kept
  {
    if i < |o| && !Fits(o, cur, i, lim) {
      NothingAfterBreak(o, cur, i, maxSteps, lim);
    }
  }

  /** Mines a window: rejects bad options, otherwise returns the exact result. */
  method MineOrderedEpisodes(events: seq<TemporalEvent>, options: MiningOptions)
    returns (r: Result<seq<MinedEpisode>, MiningError>)
    ensures options.Check().Some? ==> r == Err(options.Check().value)
    ensures options.Check().None? ==>
              r == Ok(EpisodesAt(OrderedPreEvents(events),
                                 MinedChoices(OrderedPreEvents(events), options.maxSteps, options.Limits(),
                                              options.Cap())))
  {
    var failure := options.Check();
    if failure.Some? {
      return Err(failure.value);
    }
    var ordered := OrderedPreEvents(events);
    var lim, cap := options.Limits(), options.Cap();
    OrderedPreEventsChronological(events);
    var search := new EpisodeSearch(ordered, options.maxSteps, lim, cap);
    var index := 0;
    ghost var target := MinedChoices(ordered, options.maxSteps, lim, cap);
    while index < |ordered|
      invariant 0 <= index <= |ordered|
      invariant search.Valid() && search.current == []
      invariant target == FromIndex(ordered, [], index, options.maxSteps, lim, cap, search.kept)
      invariant |search.kept| < cap
    {
      ghost var prior, here := search.kept, index;
      ExtendStep(ordered, [], index, lim);
      search.Descend(ordered[index], index);
      index := index + 1;
      FromIndexStep(ordered, [], here, index, options.maxSteps, lim, cap, prior, search.kept, target);
      if |search.episodes| >= cap {
        FromIndexExit(ordered, [], index, options.maxSteps, lim, cap, search.kept);
        return Ok(search.episodes);
      }
    }
    return Ok(search.episodes);
  }
}
