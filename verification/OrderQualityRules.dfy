/** How far the order of a group of events can be trusted (`temporalOrderQualityForEvents`). */
module OrderQualityRules {
  import opened Collections
  import opened TemporalEvents

  function Rank(q: OrderQuality): nat {
    match q
    case RealTimeOrdered => 0
    case TurnOrdered => 1
    case SameTimestampOrdered => 2
    case SyntheticOrdered => 3
  }

  predicate HasPositionIndex(e: TemporalEvent) {
    e.turnIndex.Some? || e.fishIndex.Some? || e.orderIndex.Some?
  }

  function EventQuality(e: TemporalEvent): OrderQuality {
    if e.explicitQuality.Some? then e.explicitQuality.value
    else if e.metadataQuality.Some? then e.metadataQuality.value
    else if HasPositionIndex(e) then TurnOrdered
    else RealTimeOrdered
  }

  predicate AnyHasQuality(events: seq<TemporalEvent>, q: OrderQuality) {
    exists e :: e in events && EventQuality(e) == q
  }

  predicate TiedNeighbours(ordered: seq<TemporalEvent>) {
    exists i :: 1 <= i < |ordered| && ordered[i].timestamp == ordered[i - 1].timestamp
  }

  function QualityForEvents(events: seq<TemporalEvent>): OrderQuality {
    if events == [] then RealTimeOrdered
    else if AnyHasQuality(events, SyntheticOrdered) then SyntheticOrdered
    else if AnyHasQuality(events, SameTimestampOrdered) then SameTimestampOrdered
    else
      var ordered := SortStable(events);
      if exists e :: e in ordered && e.explicitQuality == Some(SyntheticOrdered) then SyntheticOrdered
      else if TiedNeighbours(ordered) then SameTimestampOrdered
      else if AnyHasQuality(events, TurnOrdered) then TurnOrdered
      else if exists e :: e in ordered && HasPositionIndex(e) then TurnOrdered
      else RealTimeOrdered
  }

  function MergeQuality(left: OrderQuality, right: OrderQuality): OrderQuality {
    if Rank(right) > Rank(left) then right else left
  }

  // ---------- What the quality means ----------

  ghost predicate HasTie(events: seq<TemporalEvent>) {
    exists i, j :: 0 <= i < j < |events| && events[i].timestamp == events[j].timestamp
  }

  /** The label of an event: its own quality, or else the one in its metadata. */
  ghost predicate Labelled(e: TemporalEvent, q: OrderQuality) {
    e.explicitQuality == Some(q) || (e.explicitQuality == None && e.metadataQuality == Some(q))
  }

  ghost predicate AnyLabelled(events: seq<TemporalEvent>, q: OrderQuality) {
    exists e :: e in events && Labelled(e, q)
  }

  ghost predicate Placed(e: TemporalEvent) {
    e.turnIndex != None || e.fishIndex != None || e.orderIndex != None
  }

  /** The reasons for which a group must be rated `q` or worse, free of any sorting. */
  ghost predicate Warrants(events: seq<TemporalEvent>, q: OrderQuality) {
    match q
    case RealTimeOrdered => true
    case TurnOrdered => exists e :: e in events && (Labelled(e, TurnOrdered) || Placed(e))
    case SameTimestampOrdered => AnyLabelled(events, SameTimestampOrdered) || HasTie(events)
    case SyntheticOrdered => AnyLabelled(events, SyntheticOrdered)
  }

  /** Two events share a timestamp exactly when two neighbours of the sorted list do. */
  lemma TiesAreNeighbours(ordered: seq<TemporalEvent>)
    requires Chronological(ordered)
    ensures TiedNeighbours(ordered) <==> HasTie(ordered)
  {
    if HasTie(ordered) {
      var i, j :| 0 <= i < j < |ordered| && ordered[i].timestamp == ordered[j].timestamp;
      ChronologicalPair(ordered, i, i + 1);
      ChronologicalPair(ordered, i + 1, j);
      assert ordered[i + 1].timestamp == ordered[i + 1 - 1].timestamp;
    }
  }

  lemma SubsetKeepsTie(a: seq<TemporalEvent>, b: seq<TemporalEvent>)
    requires multiset(a) <= multiset(b) && HasTie(a)
    ensures HasTie(b)
  {
    var i, j :| 0 <= i < j < |a| && a[i].timestamp == a[j].timestamp;
    assert a[i] in multiset(a) && a[j] in multiset(a);
    assert a[i] in multiset(b) && a[j] in multiset(b);
    if a[i] == a[j] {
      assert multiset(a)[a[i]] >= 2 by {
        assert a == a[..j] + a[j..];
        assert a[i] in a[..j] && a[j] in a[j..];
        assert multiset(a) == multiset(a[..j]) + multiset(a[j..]);
        assert a[i] in multiset(a[..j]) && a[j] in multiset(a[j..]);
      }
      NoDuplicatesMultiplicity(b);
      assert multiset(b)[a[i]] >= 2;
      assert !NoDuplicates(b);
    } else {
      var k :| 0 <= k < |b| && b[k] == a[i];
      var l :| 0 <= l < |b| && b[l] == a[j];
      assert k < l || l < k;
    }
  }

  lemma PermutationKeepsTie(a: seq<TemporalEvent>, b: seq<TemporalEvent>)
    requires Permutation(a, b)
    ensures HasTie(a) <==> HasTie(b)
  {
    if HasTie(a) {
      SubsetKeepsTie(a, b);
    }
    if HasTie(b) {
      SubsetKeepsTie(b, a);
    }
  }

  /** Except for events that are turn ordered only by their place, qualities are labels. */
  lemma LabelIsQuality(e: TemporalEvent, q: OrderQuality)
    ensures q == SyntheticOrdered || q == SameTimestampOrdered ==> (EventQuality(e) == q <==> Labelled(e, q))
    ensures EventQuality(e) == TurnOrdered || HasPositionIndex(e) <==> Labelled(e, TurnOrdered) || Placed(e)
  {
  }

  lemma LabelsAreQualities(events: seq<TemporalEvent>, q: OrderQuality)
    requires q == SyntheticOrdered || q == SameTimestampOrdered
    ensures AnyHasQuality(events, q) <==> AnyLabelled(events, q)
  {
    forall e ensures EventQuality(e) == q <==> Labelled(e, q) {
      LabelIsQuality(e, q);
    }
  }

  lemma TurnsAreWarranted(events: seq<TemporalEvent>, ordered: seq<TemporalEvent>)
    requires forall e :: e in ordered <==> e in events
    ensures AnyHasQuality(events, TurnOrdered) || (exists e :: e in ordered && HasPositionIndex(e)) <==>
            Warrants(events, TurnOrdered)
  {
    forall e ensures EventQuality(e) == TurnOrdered || HasPositionIndex(e) <==> Labelled(e, TurnOrdered) || Placed(e) {
      LabelIsQuality(e, TurnOrdered);
    }
    if e :| e in events && EventQuality(e) == TurnOrdered {
      assert Labelled(e, TurnOrdered) || Placed(e);
    }
    if e :| e in events && (Labelled(e, TurnOrdered) || Placed(e)) {
      assert EventQuality(e) == TurnOrdered || HasPositionIndex(e);
    }
  }

  /** The quality is the worst one the events warrant. */
  lemma QualityIsWorstWarranted(events: seq<TemporalEvent>)
    ensures Warrants(events, QualityForEvents(events))
    ensures forall q :: Warrants(events, q) ==> Rank(q) <= Rank(QualityForEvents(events))
  {
    var ordered := SortStable(events);
    SortStableSorted(events);
    PermutationBasics(ordered, events);
    TiesAreNeighbours(ordered);
    PermutationKeepsTie(ordered, events);
    LabelsAreQualities(events, SyntheticOrdered);
    LabelsAreQualities(events, SameTimestampOrdered);
    TurnsAreWarranted(events, ordered);
    if e :| e in ordered && e.explicitQuality == Some(SyntheticOrdered) {
      assert Labelled(e, SyntheticOrdered);
    }
    assert QualityForEvents(events) == WorstWarranted(events);
  }

  ghost function WorstWarranted(events: seq<TemporalEvent>): OrderQuality {
    if Warrants(events, SyntheticOrdered) then SyntheticOrdered
    else if Warrants(events, SameTimestampOrdered) then SameTimestampOrdered
    else if Warrants(events, TurnOrdered) then TurnOrdered
    else RealTimeOrdered
  }

  /** Adding events never improves the quality. */
  lemma QualityWorsensWithMore(a: seq<TemporalEvent>, b: seq<TemporalEvent>)
    requires multiset(a) <= multiset(b)
    ensures Rank(QualityForEvents(a)) <= Rank(QualityForEvents(b))
  {
    QualityIsWorstWarranted(a);
    QualityIsWorstWarranted(b);
    forall e | e in a ensures e in b {
      assert e in multiset(a) && e in multiset(b);
    }
    if HasTie(a) {
      SubsetKeepsTie(a, b);
    }
    assert Warrants(b, QualityForEvents(a));
  }

  /** The quality does not depend on the order of the events, even when ids repeat. */
  lemma QualityPermutation(a: seq<TemporalEvent>, b: seq<TemporalEvent>)
    requires Permutation(a, b)
    ensures QualityForEvents(a) == QualityForEvents(b)
  {
    QualityWorsensWithMore(a, b);
    QualityWorsensWithMore(b, a);
  }

  /** `MergeQuality` is the least upper bound of the two ranks. */
  lemma MergeIsJoin(a: OrderQuality, b: OrderQuality, bound: OrderQuality)
    ensures MergeQuality(a, b) in {a, b}
    ensures Rank(MergeQuality(a, b)) <= Rank(bound) <==> Rank(a) <= Rank(bound) && Rank(b) <= Rank(bound)
  {
  }
}
