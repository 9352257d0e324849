/** The events the temporal learner works on, the signature it mines and the total order it sorts by. */
module TemporalEvents {
  import opened Collections

  datatype OrderQuality = RealTimeOrdered | TurnOrdered | SameTimestampOrdered | SyntheticOrdered

  /** `metadataQuality` is the value under `metadata.temporal_order_quality` when that value is one of
      the four qualities. An `orderIndex` that is not a finite number is `None`. `seeded` says whether the event carries
      the id of a pattern that seeded it. */
  datatype TemporalEvent = TemporalEvent(
    id: string,
    eventType: string,
    eventSource: string,
    actionKind: Option<string>,
    terminalStatus: Option<string>,
    timestamp: int,
    orderIndex: Option<int>,
    turnIndex: Option<int>,
    fishIndex: Option<int>,
    explicitQuality: Option<OrderQuality>,
    metadataQuality: Option<OrderQuality>,
    sourceDomain: string,
    seeded: bool)

  /** The signature of an event before an outcome; its own terminal status is masked. */
  function PreEventSignature(e: TemporalEvent): string {
    Join([e.eventType, e.eventSource, if e.actionKind.Some? then e.actionKind.value else "none", "none"], '|')
  }

  /** What an event is called when it takes no action. */
  function ActionOf(e: TemporalEvent): string {
    match e.actionKind
    case None => "none"
    case Some(kind) => kind
  }

  ghost predicate NoBars(e: TemporalEvent) {
    '|' !in e.eventType && '|' !in e.eventSource && '|' !in ActionOf(e)
  }

  /** The signature says type, source and action of an event, and nothing else. */
  lemma SignatureIdentifies(a: TemporalEvent, b: TemporalEvent)
    requires NoBars(a) && NoBars(b)
    ensures PreEventSignature(a) == PreEventSignature(b) <==>
            a.eventType == b.eventType && a.eventSource == b.eventSource && ActionOf(a) == ActionOf(b)
  {
    var p, q := [a.eventType, a.eventSource, ActionOf(a), "none"], [b.eventType, b.eventSource, ActionOf(b), "none"];
    assert PreEventSignature(a) == Join(p, '|') && PreEventSignature(b) == Join(q, '|');
    if PreEventSignature(a) == PreEventSignature(b) {
      JoinInjective(p, q, '|');
      assert p[0] == q[0] && p[1] == q[1] && p[2] == q[2];
    }
  }

  predicate IsPreEvent(e: TemporalEvent) {
    e.terminalStatus.None?
  }

  // ---------- The order of the stable sort ----------

  /** Ids are compared by code unit. */
  predicate StringLeq(a: string, b: string) {
    a == [] || (b != [] && (a[0] < b[0] || (a[0] == b[0] && StringLeq(a[1..], b[1..]))))
  }

  lemma {:induction false} StringLeqTotal(a: string, b: string)
    ensures StringLeq(a, b) || StringLeq(b, a)
    ensures StringLeq(a, b) && StringLeq(b, a) ==> a == b
  {
    if a != [] && b != [] && a[0] == b[0] {
      StringLeqTotal(a[1..], b[1..]);
      assert a == [a[0]] + a[1..] && b == [b[0]] + b[1..];
    }
  }

  lemma {:induction false} StringLeqTransitive(a: string, b: string, c: string)
    requires StringLeq(a, b) && StringLeq(b, c)
    ensures StringLeq(a, c)
  {
    if a != [] && b != [] && c != [] && a[0] == b[0] == c[0] {
      StringLeqTransitive(a[1..], b[1..], c[1..]);
    }
  }

  function NormalizedOrderIndex(e: TemporalEvent): int {
    if e.orderIndex.Some? then e.orderIndex.value else 0
  }

  /** The comparator: timestamp, then order index, then id. */
  predicate EventLeq(l: TemporalEvent, r: TemporalEvent) {
    if l.timestamp != r.timestamp then l.timestamp < r.timestamp
    else if NormalizedOrderIndex(l) != NormalizedOrderIndex(r) then NormalizedOrderIndex(l) < NormalizedOrderIndex(r)
    else StringLeq(l.id, r.id)
  }

  lemma EventLeqTotalPreorder()
    ensures TotalPreorder(EventLeq)
  {
    forall x, y ensures EventLeq(x, y) || EventLeq(y, x) {
      StringLeqTotal(x.id, y.id);
    }
    forall x, y, z | EventLeq(x, y) && EventLeq(y, z) ensures EventLeq(x, z) {
      if StringLeq(x.id, y.id) && StringLeq(y.id, z.id) {
        StringLeqTransitive(x.id, y.id, z.id);
      }
    }
  }

  function SortStable(events: seq<TemporalEvent>): seq<TemporalEvent> {
    SortBy(events, EventLeq)
  }

  /** Timestamps never go back. */
  ghost predicate Chronological(events: seq<TemporalEvent>) {
    |events| <= 1 || (events[0].timestamp <= events[1].timestamp && Chronological(events[1..]))
  }

  lemma {:induction false} ChronologicalPair(events: seq<TemporalEvent>, i: nat, j: nat)
    requires Chronological(events) && i <= j < |events|
    ensures events[i].timestamp <= events[j].timestamp
    decreases j
  {
    if i > 0 {
      ChronologicalPair(events[1..], i - 1, j - 1);
    } else if j > 0 {
      ChronologicalPair(events[1..], 0, j - 1);
    }
  }

  lemma {:induction false} SortedIsChronological(events: seq<TemporalEvent>)
    requires SortedBy(events, EventLeq)
    ensures Chronological(events)
  {
    if |events| > 1 {
      assert EventLeq(events[0], events[1]);
      SortedIsChronological(events[1..]);
    }
  }

  ghost predicate DistinctIds(events: seq<TemporalEvent>) {
    forall i, j :: 0 <= i < j < |events| ==> events[i].id != events[j].id
  }

  lemma DistinctIdsMembers(events: seq<TemporalEvent>)
    requires DistinctIds(events)
    ensures NoDuplicates(events)
    ensures forall x, y :: x in events && y in events && x.id == y.id ==> x == y
  {
    forall x, y | x in events && y in events && x.id == y.id ensures x == y {
      var i :| 0 <= i < |events| && events[i] == x;
      var j :| 0 <= j < |events| && events[j] == y;
    }
  }

  lemma DistinctIdsPermutation(a: seq<TemporalEvent>, b: seq<TemporalEvent>)
    requires Permutation(a, b) && DistinctIds(a)
    ensures DistinctIds(b)
  {
    DistinctIdsMembers(a);
    PermutationNoDuplicates(a, b);
    PermutationBasics(a, b);
    forall i, j | 0 <= i < j < |b| ensures b[i].id != b[j].id {
      assert b[i] in a && b[j] in a;
    }
  }

  lemma DistinctIdsFilter(events: seq<TemporalEvent>, keep: TemporalEvent -> bool)
    requires DistinctIds(events)
    ensures DistinctIds(Filter(events, keep))
  {
    DistinctIdsMembers(events);
    FilterNoDuplicates(events, keep);
    var kept := Filter(events, keep);
    forall i, j | 0 <= i < j < |kept| ensures kept[i].id != kept[j].id {
      assert kept[i] in kept && kept[j] in kept;
    }
  }

  lemma SortStableSorted(events: seq<TemporalEvent>)
    ensures SortedBy(SortStable(events), EventLeq)
    ensures Chronological(SortStable(events))
    ensures Permutation(SortStable(events), events)
  {
    EventLeqTotalPreorder();
    SortBySorted(events, EventLeq);
    SortedIsChronological(SortStable(events));
  }

  /** One string is a prefix of the other, or has the smaller character where they first differ. */
  lemma {:induction false} StringLeqMeaning(a: string, b: string)
    ensures StringLeq(a, b) <==> a <= b || exists k :: FirstDifference(a, b, k) && a[k] < b[k]
  {
    if a != [] && b != [] {
      if a[0] != b[0] {
        assert FirstDifference(a, b, 0);
      } else {
        StringLeqMeaning(a[1..], b[1..]);
        assert a <= b <==> a[1..] <= b[1..];
        forall k | 0 < k < |a| && k < |b| ensures FirstDifference(a, b, k) <==> FirstDifference(a[1..], b[1..], k - 1) {
          assert a[..k] == [a[0]] + a[1..][..k - 1] && b[..k] == [b[0]] + b[1..][..k - 1];
        }
        if k :| FirstDifference(a[1..], b[1..], k) && a[1..][k] < b[1..][k] {
          assert FirstDifference(a, b, k + 1);
        }
      }
    }
  }

  predicate FirstDifference(a: string, b: string, k: int) {
    0 <= k < |a| && k < |b| && a[..k] == b[..k] && a[k] != b[k]
  }

  function PlaceInTime(e: TemporalEvent): int {
    match e.orderIndex
    case None => 0
    case Some(i) => i
  }

  /** Earlier events come first; among events of one time the smaller order index, zero when there is none; among those
      the smaller id. */
  lemma SortStableOrder(events: seq<TemporalEvent>, i: nat, j: nat)
    requires i < j < |SortStable(events)|
    ensures var l, r := SortStable(events)[i], SortStable(events)[j];
            && l.timestamp <= r.timestamp
            && (l.timestamp == r.timestamp ==> PlaceInTime(l) <= PlaceInTime(r))
            && (l.timestamp == r.timestamp && PlaceInTime(l) == PlaceInTime(r) ==> StringLeq(l.id, r.id))
  {
    SortStableSorted(events);
    assert EventLeq(SortStable(events)[i], SortStable(events)[j]);
  }

  /** With distinct ids the order of the input does not reach the sorted list. */
  lemma SortStablePermutation(a: seq<TemporalEvent>, b: seq<TemporalEvent>)
    requires Permutation(a, b) && DistinctIds(a)
    ensures SortStable(a) == SortStable(b)
  {
    EventLeqTotalPreorder();
    DistinctIdsMembers(a);
    forall x, y | x in a && y in a && EventLeq(x, y) && EventLeq(y, x) ensures x == y {
      StringLeqTotal(x.id, y.id);
    }
    SortByPermutation(a, b, EventLeq);
  }

  /** The list both the miner and the matcher work on: sorted, outcome events removed. */
  function OrderedPreEvents(events: seq<TemporalEvent>): (r: seq<TemporalEvent>)
    ensures forall e :: e in r <==> e in events && IsPreEvent(e)
  {
    var ordered := SortStable(events);
    PermutationBasics(ordered, events);
    Filter(ordered, IsPreEvent)
  }

  lemma OrderedPreEventsChronological(events: seq<TemporalEvent>)
    ensures Chronological(OrderedPreEvents(events))
  {
    SortStableSorted(events);
    FilterSorted(SortStable(events), IsPreEvent, EventLeq);
    SortedIsChronological(OrderedPreEvents(events));
  }

  lemma OrderedPreEventsPermutation(a: seq<TemporalEvent>, b: seq<TemporalEvent>)
    requires Permutation(a, b) && DistinctIds(a)
    ensures OrderedPreEvents(a) == OrderedPreEvents(b)
  {
    SortStablePermutation(a, b);
  }

  /** Sorting a window once more, as the scorer does before it mines it, changes nothing. */
  lemma OrderedPreEventsResort(events: seq<TemporalEvent>)
    ensures OrderedPreEvents(SortStable(events)) == OrderedPreEvents(events)
  {
    SortStableSorted(events);
    SortByFixpoint(SortStable(events), EventLeq);
  }

  /** `signature` keys are joined with the unit separator, so no signature may contain it. */
  const UNIT_SEPARATOR: char := '\U{1F}'

  predicate PlainSignature(signature: string) {
    UNIT_SEPARATOR !in signature
  }

  ghost predicate PlainSignatures(events: seq<TemporalEvent>) {
    forall e :: e in events ==> PlainSignature(PreEventSignature(e))
  }
}
