/** What the accumulated numbers mean: support counts windows, deltas and lead times are sums over them, and
    support is anti-monotone. */
module SupportTheorems {
  import TemporalEvents
  import OrderQualityRules
  import EpisodeMiner
  import opened CandidateTally
  import RealArithmetic

  type Supporters = seq<(TemporalEvents.TemporalEvent, EpisodeMiner.MinedEpisode)>

  // ---------- The accumulator of a key is a summary of its supporters ----------

  function DeltaSum(supporters: Supporters, k: nat): int {
    if supporters == [] then 0
    else
      var last := supporters[|supporters| - 1];
      DeltaSum(supporters[..|supporters| - 1], k) + if k < |last.1.events| then Delta(last.0, last.1.events[k]) else 0
  }

  function SupporterIds(supporters: Supporters): set<string> {
    if supporters == [] then {}
    else SupporterIds(supporters[..|supporters| - 1]) + {supporters[|supporters| - 1].0.id}
  }

  function LeadTimes(supporters: Supporters): seq<int> {
    if supporters == [] then []
    else
      var last := supporters[|supporters| - 1];
      LeadTimes(supporters[..|supporters| - 1]) + if last.1.events == [] then [] else [Delta(last.0, last.1.events[0])]
  }

  /** A mined episode inside its window: deltas never grow from step to step and stay within the window. */
  ghost predicate InsideWindow(outcome: TemporalEvents.TemporalEvent, e: EpisodeMiner.MinedEpisode, windowMs: int) {
    && (forall i, j :: 0 <= i <= j < |e.events| ==> Delta(outcome, e.events[j]) <= Delta(outcome, e.events[i]))
    && (forall i :: 0 <= i < |e.events| ==> 0 <= Delta(outcome, e.events[i]) <= windowMs)
  }

  ghost predicate SupportersInside(supporters: Supporters, length: nat, windowMs: int) {
    forall x :: x in supporters ==> |x.1.events| == length && InsideWindow(x.0, x.1, windowMs)
  }

  /** Support windows, lead times and deltas of an accumulator are the set, the list and the sums over its
      supporters. */
  ghost predicate Summarizes(acc: Accumulator, supporters: Supporters) {
    && acc.supportWindows == SupporterIds(supporters)
    && acc.leadTimes == LeadTimes(supporters)
    && |acc.deltaByStep| == |acc.sequence|
    && (forall k :: 0 <= k < |acc.deltaByStep| ==> acc.deltaByStep[k] == DeltaSum(supporters, k))
  }

  lemma SupportersSnoc(supporters: Supporters, outcome: TemporalEvents.TemporalEvent, e: EpisodeMiner.MinedEpisode)
    requires e.events != []
    ensures SupporterIds(supporters + [(outcome, e)]) == SupporterIds(supporters) + {outcome.id}
    ensures LeadTimes(supporters + [(outcome, e)]) == LeadTimes(supporters) + [Delta(outcome, e.events[0])]
  {
    assert (supporters + [(outcome, e)])[..|supporters|] == supporters;
  }

  lemma DeltaSumSnoc(supporters: Supporters, outcome: TemporalEvents.TemporalEvent, e: EpisodeMiner.MinedEpisode,
                     k: nat)
    ensures DeltaSum(supporters + [(outcome, e)], k) ==
            DeltaSum(supporters, k) + if k < |e.events| then Delta(outcome, e.events[k]) else 0
  {
    assert (supporters + [(outcome, e)])[..|supporters|] == supporters;
  }

  lemma FreshSummarizes(e: EpisodeMiner.MinedEpisode, c: Curves)
    ensures Summarizes(Fresh(e, c), [])
  {
  }

  /** One more contribution is one more supporter. */
  lemma ContributeSummarizes(acc: Accumulator, supporters: Supporters, outcome: TemporalEvents.TemporalEvent,
                             e: EpisodeMiner.MinedEpisode, c: Curves)
    requires e.events != [] && |acc.deltaByStep| == |e.events| && Summarizes(acc, supporters)
    ensures Summarizes(Contribute(acc, outcome, e, c), supporters + [(outcome, e)])
  {
    var next := Contribute(acc, outcome, e, c);
    SupportersSnoc(supporters, outcome, e);
    forall k | 0 <= k < |next.deltaByStep| ensures next.deltaByStep[k] == DeltaSum(supporters + [(outcome, e)], k) {
      AddDeltasIndex(acc.deltaByStep, outcome, e.events, k);
      DeltaSumSnoc(supporters, outcome, e, k);
    }
  }

  /** The tally of a key summarizes the supporters of the key. */
  lemma {:induction false} TallySummarizes(ws: seq<MinedWindow>, key: string, c: Curves)
    requires WellFormed(ws)
    ensures Tally(ws, key, c).Some? <==> Supporting(ws, key) != []
    ensures Tally(ws, key, c).Some? ==> Summarizes(Tally(ws, key, c).value, Supporting(ws, key))
  {
    if ws != [] {
      var init, last := ws[..|ws| - 1], ws[|ws| - 1];
      assert last in ws;
      TallySummarizes(init, key, c);
      var found := FindEpisode(last.episodes, key);
      if found.Some? {
        var e := found.value;
        assert WellFormedEpisode(e);
        if Tally(init, key, c).Some? {
          TallyShape(init, key, c);
          ContributeSummarizes(Tally(init, key, c).value, Supporting(init, key), last.outcome, e, c);
        } else {
          FreshSummarizes(e, c);
          ContributeSummarizes(Fresh(e, c), Supporting(init, key), last.outcome, e, c);
        }
      }
    }
  }

  ghost predicate DistinctSupporters(supporters: Supporters) {
    forall i, j :: 0 <= i < j < |supporters| ==> supporters[i].0.id != supporters[j].0.id
  }

  /** With distinct outcome ids the set of support windows counts the supporters. */
  lemma {:induction false} SupporterIdsCount(supporters: Supporters)
    requires DistinctSupporters(supporters)
    ensures forall id :: id in SupporterIds(supporters) <==> exists x :: x in supporters && x.0.id == id
    ensures |SupporterIds(supporters)| == |supporters|
  {
    if supporters != [] {
      var n := |supporters| - 1;
      SupporterIdsCount(supporters[..n]);
      var init := SupporterIds(supporters[..n]);
      assert supporters[n].0.id !in init by {
        forall x | x in supporters[..n] ensures x.0.id != supporters[n].0.id {
        }
      }
      assert forall x :: x in supporters <==> x in supporters[..n] || x == supporters[n];
    }
  }

  // ---------- Deltas ----------

  lemma MulStep(n: int, next: int, d: int)
    requires next == n + 1
    ensures next * d == n * d + d
  {
  }

  lemma {:induction false} DeltaSumMonotone(supporters: Supporters, i: nat, j: nat, length: nat, windowMs: int)
    requires SupportersInside(supporters, length, windowMs) && i <= j < length
    ensures DeltaSum(supporters, j) <= DeltaSum(supporters, i)
  {
    if supporters != [] {
      var n := |supporters| - 1;
      assert supporters[n] in supporters;
      DeltaSumMonotone(supporters[..n], i, j, length, windowMs);
    }
  }

  lemma {:induction false} DeltaSumBounds(supporters: Supporters, i: nat, length: nat, windowMs: int)
    requires SupportersInside(supporters, length, windowMs) && i < length
    ensures 0 <= DeltaSum(supporters, i) <= |supporters| * windowMs
  {
    if supporters != [] {
      var n := |supporters| - 1;
      assert supporters[n] in supporters;
      DeltaSumBounds(supporters[..n], i, length, windowMs);
      MulStep(n, |supporters|, windowMs);
    }
  }

  /** `Math.round(total / count)`. */
  function RoundedMean(total: int, count: nat): int
    requires count > 0
  {
    (2 * total + count) / (2 * count)
  }

  lemma RoundedMeanMonotone(a: int, b: int, count: nat)
    requires count > 0 && a <= b
    ensures RoundedMean(a, count) <= RoundedMean(b, count)
  {
    DivMonotone(2 * a + count, 2 * b + count, 2 * count);
  }

  lemma MulMonotone(x: int, y: int, d: nat)
    ensures x <= y ==> x * d <= y * d
  {
    if x <= y {
      assert (y - x) * d >= 0;
    }
  }

  lemma DivMonotone(x: int, y: int, d: nat)
    requires d > 0 && x <= y
    ensures x / d <= y / d
  {
    var q, r := x / d, y / d;
    assert x == q * d + x % d && y == r * d + y % d && (r + 1) * d == r * d + d;
    MulMonotone(r + 1, q, d);
  }

  /** The integer nearest to the mean; of two equally near ones the greater. */
  predicate NearestMean(r: int, total: int, count: nat) {
    2 * (count * r) - count <= 2 * total < 2 * (count * r) + count
  }

  lemma RoundedMeanNearest(total: int, count: nat)
    requires count > 0
    ensures NearestMean(RoundedMean(total, count), total, count)
  {
    var x, d := 2 * total + count, 2 * count;
    var r := x / d;
    assert x == r * d + x % d;
    assert r * d == 2 * (count * r);
  }

  lemma RoundedMeanExact(v: int, count: nat)
    requires count > 0
    ensures RoundedMean(count * v, count) == v
  {
    var x, d := 2 * (count * v) + count, 2 * count;
    var q := x / d;
    assert x == v * d + count && x == q * d + x % d;
    assert (v + 1) * d == v * d + d && (q + 1) * d == q * d + d;
    MulMonotone(v + 1, q, d);
    MulMonotone(q + 1, v, d);
  }

  function AverageDeltas(acc: Accumulator, support: nat): (r: seq<int>)
    requires support > 0
    ensures |r| == |acc.deltaByStep|
  {
    seq(|acc.deltaByStep|, k requires 0 <= k < |acc.deltaByStep| => RoundedMean(acc.deltaByStep[k], support))
  }

  /** The average deltas never grow along the sequence and lie between zero and the window. */
  lemma AverageDeltasMonotone(ws: seq<MinedWindow>, key: string, c: Curves, windowMs: nat, i: nat, j: nat)
    requires WellFormed(ws) && Tally(ws, key, c).Some?
    requires SupportersInside(Supporting(ws, key), |Tally(ws, key, c).value.sequence|, windowMs)
    requires i <= j < |Tally(ws, key, c).value.deltaByStep|
    ensures |Supporting(ws, key)| > 0
    ensures var avg := AverageDeltas(Tally(ws, key, c).value, |Supporting(ws, key)|);
            0 <= avg[j] <= avg[i] <= windowMs
  {
    var acc, s := Tally(ws, key, c).value, Supporting(ws, key);
    TallySummarizes(ws, key, c);
    DeltaSumMonotone(s, i, j, |acc.sequence|, windowMs);
    DeltaSumBounds(s, i, |acc.sequence|, windowMs);
    DeltaSumBounds(s, j, |acc.sequence|, windowMs);
    RoundedMeanMonotone(DeltaSum(s, j), DeltaSum(s, i), |s|);
    RoundedMeanMonotone(DeltaSum(s, i), |s| * windowMs, |s|);
    RoundedMeanMonotone(|s| * 0, DeltaSum(s, j), |s|);
    RoundedMeanExact(windowMs, |s|);
    RoundedMeanExact(0, |s|);
  }

  // ---------- Lead times ----------

  function Sum(values: seq<int>): int {
    if values == [] then 0 else Sum(values[..|values| - 1]) + values[|values| - 1]
  }

  /** The lead times of a key add up to the delta of its first step. */
  lemma {:induction false} LeadTimesSum(supporters: Supporters, length: nat, windowMs: int)
    requires SupportersInside(supporters, length, windowMs) && length > 0
    ensures |LeadTimes(supporters)| == |supporters|
    ensures Sum(LeadTimes(supporters)) == DeltaSum(supporters, 0)
  {
    if supporters != [] {
      var n := |supporters| - 1;
      assert supporters[n] in supporters;
      LeadTimesSum(supporters[..n], length, windowMs);
      var l := LeadTimes(supporters);
      assert l[..|l| - 1] == LeadTimes(supporters[..n]);
    }
  }

  // ---------- Order quality ----------

  /** The quality of a candidate is the worst over its supporters. */
  lemma {:induction false} TallyQualityIsWorst(ws: seq<MinedWindow>, key: string, c: Curves,
                                               bound: TemporalEvents.OrderQuality)
    requires WellFormed(ws) && Tally(ws, key, c).Some?
    ensures OrderQualityRules.Rank(Tally(ws, key, c).value.quality) <= OrderQualityRules.Rank(bound) <==>
            forall x :: x in Supporting(ws, key) ==>
                      OrderQualityRules.Rank(x.1.quality) <= OrderQualityRules.Rank(bound)
  {
    var init, last := ws[..|ws| - 1], ws[|ws| - 1];
    assert last in ws;
    TallySummarizes(init, key, c);
    if Tally(init, key, c).Some? {
      TallyQualityIsWorst(init, key, c, bound);
    }
    var found := FindEpisode(last.episodes, key);
    if found.Some? {
      var s := Supporting(ws, key);
      assert WellFormedEpisode(found.value);
      assert (last.outcome, found.value) in s;
      assert forall x :: x in s <==> x in Supporting(init, key) || x == (last.outcome, found.value);
    }
  }

  // ---------- Examples and target proxies ----------

  lemma {:induction false} EventIdsMembers(events: seq<TemporalEvents.TemporalEvent>, id: string)
    ensures id in EventIds(events) <==> exists e :: e in events && e.id == id
  {
    if events != [] {
      var n := |events| - 1;
      EventIdsMembers(events[..n], id);
      assert forall e :: e in events <==> e in events[..n] || e == events[n];
    }
  }

  ghost predicate IsExample(supporters: Supporters, id: string) {
    exists x, e :: x in supporters && e in x.1.events && e.id == id
  }

  /** The example ids of a candidate are those of the events its supporters chose. */
  lemma {:induction false} TallyExamples(ws: seq<MinedWindow>, key: string, c: Curves, id: string)
    requires WellFormed(ws) && Tally(ws, key, c).Some?
    ensures id in Tally(ws, key, c).value.exampleEventIds <==> IsExample(Supporting(ws, key), id)
  {
    var init, last := ws[..|ws| - 1], ws[|ws| - 1];
    TallySummarizes(init, key, c);
    if FindEpisode(last.episodes, key).None? {
      TallyExamples(init, key, c, id);
    } else {
      var e := FindEpisode(last.episodes, key).value;
      EventIdsMembers(e.events, id);
      if Tally(init, key, c).Some? {
        TallyExamples(init, key, c, id);
      }
      ExampleSnoc(Supporting(init, key), last.outcome, e, id);
    }
  }

  lemma ExampleSnoc(supporters: Supporters, outcome: TemporalEvents.TemporalEvent, e: EpisodeMiner.MinedEpisode,
                    id: string)
    ensures IsExample(supporters + [(outcome, e)], id) <==>
            IsExample(supporters, id) || exists x :: x in e.events && x.id == id
  {
    var all := supporters + [(outcome, e)];
    assert (outcome, e) in all;
    assert forall x :: x in all <==> x in supporters || x == (outcome, e);
  }

  /** The proxy flag of a candidate says whether its sequence contains a target proxy. */
  lemma {:induction false} TallyProxyExact(ws: seq<MinedWindow>, key: string, c: Curves)
    requires WellFormed(ws) && Tally(ws, key, c).Some?
    ensures Tally(ws, key, c).value.containsTargetProxy <==> AnyProxy(Tally(ws, key, c).value.sequence, c.isProxy)
  {
    var init, last := ws[..|ws| - 1], ws[|ws| - 1];
    assert last in ws;
    var found := FindEpisode(last.episodes, key);
    assert found.Some? ==> WellFormedEpisode(found.value);
    if Tally(init, key, c).Some? {
      TallyShape(init, key, c);
      TallyProxyExact(init, key, c);
    }
  }

  // ---------- Trace weight ----------

  lemma {:induction false} TraceSumBounds(outcome: TemporalEvents.TemporalEvent,
                                          events: seq<TemporalEvents.TemporalEvent>, trace: int -> real)
    requires TraceCurve(trace) && forall i :: 0 <= i < |events| ==> Delta(outcome, events[i]) >= 0
    ensures 0.0 <= TraceSum(outcome, events, trace) <= |events| as real
  {
    if events != [] {
      TraceSumBounds(outcome, events[..|events| - 1], trace);
    }
  }

  lemma RatioBounds(x: real, n: real)
    requires 0.0 <= x <= n && n > 0.0
    ensures 0.0 <= x / n <= 1.0
  {
    var q := x / n;
    assert q * n == x;
    RealArithmetic.MulLt(1.0, q, n);
    RealArithmetic.MulLt(q, 0.0, n);
  }

  /** Every supporter adds at most one to the temporal weight. */
  lemma {:induction false} TallyWeightBounds(ws: seq<MinedWindow>, key: string, c: Curves, length: nat, windowMs: int)
    requires WellFormed(ws) && TraceCurve(c.trace) && Tally(ws, key, c).Some?
    requires SupportersInside(Supporting(ws, key), length, windowMs)
    ensures 0.0 <= Tally(ws, key, c).value.temporalWeight <= |Supporting(ws, key)| as real
  {
    var init, last := ws[..|ws| - 1], ws[|ws| - 1];
    assert last in ws;
    TallySummarizes(init, key, c);
    var s, prior := Supporting(ws, key), Supporting(init, key);
    assert forall x :: x in prior ==> x in s;
    if Tally(init, key, c).Some? {
      TallyWeightBounds(init, key, c, length, windowMs);
    }
    var found := FindEpisode(last.episodes, key);
    if found.Some? {
      var e := found.value;
      assert WellFormedEpisode(e);
      assert (last.outcome, e) in s && InsideWindow(last.outcome, e, windowMs);
      TraceSumBounds(last.outcome, e.events, c.trace);
      RatioBounds(TraceSum(last.outcome, e.events, c.trace), |e.events| as real);
    }
  }
}
