/** Positive evidence: every mined episode of every target window is added to the accumulator of its key.
    `Tally` is the accumulator of one key, read off the windows; the collecting loops compute it for all keys. */
module CandidateTally {
  import opened Collections
  import opened TemporalEvents
  import OrderQualityRules
  import opened EpisodeMiner

  /** The functions the learner takes from elsewhere: `trace(delta)` stands for
      `Math.exp(-delta / pre_trace_decay_ms)`, `isProxy` for the target-proxy patterns. */
  datatype Curves = Curves(trace: int -> real, log1p: real -> real, isProxy: string -> bool)

  ghost predicate TraceCurve(trace: int -> real) {
    forall delta :: delta >= 0 ==> 0.0 <= trace(delta) <= 1.0
  }

  datatype Accumulator = Accumulator(
    sequence: seq<string>,
    supportWindows: set<string>,
    exampleEventIds: set<string>,
    temporalWeight: real,
    deltaByStep: seq<int>,
    leadTimes: seq<int>,
    quality: OrderQuality,
    containsTargetProxy: bool)

  /** One target window after mining. */
  datatype MinedWindow = MinedWindow(outcome: TemporalEvent, episodes: seq<MinedEpisode>)

  // ---------- One episode ----------

  function Delta(outcome: TemporalEvent, e: TemporalEvent): int {
    outcome.timestamp - e.timestamp
  }

  function TraceSum(outcome: TemporalEvent, events: seq<TemporalEvent>, trace: int -> real): real {
    if events == [] then 0.0
    else TraceSum(outcome, events[..|events| - 1], trace) + trace(Delta(outcome, events[|events| - 1]))
  }

  function EventIds(events: seq<TemporalEvent>): set<string> {
    if events == [] then {} else EventIds(events[..|events| - 1]) + {events[|events| - 1].id}
  }

  /** Adds the delta of every event to the entry of its step. */
  function AddDeltas(deltas: seq<int>, outcome: TemporalEvent, events: seq<TemporalEvent>): (r: seq<int>)
    ensures |r| == |deltas|
  {
    if events == [] || |events| > |deltas| then deltas
    else
      var n := |events| - 1;
      var before := AddDeltas(deltas, outcome, events[..n]);
      before[n := before[n] + Delta(outcome, events[n])]
  }

  lemma {:induction false} AddDeltasIndex(deltas: seq<int>, outcome: TemporalEvent, events: seq<TemporalEvent>, k: nat)
    requires |events| <= |deltas| && k < |deltas|
    ensures AddDeltas(deltas, outcome, events)[k] ==
            deltas[k] + if k < |events| then Delta(outcome, events[k]) else 0
  {
    if events != [] {
      AddDeltasIndex(deltas, outcome, events[..|events| - 1], k);
    }
  }

  predicate AnyProxy(sequence: seq<string>, isProxy: string -> bool) {
    exists s :: s in sequence && isProxy(s)
  }

  function Fresh(e: MinedEpisode, c: Curves): Accumulator {
    Accumulator(e.sequence, {}, {}, 0.0, seq(|e.sequence|, _ => 0), [], e.quality, AnyProxy(e.sequence, c.isProxy))
  }

  function Contribute(acc: Accumulator, outcome: TemporalEvent, e: MinedEpisode, c: Curves): Accumulator
    requires e.events != []
  {
    acc.(supportWindows := acc.supportWindows + {outcome.id},
         exampleEventIds := acc.exampleEventIds + EventIds(e.events),
         temporalWeight := acc.temporalWeight + TraceSum(outcome, e.events, c.trace) / (|e.events| as real),
         deltaByStep := AddDeltas(acc.deltaByStep, outcome, e.events),
         leadTimes := acc.leadTimes + [Delta(outcome, e.events[0])],
         quality := OrderQualityRules.MergeQuality(acc.quality, e.quality),
         containsTargetProxy := acc.containsTargetProxy || AnyProxy(e.sequence, c.isProxy))
  }

  /** The loop over the events of one episode. */
  method AddEpisodeEvidence(acc: Accumulator, outcome: TemporalEvent, e: MinedEpisode, c: Curves)
    returns (r: Accumulator)
    requires e.events != [] && |acc.deltaByStep| == |e.events|
    ensures r == Contribute(acc, outcome, e, c)
  {
    var episodeWeight := 0.0;
    var deltas := acc.deltaByStep;
    var ids := acc.exampleEventIds;
    for k := 0 to |e.events|
      invariant episodeWeight == TraceSum(outcome, e.events[..k], c.trace)
      invariant deltas == AddDeltas(acc.deltaByStep, outcome, e.events[..k])
      invariant ids == acc.exampleEventIds + EventIds(e.events[..k])
    {
      var event := e.events[k];
      assert e.events[..k + 1][..k] == e.events[..k];
      var delta := outcome.timestamp - event.timestamp;
      episodeWeight := episodeWeight + c.trace(delta);
      deltas := deltas[k := deltas[k] + delta];
      ids := ids + {event.id};
    }
    assert e.events[..|e.events|] == e.events;
    r := acc.(supportWindows := acc.supportWindows + {outcome.id},
              exampleEventIds := ids,
              temporalWeight := acc.temporalWeight + episodeWeight / (|e.events| as real),
              deltaByStep := deltas,
              leadTimes := acc.leadTimes + [outcome.timestamp - e.events[0].timestamp],
              quality := OrderQualityRules.MergeQuality(acc.quality, e.quality),
              containsTargetProxy := acc.containsTargetProxy || AnyProxy(e.sequence, c.isProxy));
  }

  // ---------- One key over all windows ----------

  function FindEpisode(episodes: seq<MinedEpisode>, key: string): (r: Option<MinedEpisode>)
    ensures r.Some? ==> r.value in episodes && r.value.key == key
    ensures r.None? ==> forall e :: e in episodes ==> e.key != key
  {
    if episodes == [] then None
    else if episodes[0].key == key then Some(episodes[0])
    else FindEpisode(episodes[1..], key)
  }

  /** An episode is well formed when its key still determines its sequence. */
  predicate WellFormedEpisode(e: MinedEpisode) {
    e.events != [] && |e.sequence| == |e.events| && e.sequence == Split(e.key, UNIT_SEPARATOR)
  }

  ghost predicate WellFormed(ws: seq<MinedWindow>) {
    forall w, e :: w in ws && e in w.episodes ==> WellFormedEpisode(e)
  }

  /** The accumulator of `key` after the given windows. */
  ghost function Tally(ws: seq<MinedWindow>, key: string, c: Curves): Option<Accumulator>
    requires WellFormed(ws)
  {
    if ws == [] then None
    else
      var last := ws[|ws| - 1];
      assert last in ws;
      var before := Tally(ws[..|ws| - 1], key, c);
      match FindEpisode(last.episodes, key)
      case None => before
      case Some(e) =>
        assert WellFormedEpisode(e);
        Some(Contribute(if before.Some? then before.value else Fresh(e, c), last.outcome, e, c))
  }

  /** The outcomes and episodes that support `key`, window by window. */
  ghost function Supporting(ws: seq<MinedWindow>, key: string): seq<(TemporalEvent, MinedEpisode)> {
    if ws == [] then []
    else
      var last := ws[|ws| - 1];
      var before := Supporting(ws[..|ws| - 1], key);
      match FindEpisode(last.episodes, key)
      case None => before
      case Some(e) => before + [(last.outcome, e)]
  }

  function Lookup(candidates: map<string, Accumulator>, key: string): Option<Accumulator> {
    if key in candidates then Some(candidates[key]) else None
  }

  /** Keys in the order in which a JavaScript map meets them. */
  function AppendNew(order: seq<string>, episodes: seq<MinedEpisode>): seq<string> {
    if episodes == [] then order
    else
      var before := AppendNew(order, episodes[..|episodes| - 1]);
      var key := episodes[|episodes| - 1].key;
      if key in before then before else before + [key]
  }

  function KeysIn(episodes: seq<MinedEpisode>): seq<string> {
    seq(|episodes|, i requires 0 <= i < |episodes| => episodes[i].key)
  }

  function NotListed(order: seq<string>): string -> bool {
    (key: string) => key !in order
  }

  /** A window adds the keys that are new, in the order of its episodes. */
  lemma {:induction false} NewKeysFollow(order: seq<string>, episodes: seq<MinedEpisode>)
    requires DistinctEpisodeKeys(episodes)
    ensures AppendNew(order, episodes) == order + Filter(KeysIn(episodes), NotListed(order))
  {
    if episodes != [] {
      var n := |episodes| - 1;
      NewKeysFollow(order, episodes[..n]);
      FilterSnoc(KeysIn(episodes), n, NotListed(order));
      assert KeysIn(episodes)[..n] == KeysIn(episodes[..n]) && KeysIn(episodes)[..n + 1] == KeysIn(episodes);
      assert episodes[n].key !in KeysIn(episodes[..n]);
    } else {
      assert Filter(KeysIn(episodes), NotListed(order)) == [];
    }
  }

  function KeyOrder(ws: seq<MinedWindow>): seq<string> {
    if ws == [] then []
    else AppendNew(KeyOrder(ws[..|ws| - 1]), ws[|ws| - 1].episodes)
  }

  // ---------- The collecting loops ----------

  /** The accumulator of a key carries the key's sequence and one delta per signature. */
  lemma {:induction false} TallyShape(ws: seq<MinedWindow>, key: string, c: Curves)
    requires WellFormed(ws) && Tally(ws, key, c).Some?
    ensures var acc := Tally(ws, key, c).value;
            acc.sequence == Split(key, UNIT_SEPARATOR) && |acc.deltaByStep| == |acc.sequence|
  {
    var init, last := ws[..|ws| - 1], ws[|ws| - 1];
    assert last in ws;
    if Tally(init, key, c).Some? {
      TallyShape(init, key, c);
    }
    var found := FindEpisode(last.episodes, key);
    if found.Some? {
      assert WellFormedEpisode(found.value);
    }
  }

  /** One more episode with a new key changes the tally of that key only. */
  lemma TallyStep(ws: seq<MinedWindow>, outcome: TemporalEvent, episodes: seq<MinedEpisode>, e: MinedEpisode,
                  key: string, c: Curves)
    requires WellFormed(ws + [MinedWindow(outcome, episodes + [e])])
    requires forall x :: x in episodes ==> x.key != e.key
    ensures WellFormed(ws + [MinedWindow(outcome, episodes)]) && WellFormed(ws)
    ensures WellFormedEpisode(e)
    ensures var before := Tally(ws + [MinedWindow(outcome, episodes)], key, c);
            Tally(ws + [MinedWindow(outcome, episodes + [e])], key, c) ==
            if key != e.key then before
            else Some(Contribute(if before.Some? then before.value else Fresh(e, c), outcome, e, c))
  {
    var longer, shorter := MinedWindow(outcome, episodes + [e]), MinedWindow(outcome, episodes);
    assert longer in ws + [longer] && e in longer.episodes;
    forall w, x | w in ws + [shorter] && x in w.episodes ensures WellFormedEpisode(x) {
      if w !in ws {
        assert x in longer.episodes;
      }
    }
    forall w, x | w in ws && x in w.episodes ensures WellFormedEpisode(x) {
      assert w in ws + [longer];
    }
    assert (ws + [longer])[..|ws|] == ws && (ws + [shorter])[..|ws|] == ws;
    FindEpisodeSnoc(episodes, e, key);
  }

  lemma {:induction false} FindEpisodeSnoc(episodes: seq<MinedEpisode>, e: MinedEpisode, key: string)
    ensures FindEpisode(episodes + [e], key) ==
            if FindEpisode(episodes, key).Some? then FindEpisode(episodes, key)
            else if e.key == key then Some(e) else None
  {
    if episodes == [] {
      assert [e][1..] == [] && episodes + [e] == [e];
    } else {
      assert (episodes + [e])[1..] == episodes[1..] + [e];
      FindEpisodeSnoc(episodes[1..], e, key);
    }
  }

  // ---------- The loops over windows and episodes ----------

  ghost predicate DistinctEpisodeKeys(episodes: seq<MinedEpisode>) {
    forall i, j :: 0 <= i < j < |episodes| ==> episodes[i].key != episodes[j].key
  }

  /** The candidate map holds the tally of every key. */
  ghost predicate Tallied(candidates: map<string, Accumulator>, ws: seq<MinedWindow>, c: Curves)
    requires WellFormed(ws)
  {
    forall key :: Lookup(candidates, key) == Tally(ws, key, c)
  }

  /** The inner loop: the episodes of one window. */
  method AddWindow(ghost ws: seq<MinedWindow>, w: MinedWindow, c: Curves, order: seq<string>,
                   candidates: map<string, Accumulator>)
    returns (order': seq<string>, candidates': map<string, Accumulator>)
    requires WellFormed(ws + [w]) && WellFormed(ws) && DistinctEpisodeKeys(w.episodes)
    requires Tallied(candidates, ws, c) && forall key :: key in order <==> key in candidates
    ensures Tallied(candidates', ws + [w], c) && forall key :: key in order' <==> key in candidates'
    ensures order' == AppendNew(order, w.episodes)
  {
    order', candidates' := order, candidates;
    ghost var done := MinedWindow(w.outcome, []);
    TallyNothing(ws, w.outcome, c);
    assert w.episodes[..0] == [];
    for i := 0 to |w.episodes|
      invariant done == MinedWindow(w.outcome, w.episodes[..i]) && WellFormed(ws + [done])
      invariant Tallied(candidates', ws + [done], c) && forall key :: key in order' <==> key in candidates'
      invariant order' == AppendNew(order, w.episodes[..i])
    {
      var e := w.episodes[i];
      ghost var next := MinedWindow(w.outcome, w.episodes[..i + 1]);
      PrefixWellFormed(ws, w, i + 1);
      assert w.episodes[..i + 1] == w.episodes[..i] + [e];
      TallySteps(ws, w.outcome, w.episodes[..i], e, c);
      var existing := if e.key in candidates' then candidates'[e.key] else Fresh(e, c);
      assert Lookup(candidates', e.key) == Tally(ws + [done], e.key, c);
      if e.key in candidates' {
        TallyShape(ws + [done], e.key, c);
      }
      var updated := AddEpisodeEvidence(existing, w.outcome, e, c);
      if e.key !in order' {
        order' := order' + [e.key];
      }
      candidates' := candidates'[e.key := updated];
      done := next;
    }
    assert w.episodes[..|w.episodes|] == w.episodes;
  }

  lemma TallyNothing(ws: seq<MinedWindow>, outcome: TemporalEvent, c: Curves)
    requires WellFormed(ws)
    ensures WellFormed(ws + [MinedWindow(outcome, [])])
    ensures forall key :: Tally(ws + [MinedWindow(outcome, [])], key, c) == Tally(ws, key, c)
  {
    assert (ws + [MinedWindow(outcome, [])])[..|ws|] == ws;
  }

  lemma PrefixWellFormed(ws: seq<MinedWindow>, w: MinedWindow, n: nat)
    requires WellFormed(ws + [w]) && n <= |w.episodes|
    ensures WellFormed(ws + [MinedWindow(w.outcome, w.episodes[..n])])
  {
    var p := MinedWindow(w.outcome, w.episodes[..n]);
    forall v, e | v in ws + [p] && e in v.episodes ensures WellFormedEpisode(e) {
      if v in ws {
        assert v in ws + [w];
      } else {
        assert w in ws + [w] && e in w.episodes;
      }
    }
  }

  lemma TallySteps(ws: seq<MinedWindow>, outcome: TemporalEvent, episodes: seq<MinedEpisode>, e: MinedEpisode,
                   c: Curves)
    requires WellFormed(ws + [MinedWindow(outcome, episodes + [e])])
    requires DistinctEpisodeKeys(episodes + [e])
    ensures WellFormed(ws + [MinedWindow(outcome, episodes)]) && WellFormedEpisode(e)
    ensures forall key :: Tally(ws + [MinedWindow(outcome, episodes + [e])], key, c) ==
              var before := Tally(ws + [MinedWindow(outcome, episodes)], key, c);
              if key != e.key then before
              else Some(Contribute(if before.Some? then before.value else Fresh(e, c), outcome, e, c))
  {
    forall x | x in episodes ensures x.key != e.key {
      var i :| 0 <= i < |episodes| && episodes[i] == x;
      assert (episodes + [e])[i] == x && (episodes + [e])[|episodes|] == e;
    }
    forall key {
      TallyStep(ws, outcome, episodes, e, key, c);
    }
  }
}
