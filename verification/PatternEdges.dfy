/** The edges stored for a reported sequence: one per pair of neighbouring steps, with the delta between them. */
module PatternEdges {
  import TemporalEvents
  import CandidateTally
  import EvidenceCollection
  import SupportTheorems
  import PatternScorer
  import HypothesisTheorems

  datatype Step = Step(signature: string, avgDeltaMs: int, supportCount: nat)

  datatype Edge = Edge(fromSignature: string, toSignature: string, weight: real, supportCount: nat, avgDeltaMs: int)

  function EdgeBetween(previous: Step, current: Step, score: real): Edge {
    Edge(previous.signature, current.signature, score, current.supportCount,
         if previous.avgDeltaMs - current.avgDeltaMs > 0 then previous.avgDeltaMs - current.avgDeltaMs else 0)
  }

  /** The rows handed to the database insert; none for fewer than two steps. */
  method InsertEdges(sequence: seq<Step>, score: real) returns (rows: seq<Edge>)
    ensures |rows| == if |sequence| < 2 then 0 else |sequence| - 1
    ensures forall k :: 0 <= k < |rows| ==> rows[k] == EdgeBetween(sequence[k], sequence[k + 1], score)
  {
    rows := [];
    if |sequence| < 2 {
      return;
    }
    for index := 1 to |sequence|
      invariant |rows| == index - 1
      invariant forall k :: 0 <= k < |rows| ==> rows[k] == EdgeBetween(sequence[k], sequence[k + 1], score)
    {
      var previous, current := sequence[index - 1], sequence[index];
      rows := rows + [Edge(previous.signature, current.signature, score, current.supportCount,
                           if previous.avgDeltaMs - current.avgDeltaMs > 0
                           then previous.avgDeltaMs - current.avgDeltaMs else 0)];
    }
  }

  ghost predicate NonIncreasing(sequence: seq<Step>) {
    forall i, j :: 0 <= i <= j < |sequence| ==> sequence[j].avgDeltaMs <= sequence[i].avgDeltaMs
  }

  function EdgeDeltas(rows: seq<Edge>): seq<int> {
    seq(|rows|, k requires 0 <= k < |rows| => rows[k].avgDeltaMs)
  }

  ghost predicate EdgesOf(rows: seq<Edge>, sequence: seq<Step>, score: real) {
    && |rows| == (if |sequence| < 2 then 0 else |sequence| - 1)
    && forall k :: 0 <= k < |rows| ==> rows[k] == EdgeBetween(sequence[k], sequence[k + 1], score)
  }

  /** The rows hold the differences of neighbouring deltas. */
  ghost predicate Unclamped(rows: seq<Edge>, sequence: seq<Step>) {
    && |rows| + 1 == |sequence|
    && forall k :: 0 <= k < |rows| ==>
         rows[k].avgDeltaMs == sequence[k].avgDeltaMs - sequence[k + 1].avgDeltaMs >= 0
  }

  lemma {:induction false} Telescope(rows: seq<Edge>, sequence: seq<Step>)
    requires Unclamped(rows, sequence)
    ensures SupportTheorems.Sum(EdgeDeltas(rows)) == sequence[0].avgDeltaMs - sequence[|sequence| - 1].avgDeltaMs
    decreases |sequence|
  {
    if rows != [] {
      var n := |rows| - 1;
      var front := sequence[..|rows|];
      assert Unclamped(rows[..n], front) && front[0] == sequence[0] && front[n] == sequence[n];
      Telescope(rows[..n], front);
      assert EdgeDeltas(rows)[..n] == EdgeDeltas(rows[..n]);
    }
  }

  /** On non-increasing deltas nothing is clamped, and the edge deltas add up to first minus last. */
  lemma EdgeDeltasTelescope(rows: seq<Edge>, sequence: seq<Step>, score: real)
    requires NonIncreasing(sequence) && EdgesOf(rows, sequence, score) && sequence != []
    ensures Unclamped(rows, sequence)
    ensures SupportTheorems.Sum(EdgeDeltas(rows)) == sequence[0].avgDeltaMs - sequence[|sequence| - 1].avgDeltaMs
  {
    Telescope(rows, sequence);
  }

  function StepsOf(h: PatternScorer.Hypothesis): seq<Step>
    requires |h.averageDeltas| == |h.sequence|
  {
    seq(|h.sequence|, k requires 0 <= k < |h.sequence| => Step(h.sequence[k], h.averageDeltas[k], h.supportCount))
  }

  /** For every reported hypothesis the clamp in the edge rows is the identity and the edge deltas telescope. */
  lemma ReportedEdges(events: seq<TemporalEvents.TemporalEvent>, status: string, p: EvidenceCollection.STDPParams,
                      c: CandidateTally.Curves, hs: seq<PatternScorer.Hypothesis>,
                      h: PatternScorer.Hypothesis, rows: seq<Edge>)
    requires p.Valid() && PatternScorer.LearningCurves(c) && TemporalEvents.DistinctIds(events)
             && TemporalEvents.PlainSignatures(events)
    requires PatternScorer.Learned(events, status, p, c, hs) && h in hs
    requires |h.averageDeltas| == |h.sequence| && EdgesOf(rows, StepsOf(h), h.patternScore)
    ensures |rows| == |h.sequence| - 1
    ensures forall k :: 0 <= k < |rows| ==> rows[k].avgDeltaMs == h.averageDeltas[k] - h.averageDeltas[k + 1] >= 0
    ensures forall k :: 0 <= k < |rows| ==>
              rows[k].fromSignature == h.sequence[k] && rows[k].toSignature == h.sequence[k + 1]
              && rows[k].weight == h.patternScore && rows[k].supportCount == h.supportCount
    ensures h.sequence != [] && SupportTheorems.Sum(EdgeDeltas(rows))
            == h.averageDeltas[0] - h.averageDeltas[|h.averageDeltas| - 1]
  {
    HypothesisTheorems.ReportedDeltas(events, status, p, c, hs, h);
    EdgesOfHypothesis(h, rows);
  }

  lemma EdgesOfHypothesis(h: PatternScorer.Hypothesis, rows: seq<Edge>)
    requires |h.averageDeltas| == |h.sequence| > 0 && EdgesOf(rows, StepsOf(h), h.patternScore)
    requires forall i, j :: 0 <= i <= j < |h.averageDeltas| ==> h.averageDeltas[j] <= h.averageDeltas[i]
    ensures |rows| == |h.sequence| - 1
    ensures forall k :: 0 <= k < |rows| ==> rows[k].avgDeltaMs == h.averageDeltas[k] - h.averageDeltas[k + 1] >= 0
    ensures forall k :: 0 <= k < |rows| ==>
              rows[k].fromSignature == h.sequence[k] && rows[k].toSignature == h.sequence[k + 1]
              && rows[k].weight == h.patternScore && rows[k].supportCount == h.supportCount
    ensures SupportTheorems.Sum(EdgeDeltas(rows)) == h.averageDeltas[0] - h.averageDeltas[|h.averageDeltas| - 1]
  {
    var steps := StepsOf(h);
    EdgeDeltasTelescope(rows, steps, h.patternScore);
    assert forall k :: 0 <= k < |steps| ==> steps[k].avgDeltaMs == h.averageDeltas[k];
    forall k | 0 <= k < |rows|
      ensures rows[k].avgDeltaMs == h.averageDeltas[k] - h.averageDeltas[k + 1] >= 0
      ensures rows[k].fromSignature == h.sequence[k] && rows[k].toSignature == h.sequence[k + 1]
      ensures rows[k].weight == h.patternScore && rows[k].supportCount == h.supportCount
    {
      assert rows[k].avgDeltaMs == steps[k].avgDeltaMs - steps[k + 1].avgDeltaMs;
      assert rows[k] == EdgeBetween(steps[k], steps[k + 1], h.patternScore);
    }
  }
}
