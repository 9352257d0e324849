/** When a missing field is filled, and with what: the exact conditions on the neighbours, both ways. */
module KnnVerdicts {
  import opened Collections
  import opened KnnPropagation

  // ---------- The conditions ----------

  predicate IsNumericField(field: string) {
    field == "lifetime" || field == "power" || field == "mass_kg" || field == "launch_year"
  }

  /** Three neighbours or more, the first one near enough. */
  predicate NearEnough(maxDistance: real, ns: seq<Neighbour>) {
    |ns| >= 3 && ns[0].distance <= maxDistance
  }

  /** The values are the numbers the neighbours offer, each as often as it is offered. */
  ghost predicate UsableNumbers(ops: TextOps, field: string, ns: seq<Neighbour>, values: seq<real>) {
    forall x :: multiset(values)[x] == |Filter(ns, OffersNumber(ops, field, x))|
  }

  ghost predicate UsableTexts(ops: TextOps, ns: seq<Neighbour>, values: seq<string>) {
    forall s :: multiset(values)[s] == |Filter(ns, OffersText(ops, s))|
  }

  /** `m` stands in the middle of the values in ascending order, at place `n / 2`. */
  ghost predicate InTheMiddle(values: seq<real>, m: real) {
    exists t :: AscendingArrangement(t, values) && t != [] && t[|t| / 2] == m
  }

  ghost predicate AscendingArrangement(t: seq<real>, values: seq<real>) {
    Permutation(t, values) && Ascending(t)
  }

  /** Every value is at most a tenth of `m` away from it, where `m` counts as at least a billionth. */
  predicate WithinTenth(values: seq<real>, m: real) {
    forall v :: v in values ==>
      -0.1 * AtLeastBillionth(m) <= v - m <= 0.1 * AtLeastBillionth(m)
  }

  function AtLeastBillionth(m: real): real {
    if m >= 0.000000001 then m else if m <= -0.000000001 then -m else 0.000000001
  }

  /** Sixty-six of a hundred values, or more, are `s`. */
  ghost predicate TwoThirdsAre(values: seq<string>, s: string) {
    100 * multiset(values)[s] >= 66 * |values|
  }

  // ---------- Numbers ----------

  lemma UsableNumbersExist(ops: TextOps, field: string, ns: seq<Neighbour>)
    ensures UsableNumbers(ops, field, ns, Numbers(ops, field, ns))
  {
    forall x ensures multiset(Numbers(ops, field, ns))[x] == |Filter(ns, OffersNumber(ops, field, x))| {
      NumbersMultiplicity(ops, field, ns, x);
    }
  }

  lemma UsableNumbersUnique(ops: TextOps, field: string, ns: seq<Neighbour>, values: seq<real>)
    requires UsableNumbers(ops, field, ns, values)
    ensures Permutation(values, Numbers(ops, field, ns)) && |values| == |Numbers(ops, field, ns)|
  {
    UsableNumbersExist(ops, field, ns);
    var numbers := Numbers(ops, field, ns);
    assert forall x :: multiset(values)[x] == multiset(numbers)[x];
    PermutationBasics(values, numbers);
  }

  lemma MedianInTheMiddle(values: seq<real>, m: real)
    requires values != []
    ensures InTheMiddle(values, m) <==> m == Median(values)
  {
    var sorted := SortBy(values, RealLeq);
    SortedReals(values);
    assert AscendingArrangement(sorted, values) && sorted[|sorted| / 2] == Median(values);
    if InTheMiddle(values, m) {
      var t :| AscendingArrangement(t, values) && t != [] && t[|t| / 2] == m;
      RealLeqTotal();
      SortByPermutation(t, values, RealLeq);
      SortByFixpoint(t, RealLeq);
    }
  }

  lemma CloseIsWithin(values: seq<real>, m: real)
    ensures (forall v :: v in values ==> CloseTo(v, m)) <==> WithinTenth(values, m)
  {
    forall v ensures CloseTo(v, m) <==> -0.1 * AtLeastBillionth(m) <= v - m <= 0.1 * AtLeastBillionth(m) {
      DivisionBound(Abs(v - m), AtLeastBillionth(m));
    }
  }

  lemma NumericVerdictExact(values: seq<real>, m: real)
    ensures NumericVerdict(values) == Fill(Number(m)) <==>
            |values| >= 3 && InTheMiddle(values, m) && WithinTenth(values, m)
    ensures NumericVerdict(values) == TooFar <==> |values| < 3
    ensures !(NumericVerdict(values).Fill? && NumericVerdict(values).value.Text?)
  {
    if |values| >= 3 {
      MedianInTheMiddle(values, m);
      CloseIsWithin(values, Median(values));
    }
  }

  /** A numeric field is filled with `m` if and only if the neighbours are near enough, at least three of their values
      are usable, `m` stands in the middle of these and all of them are within a tenth of it. With fewer usable values
      the target is too far, otherwise the neighbours disagree. */
  lemma NumericFillIff(ops: TextOps, field: string, maxDistance: real, ns: seq<Neighbour>, values: seq<real>, m: real)
    requires IsNumericField(field) && UsableNumbers(ops, field, ns, values)
    ensures Decide(ops, field, maxDistance, ns) == Fill(Number(m)) <==>
            NearEnough(maxDistance, ns) && |values| >= 3 && InTheMiddle(values, m) && WithinTenth(values, m)
    ensures Decide(ops, field, maxDistance, ns) == TooFar <==> !NearEnough(maxDistance, ns) || |values| < 3
    ensures Decide(ops, field, maxDistance, ns) == Disagree <==>
            NearEnough(maxDistance, ns) && |values| >= 3
            && forall x :: InTheMiddle(values, x) ==> !WithinTenth(values, x)
  {
    UsableNumbersUnique(ops, field, ns, values);
    NumericVerdictPermutation(values, Numbers(ops, field, ns));
    NumericVerdictExact(values, m);
    if |values| >= 3 {
      MedianInTheMiddle(values, Median(values));
      NumericVerdictExact(values, Median(values));
      forall x | InTheMiddle(values, x) ensures x == Median(values) {
        MedianInTheMiddle(values, x);
      }
    }
  }

  // ---------- Texts ----------

  lemma UsableTextsUnique(ops: TextOps, ns: seq<Neighbour>, values: seq<string>)
    requires UsableTexts(ops, ns, values)
    ensures Permutation(values, Texts(ops, ns)) && |values| == |Texts(ops, ns)|
  {
    var texts := Texts(ops, ns);
    forall s ensures multiset(values)[s] == multiset(texts)[s] {
      TextsMultiplicity(ops, ns, s);
    }
    PermutationBasics(values, texts);
  }

  lemma MajorityIsTwoThirds(values: seq<string>, s: string)
    requires values != []
    ensures Majority(values, s) <==> TwoThirdsAre(values, s)
  {
    MajorityCount(values, s);
    CountIsMultiplicity(values, s);
    if TwoThirdsAre(values, s) {
      assert s in multiset(values);
    }
  }

  lemma TextVerdictExact(values: seq<string>, s: string)
    ensures TextVerdict(values) == Fill(Text(s)) <==> |values| >= 3 && TwoThirdsAre(values, s)
    ensures TextVerdict(values) == TooFar <==> |values| < 3
    ensures !(TextVerdict(values).Fill? && TextVerdict(values).value.Number?)
  {
    if |values| >= 3 {
      MajorityIsTwoThirds(values, s);
      if Majority(values, s) {
        MajorityUnique(values, s, TextConsensus(values).value);
      }
    }
  }

  /** A text field is filled with `s` if and only if the neighbours are near enough, at least three of them have a value
      and at least 66 percent of these are `s` after tidying. */
  lemma TextFillIff(ops: TextOps, field: string, maxDistance: real, ns: seq<Neighbour>, values: seq<string>, s: string)
    requires !IsNumericField(field) && UsableTexts(ops, ns, values)
    ensures Decide(ops, field, maxDistance, ns) == Fill(Text(s)) <==>
            NearEnough(maxDistance, ns) && |values| >= 3 && TwoThirdsAre(values, s)
    ensures Decide(ops, field, maxDistance, ns) == TooFar <==> !NearEnough(maxDistance, ns) || |values| < 3
    ensures Decide(ops, field, maxDistance, ns) == Disagree <==>
            NearEnough(maxDistance, ns) && |values| >= 3 && forall t :: !TwoThirdsAre(values, t)
  {
    UsableTextsUnique(ops, ns, values);
    TextVerdictPermutation(values, Texts(ops, ns));
    TextVerdictExact(values, s);
    forall t ensures TextVerdict(values) == Fill(Text(t)) <==> |values| >= 3 && TwoThirdsAre(values, t) {
      TextVerdictExact(values, t);
    }
  }

  // ---------- Rejected values ----------

  ghost function OffersNothing(ops: TextOps, field: string): Neighbour -> bool {
    (n: Neighbour) => n.value.Some? && forall x :: !OffersNumber(ops, field, x)(n)
  }

  /** A neighbour is counted as out of range when it has a value but offers no number. */
  lemma {:induction false} RejectsCount(ops: TextOps, field: string, ns: seq<Neighbour>)
    ensures Rejects(ops, field, ns) == |Filter(ns, OffersNothing(ops, field))|
  {
    if ns != [] {
      var n := |ns| - 1;
      RejectsCount(ops, field, ns[..n]);
      FilterSnoc(ns, n, OffersNothing(ops, field));
      assert ns[..n + 1] == ns;
      forall x ensures OffersNumber(ops, field, x)(ns[n]) <==>
                       ns[n].value.Some? && UsableNumber(ops, field, ns[n].value.value) == Some(x)
      {
        OffersUsable(ops, field, ns[n], x);
      }
    }
  }

  /** They are counted for numeric fields only, once the neighbours are near enough. */
  lemma RejectedMeaning(ops: TextOps, field: string, maxDistance: real, ns: seq<Neighbour>)
    ensures RejectedBy(ops, field, maxDistance, ns) ==
            if IsNumericField(field) && NearEnough(maxDistance, ns) then |Filter(ns, OffersNothing(ops, field))| else 0
  {
    RejectsCount(ops, field, ns);
  }

  // ---------- Writes ----------

  /** The fills are those of the targets decided so, with the value decided on. */
  lemma {:induction false} FillsMembers(ops: TextOps, field: string, maxDistance: real, targets: seq<Target>,
                                        answers: seq<seq<Neighbour>>, w: Write)
    requires |targets| == |answers|
    ensures w in Fills(ops, field, maxDistance, targets, answers) <==>
            w.field == field && exists i :: 0 <= i < |targets| && targets[i].id == w.id
                                            && Decide(ops, field, maxDistance, answers[i]) == Fill(w.value)
  {
    if targets != [] {
      var n := |targets| - 1;
      FillsMembers(ops, field, maxDistance, targets[..n], answers[..n], w);
      assert forall i :: 0 <= i < n ==> targets[..n][i] == targets[i] && answers[..n][i] == answers[i];
    }
  }
}
