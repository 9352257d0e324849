/** Filling a missing field from the nearest neighbours: usable values, consensus, counters and writes. */
module KnnPropagation {
  import opened Collections
  import RealArithmetic

  datatype Value = Number(n: real) | Text(s: string)

  /** `value` is `None` for a null. Numbers are finite. */
  datatype Neighbour = Neighbour(id: string, value: Option<Value>, distance: real)

  datatype Target = Target(id: string, name: string)

  datatype ColumnKind = Numeric | Textual

  /** `parseFloat` yields `None` for anything that is not a finite number; `tidy` trims and lower-cases; `show`
      prints. */
  datatype TextOps = TextOps(parseFloat: string -> Option<real>, tidy: string -> string, show: real -> string)

  // ---------- Columns ----------

  function KindOf(field: string): ColumnKind {
    if field in {"lifetime", "power", "mass_kg", "launch_year"} then Numeric else Textual
  }

  function RangeOf(field: string): Option<(real, real)> {
    if field == "lifetime" then Some((0.1, 50.0))
    else if field == "power" then Some((0.1, 30000.0))
    else if field == "mass_kg" then Some((0.1, 30000.0))
    else if field == "launch_year" then Some((1957.0, 2035.0))
    else None
  }

  predicate InRange(field: string, x: real) {
    var r := RangeOf(field);
    r.Some? ==> r.value.0 <= x <= r.value.1
  }

  // ---------- Usable values ----------

  /** The number a neighbour offers for a numeric column, if it is finite and in range. */
  function UsableNumber(ops: TextOps, field: string, v: Value): Option<real> {
    var x := match v case Number(n) => Some(n) case Text(s) => ops.parseFloat(s);
    if x.Some? && InRange(field, x.value) then x else None
  }

  function Numbers(ops: TextOps, field: string, ns: seq<Neighbour>): seq<real> {
    if ns == [] then []
    else
      var last := ns[|ns| - 1];
      var before := Numbers(ops, field, ns[..|ns| - 1]);
      if last.value.Some? && UsableNumber(ops, field, last.value.value).Some?
      then before + [UsableNumber(ops, field, last.value.value).value] else before
  }

  function Rejects(ops: TextOps, field: string, ns: seq<Neighbour>): nat {
    if ns == [] then 0
    else
      var last := ns[|ns| - 1];
      Rejects(ops, field, ns[..|ns| - 1]) +
      if last.value.Some? && UsableNumber(ops, field, last.value.value).None? then 1 else 0
  }

  function TidyText(ops: TextOps, v: Value): string {
    ops.tidy(match v case Number(n) => ops.show(n) case Text(s) => s)
  }

  function Texts(ops: TextOps, ns: seq<Neighbour>): seq<string> {
    if ns == [] then []
    else
      var last := ns[|ns| - 1];
      Texts(ops, ns[..|ns| - 1]) + if last.value.Some? then [TidyText(ops, last.value.value)] else []
  }

  // ---------- Numeric consensus ----------

  predicate RealLeq(x: real, y: real) {
    x <= y
  }

  function Abs(x: real): real {
    if x < 0.0 then -x else x
  }

  function Median(values: seq<real>): real
    requires values != []
  {
    SortBy(values, RealLeq)[|values| / 2]
  }

  /** Within ten percent of the median, with an absolute floor. */
  predicate CloseTo(v: real, median: real) {
    var denom := if Abs(median) >= 0.000000001 then Abs(median) else 0.000000001;
    Abs(v - median) / denom <= 0.1
  }

  function NumericConsensus(values: seq<real>): Option<real>
    requires values != []
  {
    var median := Median(values);
    if forall v :: v in values ==> CloseTo(v, median) then Some(median) else None
  }

  lemma DivisionBound(x: real, d: real)
    requires d > 0.0
    ensures x / d <= 0.1 <==> x <= 0.1 * d
  {
    var q := x / d;
    assert q * d == x;
    RealArithmetic.MulLt(0.1, q, d);
    if q <= 0.1 {
      RealArithmetic.MulLe(q, 0.1, d);
    }
  }

  /** All values lie within ten percent of `m`. */
  predicate Backs(values: seq<real>, m: real) {
    forall v :: v in values ==> Abs(v - m) <= 0.1 * Abs(m) || Abs(v - m) <= 0.0000000001
  }

  /** A numeric consensus is one of the values, and every value lies within ten percent of it. */
  lemma NumericConsensusMeaning(values: seq<real>)
    requires values != [] && NumericConsensus(values).Some?
    ensures var m := NumericConsensus(values).value;
            && m in values
            && Backs(values, m)
  {
    var sorted, m := SortBy(values, RealLeq), Median(values);
    PermutationBasics(sorted, values);
    assert sorted[|values| / 2] in sorted;
    var denom := if Abs(m) >= 0.000000001 then Abs(m) else 0.000000001;
    forall v | v in values ensures Abs(v - m) <= 0.1 * denom {
      DivisionBound(Abs(v - m), denom);
    }
  }

  predicate Ascending(values: seq<real>) {
    forall i, j :: 0 <= i <= j < |values| ==> values[i] <= values[j]
  }

  lemma SortedReals(values: seq<real>)
    ensures Ascending(SortBy(values, RealLeq)) && |SortBy(values, RealLeq)| == |values|
  {
    var sorted := SortBy(values, RealLeq);
    RealLeqTotal();
    SortBySorted(values, RealLeq);
    forall i, j | 0 <= i <= j < |sorted| ensures sorted[i] <= sorted[j] {
      assert i < j ==> RealLeq(sorted[i], sorted[j]);
    }
  }

  /** At least half of the sorted values lie on either side of the median. */
  lemma MedianIsMiddle(values: seq<real>, i: nat)
    requires i < |values|
    ensures |SortBy(values, RealLeq)| == |values|
    ensures i <= |values| / 2 ==> SortBy(values, RealLeq)[i] <= Median(values)
    ensures |values| / 2 <= i ==> Median(values) <= SortBy(values, RealLeq)[i]
  {
    SortedReals(values);
  }

  lemma RealLeqTotal()
    ensures TotalPreorder(RealLeq)
  {
  }

  lemma NumericConsensusPermutation(a: seq<real>, b: seq<real>)
    requires a != [] && b != [] && Permutation(a, b)
    ensures NumericConsensus(a) == NumericConsensus(b)
  {
    RealLeqTotal();
    SortByPermutation(a, b, RealLeq);
    PermutationBasics(a, b);
  }

  // ---------- Text consensus ----------

  function Count(values: seq<string>, v: string): nat {
    if values == [] then 0
    else Count(values[..|values| - 1], v) + if values[|values| - 1] == v then 1 else 0
  }

  predicate Majority(values: seq<string>, v: string)
    requires values != []
  {
    v in values && Count(values, v) as real / |values| as real >= 0.66
  }

  lemma {:induction false} CountTwo(values: seq<string>, v: string, w: string)
    requires v != w
    ensures Count(values, v) + Count(values, w) <= |values|
  {
    if values != [] {
      CountTwo(values[..|values| - 1], v, w);
    }
  }

  lemma RatioThreshold(x: real, n: real)
    requires n > 0.0
    ensures x / n >= 0.66 <==> 100.0 * x >= 66.0 * n
  {
    var q := x / n;
    assert q * n == x;
    RealArithmetic.MulLt(q, 0.66, n);
    if q >= 0.66 {
      RealArithmetic.MulLe(0.66, q, n);
    }
  }

  lemma MajorityCount(values: seq<string>, v: string)
    requires values != []
    ensures Majority(values, v) <==> v in values && 100 * Count(values, v) >= 66 * |values|
  {
    var k, n := Count(values, v), |values|;
    RatioThreshold(k as real, n as real);
    assert 100.0 * k as real == (100 * k) as real && 66.0 * n as real == (66 * n) as real;
  }

  /** At most one value reaches two thirds. */
  lemma MajorityUnique(values: seq<string>, v: string, w: string)
    requires values != [] && Majority(values, v) && Majority(values, w)
    ensures v == w
  {
    MajorityCount(values, v);
    MajorityCount(values, w);
    if v != w {
      CountTwo(values, v, w);
    }
  }

  ghost function TextConsensus(values: seq<string>): (r: Option<string>)
    requires values != []
    ensures r.Some? <==> exists v :: Majority(values, v)
    ensures r.Some? ==> Majority(values, r.value)
  {
    if v :| Majority(values, v) then Some(v) else None
  }

  lemma {:induction false} CountIsMultiplicity(values: seq<string>, v: string)
    ensures Count(values, v) == multiset(values)[v]
  {
    if values != [] {
      SplitLast(values);
      CountIsMultiplicity(values[..|values| - 1], v);
    }
  }

  lemma TextConsensusPermutation(a: seq<string>, b: seq<string>)
    requires a != [] && b != [] && Permutation(a, b)
    ensures TextConsensus(a) == TextConsensus(b)
  {
    PermutationBasics(a, b);
    forall v ensures Majority(a, v) <==> Majority(b, v) {
      CountIsMultiplicity(a, v);
      CountIsMultiplicity(b, v);
    }
    if TextConsensus(a).Some? {
      assert Majority(b, TextConsensus(a).value);
      MajorityUnique(a, TextConsensus(a).value, TextConsensus(b).value);
    }
    if TextConsensus(b).Some? {
      assert Majority(a, TextConsensus(b).value);
    }
  }

  ghost predicate Frequencies(values: seq<string>, freq: map<string, nat>, order: seq<string>) {
    && (forall v :: v in order <==> v in values)
    && (forall v :: v in freq <==> v in order)
    && (forall v :: v in freq ==> freq[v] == Count(values, v))
  }

  lemma {:induction false} CountAbsent(values: seq<string>, v: string)
    requires v !in values
    ensures Count(values, v) == 0
  {
    if values != [] {
      CountAbsent(values[..|values| - 1], v);
    }
  }

  /** The frequency map, with its keys in insertion order. */
  method CountFrequencies(values: seq<string>) returns (freq: map<string, nat>, order: seq<string>)
    ensures Frequencies(values, freq, order)
  {
    freq, order := map[], [];
    for n := 0 to |values|
      invariant Frequencies(values[..n], freq, order)
    {
      var v := values[n];
      assert values[..n + 1][..n] == values[..n];
      assert forall w :: w in values[..n + 1] <==> w in values[..n] || w == v;
      if v !in freq {
        CountAbsent(values[..n], v);
        order := order + [v];
      }
      freq := freq[v := (if v in freq then freq[v] else 0) + 1];
    }
    assert values[..|values|] == values;
  }

  /** The search for the first greatest entry of the frequency map. */
  method FindTextConsensus(values: seq<string>) returns (consensus: Option<string>)
    requires values != []
    ensures consensus == TextConsensus(values)
  {
    var freq, order := CountFrequencies(values);
    assert values[0] in values && values[0] in order;
    var top, topCount := order[0], freq[order[0]];
    for n := 1 to |order|
      invariant top in order && topCount == freq[top]
      invariant forall i :: 0 <= i < n ==> freq[order[i]] <= topCount
    {
      assert order[n] in order;
      if freq[order[n]] > topCount {
        top, topCount := order[n], freq[order[n]];
      }
    }
    TopDecides(values, order, top);
    consensus := if topCount as real / |values| as real >= 0.66 then Some(top) else None;
  }

  /** If any value has the majority, the most frequent one has it. */
  lemma TopDecides(values: seq<string>, order: seq<string>, top: string)
    requires values != [] && top in order && forall v :: v in order <==> v in values
    requires forall i :: 0 <= i < |order| ==> Count(values, order[i]) <= Count(values, top)
    ensures TextConsensus(values) == if Count(values, top) as real / |values| as real >= 0.66 then Some(top) else None
  {
    if Majority(values, top) {
      MajorityUnique(values, top, TextConsensus(values).value);
    } else if TextConsensus(values).Some? {
      var v := TextConsensus(values).value;
      var i :| 0 <= i < |order| && order[i] == v;
      MajorityCount(values, v);
      MajorityCount(values, top);
    }
  }

  // ---------- One target ----------

  datatype Verdict = TooFar | Disagree | Fill(value: Value)

  /** What happens to a target, given the answer of the neighbour query (nearest first). */
  ghost function Decide(ops: TextOps, field: string, maxDistance: real, ns: seq<Neighbour>): Verdict {
    if |ns| < 3 || ns[0].distance > maxDistance then TooFar
    else if KindOf(field) == Numeric then NumericVerdict(Numbers(ops, field, ns))
    else TextVerdict(Texts(ops, ns))
  }

  function NumericVerdict(values: seq<real>): Verdict {
    if |values| < 3 then TooFar
    else match NumericConsensus(values) case None => Disagree case Some(x) => Fill(Number(x))
  }

  ghost function TextVerdict(values: seq<string>): Verdict {
    if |values| < 3 then TooFar
    else match TextConsensus(values) case None => Disagree case Some(s) => Fill(Text(s))
  }

  /** Are the neighbours' values looked at, so that unusable ones are counted? */
  predicate Inspected(maxDistance: real, ns: seq<Neighbour>) {
    |ns| >= 3 && ns[0].distance <= maxDistance
  }

  method DecideTarget(ops: TextOps, field: string, maxDistance: real, ns: seq<Neighbour>)
    returns (verdict: Verdict, outOfRange: nat)
    ensures verdict == Decide(ops, field, maxDistance, ns)
    ensures outOfRange == RejectedBy(ops, field, maxDistance, ns)
  {
    outOfRange := 0;
    if |ns| < 3 || ns[0].distance > maxDistance {
      return TooFar, 0;
    }
    var kind := KindOf(field);
    var numbers: seq<real> := [];
    var texts: seq<string> := [];
    for n := 0 to |ns|
      invariant kind == Numeric ==>
                numbers == Numbers(ops, field, ns[..n]) && outOfRange == Rejects(ops, field, ns[..n])
      invariant kind == Textual ==> texts == Texts(ops, ns[..n]) && outOfRange == 0
    {
      assert ns[..n + 1][..n] == ns[..n];
      if ns[n].value.Some? {
        if kind == Numeric {
          var x := match ns[n].value.value case Number(y) => Some(y) case Text(s) => ops.parseFloat(s);
          if x.None? || !InRange(field, x.value) {
            outOfRange := outOfRange + 1;
          } else {
            numbers := numbers + [x.value];
          }
        } else {
          texts := texts + [TidyText(ops, ns[n].value.value)];
        }
      }
    }
    assert ns[..|ns|] == ns;
    if kind == Numeric {
      if |numbers| < 3 {
        return TooFar, outOfRange;
      }
      var consensus := NumericConsensus(numbers);
      return if consensus.Some? then Fill(Number(consensus.value)) else Disagree, outOfRange;
    }
    if |texts| < 3 {
      return TooFar, outOfRange;
    }
    var consensus := FindTextConsensus(texts);
    return if consensus.Some? then Fill(Text(consensus.value)) else Disagree, outOfRange;
  }

  /** Some neighbour offers the number. */
  predicate Offered(ops: TextOps, field: string, ns: seq<Neighbour>, x: real) {
    exists n :: n in ns && n.value.Some? && UsableNumber(ops, field, n.value.value) == Some(x)
  }

  lemma {:induction false} NumbersAreUsable(ops: TextOps, field: string, ns: seq<Neighbour>, x: real)
    requires x in Numbers(ops, field, ns)
    ensures InRange(field, x)
    ensures Offered(ops, field, ns, x)
  {
    var last := ns[|ns| - 1];
    assert last in ns;
    if x in Numbers(ops, field, ns[..|ns| - 1]) {
      NumbersAreUsable(ops, field, ns[..|ns| - 1], x);
      var n :| n in ns[..|ns| - 1] && n.value.Some? && UsableNumber(ops, field, n.value.value) == Some(x);
      assert n in ns;
    }
  }

  /** A numeric fill is an in-range value of some neighbour, backed by at least three usable values that all lie
      within ten percent of it. */
  lemma NumericFillIsSupported(ops: TextOps, field: string, maxDistance: real, ns: seq<Neighbour>)
    requires KindOf(field) == Numeric && Decide(ops, field, maxDistance, ns).Fill?
    ensures var verdict := Decide(ops, field, maxDistance, ns);
            && verdict.value.Number? && InRange(field, verdict.value.n)
            && |Numbers(ops, field, ns)| >= 3 && verdict.value.n in Numbers(ops, field, ns)
            && Offered(ops, field, ns, verdict.value.n) && Backs(Numbers(ops, field, ns), verdict.value.n)
  {
    var values := Numbers(ops, field, ns);
    NumericConsensusMeaning(values);
    NumbersAreUsable(ops, field, ns, NumericConsensus(values).value);
  }

  /** A text fill is the unique value that at least 66 percent of at least three texts agree on. */
  lemma TextFillIsMajority(ops: TextOps, field: string, maxDistance: real, ns: seq<Neighbour>, w: string)
    requires KindOf(field) == Textual && Decide(ops, field, maxDistance, ns).Fill?
    ensures var verdict := Decide(ops, field, maxDistance, ns);
            var texts := Texts(ops, ns);
            && verdict.value.Text? && |texts| >= 3
            && 100 * Count(texts, verdict.value.s) >= 66 * |texts|
            && (w != verdict.value.s ==> 2 * Count(texts, w) < |texts|)
  {
    var texts := Texts(ops, ns);
    var s := TextConsensus(texts).value;
    MajorityCount(texts, s);
    if w != s {
      CountTwo(texts, s, w);
    }
  }

  // ---------- Order of the neighbours ----------

  lemma {:induction false} NumbersMultiplicity(ops: TextOps, field: string, ns: seq<Neighbour>, x: real)
    ensures multiset(Numbers(ops, field, ns))[x] == |Filter(ns, OffersNumber(ops, field, x))|
  {
    if ns != [] {
      var n := |ns| - 1;
      NumbersMultiplicity(ops, field, ns[..n], x);
      OffersUsable(ops, field, ns[n], x);
      FilterSnoc(ns, n, OffersNumber(ops, field, x));
      assert ns[..n + 1] == ns;
    }
  }

  /** A neighbour offers a number that it carries, or that its text parses to, when its column admits it. */
  function OffersNumber(ops: TextOps, field: string, x: real): Neighbour -> bool {
    (n: Neighbour) => Carries(ops, n, x) && Admits(field, x)
  }

  predicate Carries(ops: TextOps, n: Neighbour, x: real) {
    n.value == Some(Number(x)) || (n.value.Some? && n.value.value.Text? && ops.parseFloat(n.value.value.s) == Some(x))
  }

  lemma OffersUsable(ops: TextOps, field: string, n: Neighbour, x: real)
    ensures OffersNumber(ops, field, x)(n) <==>
            n.value.Some? && UsableNumber(ops, field, n.value.value) == Some(x)
  {
    assert InRange(field, x) <==> Admits(field, x);
  }

  predicate Admits(field: string, x: real) {
    && (field == "lifetime" ==> 0.1 <= x <= 50.0)
    && (field == "power" ==> 0.1 <= x <= 30000.0)
    && (field == "mass_kg" ==> 0.1 <= x <= 30000.0)
    && (field == "launch_year" ==> 1957.0 <= x <= 2035.0)
  }

  /** A neighbour offers its text, or its printed number, trimmed and in lower case. */
  function OffersText(ops: TextOps, s: string): Neighbour -> bool {
    (n: Neighbour) => n.value.Some? && (match n.value.value case Number(x) => ops.tidy(ops.show(x)) == s
                                                            case Text(t) => ops.tidy(t) == s)
  }

  lemma {:induction false} TextsMultiplicity(ops: TextOps, ns: seq<Neighbour>, s: string)
    ensures multiset(Texts(ops, ns))[s] == |Filter(ns, OffersText(ops, s))|
  {
    if ns != [] {
      var n := |ns| - 1;
      TextsMultiplicity(ops, ns[..n], s);
      FilterSnoc(ns, n, OffersText(ops, s));
      assert ns[..n + 1] == ns;
    }
  }

  lemma ValuesPermutation(ops: TextOps, field: string, a: seq<Neighbour>, b: seq<Neighbour>)
    requires Permutation(a, b)
    ensures Permutation(Numbers(ops, field, a), Numbers(ops, field, b))
    ensures Permutation(Texts(ops, a), Texts(ops, b))
  {
    forall x ensures multiset(Numbers(ops, field, a))[x] == multiset(Numbers(ops, field, b))[x] {
      NumbersMultiplicity(ops, field, a, x);
      NumbersMultiplicity(ops, field, b, x);
      FilterPermutation(a, b, OffersNumber(ops, field, x));
      PermutationBasics(Filter(a, OffersNumber(ops, field, x)), Filter(b, OffersNumber(ops, field, x)));
    }
    forall s ensures multiset(Texts(ops, a))[s] == multiset(Texts(ops, b))[s] {
      TextsMultiplicity(ops, a, s);
      TextsMultiplicity(ops, b, s);
      FilterPermutation(a, b, OffersText(ops, s));
      PermutationBasics(Filter(a, OffersText(ops, s)), Filter(b, OffersText(ops, s)));
    }
  }

  /** Given the same nearest distance, the order in which the neighbours are listed does not change the verdict. */
  lemma DecidePermutation(ops: TextOps, field: string, maxDistance: real, a: seq<Neighbour>, b: seq<Neighbour>)
    requires Permutation(a, b) && (a != [] && b != [] ==> a[0].distance == b[0].distance)
    ensures Decide(ops, field, maxDistance, a) == Decide(ops, field, maxDistance, b)
  {
    PermutationBasics(a, b);
    ValuesPermutation(ops, field, a, b);
    NumericVerdictPermutation(Numbers(ops, field, a), Numbers(ops, field, b));
    TextVerdictPermutation(Texts(ops, a), Texts(ops, b));
  }

  lemma NumericVerdictPermutation(a: seq<real>, b: seq<real>)
    requires Permutation(a, b)
    ensures NumericVerdict(a) == NumericVerdict(b)
  {
    PermutationBasics(a, b);
    if |a| >= 3 {
      NumericConsensusPermutation(a, b);
    }
  }

  lemma TextVerdictPermutation(a: seq<string>, b: seq<string>)
    requires Permutation(a, b)
    ensures TextVerdict(a) == TextVerdict(b)
  {
    PermutationBasics(a, b);
    if |a| >= 3 {
      TextConsensusPermutation(a, b);
    }
  }

  // ---------- All targets ----------

  datatype Write = Write(id: string, field: string, value: Value)

  datatype Stats = Stats(attempted: nat, filled: nat, disagree: nat, tooFar: nat, outOfRange: nat, samples: seq<Write>)

  /** The fills of the first targets, in order. */
  ghost function Fills(ops: TextOps, field: string, maxDistance: real, targets: seq<Target>,
                       answers: seq<seq<Neighbour>>): seq<Write>
    requires |targets| == |answers|
  {
    if targets == [] then []
    else
      var n := |targets| - 1;
      var before := Fills(ops, field, maxDistance, targets[..n], answers[..n]);
      var verdict := Decide(ops, field, maxDistance, answers[n]);
      if verdict.Fill? then before + [Write(targets[n].id, field, verdict.value)] else before
  }

  ghost function CountVerdicts(ops: TextOps, field: string, maxDistance: real, answers: seq<seq<Neighbour>>,
                               v: Verdict): nat {
    if answers == [] then 0
    else
      var n := |answers| - 1;
      CountVerdicts(ops, field, maxDistance, answers[..n], v) +
      if Decide(ops, field, maxDistance, answers[n]) == v then 1 else 0
  }

  /** How many neighbour values of the looked-at answers were unusable. */
  function TotalRejects(ops: TextOps, field: string, maxDistance: real, answers: seq<seq<Neighbour>>): nat {
    if answers == [] then 0
    else
      var n := |answers| - 1;
      TotalRejects(ops, field, maxDistance, answers[..n]) + RejectedBy(ops, field, maxDistance, answers[n])
  }

  function RejectedBy(ops: TextOps, field: string, maxDistance: real, ns: seq<Neighbour>): nat {
    if Inspected(maxDistance, ns) && KindOf(field) == Numeric then Rejects(ops, field, ns) else 0
  }

  /** The counters after some targets. */
  ghost predicate Tallied(ops: TextOps, field: string, maxDistance: real, targets: seq<Target>,
                          answers: seq<seq<Neighbour>>, s: Stats)
    requires |targets| == |answers|
  {
    var fills := Fills(ops, field, maxDistance, targets, answers);
    && s.attempted == |targets|
    && s.filled == |fills|
    && s.disagree == CountVerdicts(ops, field, maxDistance, answers, Disagree)
    && s.tooFar == CountVerdicts(ops, field, maxDistance, answers, TooFar)
    && s.outOfRange == TotalRejects(ops, field, maxDistance, answers)
    && s.attempted == s.filled + s.disagree + s.tooFar
    && s.samples == fills[..if |fills| < 10 then |fills| else 10]
  }

  /** The counters after one more verdict. */
  function Record(s: Stats, target: Target, field: string, verdict: Verdict, rejected: nat): Stats {
    var t := s.(attempted := s.attempted + 1, outOfRange := s.outOfRange + rejected);
    match verdict
    case TooFar => t.(tooFar := t.tooFar + 1)
    case Disagree => t.(disagree := t.disagree + 1)
    case Fill(value) =>
      t.(filled := t.filled + 1,
         samples := if |t.samples| < 10 then t.samples + [Write(target.id, field, value)] else t.samples)
  }

  function FillOf(target: Target, field: string, verdict: Verdict): seq<Write> {
    if verdict.Fill? then [Write(target.id, field, verdict.value)] else []
  }

  lemma FillsSnoc(ops: TextOps, field: string, maxDistance: real, targets: seq<Target>, answers: seq<seq<Neighbour>>,
                  n: nat, next: nat)
    requires |targets| == |answers| && n < |targets| && next == n + 1
    ensures Fills(ops, field, maxDistance, targets[..next], answers[..next]) ==
            Fills(ops, field, maxDistance, targets[..n], answers[..n]) +
            FillOf(targets[n], field, Decide(ops, field, maxDistance, answers[n]))
  {
    assert targets[..next][..n] == targets[..n] && answers[..next][..n] == answers[..n];
  }

  lemma CountersSnoc(ops: TextOps, field: string, maxDistance: real, answers: seq<seq<Neighbour>>, n: nat, next: nat,
                     v: Verdict)
    requires n < |answers| && next == n + 1
    ensures CountVerdicts(ops, field, maxDistance, answers[..next], v) ==
            CountVerdicts(ops, field, maxDistance, answers[..n], v) +
            if Decide(ops, field, maxDistance, answers[n]) == v then 1 else 0
    ensures TotalRejects(ops, field, maxDistance, answers[..next]) ==
            TotalRejects(ops, field, maxDistance, answers[..n]) + RejectedBy(ops, field, maxDistance, answers[n])
  {
    assert answers[..next][..n] == answers[..n];
  }

  lemma RecordTallies(ops: TextOps, field: string, maxDistance: real, targets: seq<Target>,
                      answers: seq<seq<Neighbour>>,
                      n: nat, next: nat, s: Stats)
    requires |targets| == |answers| && n < |targets| && next == n + 1
    requires Tallied(ops, field, maxDistance, targets[..n], answers[..n], s)
    ensures Tallied(ops, field, maxDistance, targets[..next], answers[..next],
                    Record(s, targets[n], field, Decide(ops, field, maxDistance, answers[n]),
                           RejectedBy(ops, field, maxDistance, answers[n])))
  {
    FillsSnoc(ops, field, maxDistance, targets, answers, n, next);
    CountersSnoc(ops, field, maxDistance, answers, n, next, Disagree);
    CountersSnoc(ops, field, maxDistance, answers, n, next, TooFar);
  }

  class KnnPropagationService {
    /** The field updates sent to the satellite table, oldest first. */
    var writes: seq<Write>

    constructor ()
      ensures writes == []
    {
      writes := [];
    }

    /** `answers[i]` is what the neighbour query returns for `targets[i]` at its turn, nearest first. */
    method Propagate(ops: TextOps, field: string, minSim: real, dryRun: bool, targets: seq<Target>,
                     answers: seq<seq<Neighbour>>)
      returns (stats: Stats)
      requires |targets| == |answers|
      modifies this
      ensures Tallied(ops, field, 1.0 - minSim, targets, answers, stats)
      ensures writes == old(writes) + if dryRun then [] else Fills(ops, field, 1.0 - minSim, targets, answers)
    {
      var maxDistance := 1.0 - minSim;
      stats := Stats(0, 0, 0, 0, 0, []);
      for n := 0 to |targets|
        invariant Tallied(ops, field, maxDistance, targets[..n], answers[..n], stats)
        invariant writes == old(writes) +
                            if dryRun then [] else Fills(ops, field, maxDistance, targets[..n], answers[..n])
      {
        var verdict, rejected := DecideTarget(ops, field, maxDistance, answers[n]);
        RecordTallies(ops, field, maxDistance, targets, answers, n, n + 1, stats);
        FillsSnoc(ops, field, maxDistance, targets, answers, n, n + 1);
        stats := Record(stats, targets[n], field, verdict, rejected);
        if verdict.Fill? && !dryRun {
          writes := writes + [Write(targets[n].id, field, verdict.value)];
        }
      }
      assert targets[..|targets|] == targets && answers[..|answers|] == answers;
    }
  }
}
