/** Episodes as choices of indices: which choices the limits admit, the exhaustive enumeration of them in
    depth-first order, and the selection of the first choice of every key up to a cap. */
module EpisodeChoices {
  import opened Collections
  import opened TemporalEvents

  type Choice = seq<nat>

  /** `maxSpan` and `maxGap` are `None` where the source uses infinity. */
  datatype Limits = Limits(maxSpan: Option<int>, maxGap: Option<int>)

  predicate Within(delta: int, limit: Option<int>) {
    limit.None? || delta <= limit.value
  }

  // ---------- Admissible choices ----------

  ghost predicate Increasing(o: seq<TemporalEvent>, c: Choice) {
    && Bounded(o, c)
    && (forall i, j :: 0 <= i < j < |c| ==> c[i] < c[j])
  }

  /** A non-empty, strictly increasing choice whose span and gaps stay within the limits. */
  ghost predicate Admissible(o: seq<TemporalEvent>, c: Choice, lim: Limits) {
    && c != []
    && Increasing(o, c)
    && (forall k :: 1 <= k < |c| ==> Within(o[c[k]].timestamp - o[c[0]].timestamp, lim.maxSpan))
    && (forall i, j :: 0 <= i < j < |c| && j == i + 1 ==>
          Within(o[c[j]].timestamp - o[c[i]].timestamp, lim.maxGap))
  }

  ghost predicate Bounded(o: seq<TemporalEvent>, c: Choice) {
    forall k :: 0 <= k < |c| ==> c[k] < |o|
  }

  /** The chosen events. Indices out of bounds never arise; they choose nothing. */
  ghost function EventsAt(o: seq<TemporalEvent>, c: Choice): seq<TemporalEvent> {
    if c == [] then []
    else (if c[0] < |o| then [o[c[0]]] else []) + EventsAt(o, c[1..])
  }

  lemma {:induction false} EventsAtIndex(o: seq<TemporalEvent>, c: Choice)
    requires Bounded(o, c)
    ensures |EventsAt(o, c)| == |c|
    ensures forall k :: 0 <= k < |c| ==> EventsAt(o, c)[k] == o[c[k]]
  {
    if c != [] {
      assert Bounded(o, c[1..]);
      EventsAtIndex(o, c[1..]);
    }
  }

  lemma EventsAtSnoc(o: seq<TemporalEvent>, c: Choice, i: nat)
    requires Bounded(o, c) && i < |o|
    ensures Bounded(o, c + [i])
    ensures EventsAt(o, c + [i]) == EventsAt(o, c) + [o[i]]
  {
    EventsAtIndex(o, c);
    EventsAtIndex(o, c + [i]);
  }

  function SequenceOf(events: seq<TemporalEvent>): (r: seq<string>)
    ensures |r| == |events|
  {
    if events == [] then [] else [PreEventSignature(events[0])] + SequenceOf(events[1..])
  }

  lemma {:induction false} SequenceOfIndex(events: seq<TemporalEvent>, k: nat)
    requires k < |events|
    ensures SequenceOf(events)[k] == PreEventSignature(events[k])
  {
    if k > 0 {
      SequenceOfIndex(events[1..], k - 1);
    }
  }

  ghost function SignaturesAt(o: seq<TemporalEvent>, c: Choice): seq<string> {
    SequenceOf(EventsAt(o, c))
  }

  lemma SignaturesAtIndex(o: seq<TemporalEvent>, c: Choice)
    requires Bounded(o, c)
    ensures |SignaturesAt(o, c)| == |c|
    ensures forall k :: 0 <= k < |c| ==> SignaturesAt(o, c)[k] == PreEventSignature(o[c[k]])
  {
    EventsAtIndex(o, c);
    forall k | 0 <= k < |c| ensures SignaturesAt(o, c)[k] == PreEventSignature(o[c[k]]) {
      SequenceOfIndex(EventsAt(o, c), k);
    }
  }

  function SequenceKey(sequence: seq<string>): string {
    Join(sequence, UNIT_SEPARATOR)
  }

  ghost function Key(o: seq<TemporalEvent>, c: Choice): string {
    SequenceKey(SignaturesAt(o, c))
  }

  /** `s` embeds in `o`: some admissible choice spells it. */
  ghost predicate Embeds(o: seq<TemporalEvent>, s: seq<string>, lim: Limits) {
    exists c :: Admissible(o, c, lim) && SignaturesAt(o, c) == s
  }

  lemma AdmissiblePrefix(o: seq<TemporalEvent>, c: Choice, n: nat, lim: Limits)
    requires Admissible(o, c, lim) && 1 <= n <= |c|
    ensures Admissible(o, c[..n], lim)
    ensures |SignaturesAt(o, c)| == |c|
    ensures SignaturesAt(o, c[..n]) == SignaturesAt(o, c)[..n]
  {
    SignaturesAtIndex(o, c);
    SignaturesAtIndex(o, c[..n]);
  }

  // ---------- Depth-first enumeration ----------

  /** May index `i` follow the partial choice `cur`? The first event is never restricted. */
  ghost predicate Fits(o: seq<TemporalEvent>, cur: Choice, i: nat, lim: Limits)
    requires i < |o| && Bounded(o, cur)
  {
    cur != [] ==>
      && Within(o[i].timestamp - o[cur[0]].timestamp, lim.maxSpan)
      && Within(o[i].timestamp - o[cur[|cur| - 1]].timestamp, lim.maxGap)
  }

  /** All choices that start with `cur`, `cur` first. Nothing is pruned: every later index is tried. */
  ghost function Subtree(o: seq<TemporalEvent>, cur: Choice, maxSteps: nat, lim: Limits): seq<Choice>
    requires cur != [] && Increasing(o, cur)
    decreases |o| - cur[|cur| - 1] - 1, 1
  {
    [cur] + (if |cur| >= maxSteps then [] else Children(o, cur, cur[|cur| - 1] + 1, maxSteps, lim))
  }

  /** All choices that extend `cur` with a next index of at least `i`. */
  ghost function Children(o: seq<TemporalEvent>, cur: Choice, i: nat, maxSteps: nat, lim: Limits): seq<Choice>
    requires Increasing(o, cur) && i <= |o| && (cur != [] ==> cur[|cur| - 1] < i)
    decreases |o| - i, 0
  {
    if i == |o| then []
    else (if Fits(o, cur, i, lim) then Subtree(o, cur + [i], maxSteps, lim) else [])
         + Children(o, cur, i + 1, maxSteps, lim)
  }

  /** Every admissible choice of at most `maxSteps` events. */
  ghost function AllChoices(o: seq<TemporalEvent>, maxSteps: nat, lim: Limits): seq<Choice> {
    Children(o, [], 0, maxSteps, lim)
  }

  ghost predicate Extends(c: Choice, cur: Choice, i: nat) {
    cur <= c && |cur| < |c| && i <= c[|cur|]
  }

  lemma ExtendStep(o: seq<TemporalEvent>, cur: Choice, i: nat, lim: Limits)
    requires i < |o| && (cur == [] || (Admissible(o, cur, lim) && cur[|cur| - 1] < i)) && Fits(o, cur, i, lim)
    ensures Admissible(o, cur + [i], lim)
  {
  }

  lemma ExtensionFits(o: seq<TemporalEvent>, c: Choice, cur: Choice, lim: Limits)
    requires Admissible(o, c, lim) && cur <= c && |cur| < |c|
    requires Bounded(o, cur)
    ensures Fits(o, cur, c[|cur|], lim)
  {
  }

  /** The subtree holds exactly the admissible choices that start with `cur`. */
  lemma {:induction false} SubtreeExact(o: seq<TemporalEvent>, cur: Choice, maxSteps: nat, lim: Limits, c: Choice)
    requires Admissible(o, cur, lim) && 1 <= |cur| <= maxSteps
    ensures c in Subtree(o, cur, maxSteps, lim) <==>
            Admissible(o, c, lim) && |c| <= maxSteps && cur <= c
    decreases |o| - cur[|cur| - 1] - 1, 1
  {
    var next := cur[|cur| - 1] + 1;
    if |cur| < maxSteps {
      ChildrenExact(o, cur, next, maxSteps, lim, c);
    }
    if Admissible(o, c, lim) && |c| <= maxSteps && cur <= c && c != cur {
      assert c[|cur| - 1] < c[|cur|];
      assert Extends(c, cur, next);
    }
  }

  lemma {:induction false} ChildrenExact(o: seq<TemporalEvent>, cur: Choice, i: nat, maxSteps: nat, lim: Limits,
                                         c: Choice)
    requires cur == [] || Admissible(o, cur, lim)
    requires |cur| < maxSteps && i <= |o| && (cur != [] ==> cur[|cur| - 1] < i)
    ensures c in Children(o, cur, i, maxSteps, lim) <==>
            Admissible(o, c, lim) && |c| <= maxSteps && Extends(c, cur, i)
    decreases |o| - i, 0
  {
    if i < |o| {
      ChildrenExact(o, cur, i + 1, maxSteps, lim, c);
      if Fits(o, cur, i, lim) {
        ExtendStep(o, cur, i, lim);
        SubtreeExact(o, cur + [i], maxSteps, lim, c);
      }
      if Admissible(o, c, lim) && |c| <= maxSteps && cur <= c && |cur| < |c| && c[|cur|] == i {
        ExtensionFits(o, c, cur, lim);
        assert cur + [i] <= c;
      }
    }
  }

  lemma AllChoicesExact(o: seq<TemporalEvent>, maxSteps: nat, lim: Limits, c: Choice)
    requires maxSteps >= 1
    ensures c in AllChoices(o, maxSteps, lim) <==> Admissible(o, c, lim) && |c| <= maxSteps
  {
    ChildrenExact(o, [], 0, maxSteps, lim, c);
  }

  // ---------- Lexicographic order ----------

  /** A choice comes before its extensions and before choices with a later index at the first difference. */
  ghost predicate LexLess(a: Choice, b: Choice) {
    b != [] && (a == [] || a[0] < b[0] || (a[0] == b[0] && LexLess(a[1..], b[1..])))
  }

  lemma {:induction false} LexLessTransitive(a: Choice, b: Choice, c: Choice)
    requires LexLess(a, b) && LexLess(b, c)
    ensures LexLess(a, c)
  {
    if a != [] && a[0] == b[0] == c[0] {
      LexLessTransitive(a[1..], b[1..], c[1..]);
    }
  }

  lemma {:induction false} LexLessTrichotomy(a: Choice, b: Choice)
    ensures LexLess(a, b) || a == b || LexLess(b, a)
    ensures !(LexLess(a, b) && LexLess(b, a))
    ensures LexLess(a, b) ==> a != b
  {
    if a != [] && b != [] && a[0] == b[0] {
      LexLessTrichotomy(a[1..], b[1..]);
      assert a == [a[0]] + a[1..] && b == [b[0]] + b[1..];
    }
  }

  lemma {:induction false} PrefixIsLexLess(a: Choice, b: Choice)
    requires a <= b && a != b
    ensures LexLess(a, b)
  {
    if a != [] {
      assert a[1..] <= b[1..];
      assert a == [a[0]] + a[1..] && b == [b[0]] + b[1..];
      PrefixIsLexLess(a[1..], b[1..]);
    }
  }

  /** Choices that part from `cur` at a smaller next index come first. */
  lemma {:induction false} BranchesAreLexLess(a: Choice, b: Choice, cur: Choice)
    requires cur <= a && cur <= b && |cur| < |a| && |cur| < |b| && a[|cur|] < b[|cur|]
    ensures LexLess(a, b)
  {
    if cur != [] {
      BranchesAreLexLess(a[1..], b[1..], cur[1..]);
    }
  }

  ghost predicate LexSorted(cs: seq<Choice>) {
    forall i, j :: 0 <= i < j < |cs| ==> LexLess(cs[i], cs[j])
  }

  lemma LexSortedAppend(a: seq<Choice>, b: seq<Choice>)
    requires LexSorted(a) && LexSorted(b)
    requires forall x, y :: x in a && y in b ==> LexLess(x, y)
    ensures LexSorted(a + b)
  {
    forall i, j | 0 <= i < j < |a + b| ensures LexLess((a + b)[i], (a + b)[j]) {
      if i < |a| <= j {
        assert a[i] in a && b[j - |a|] in b;
      }
    }
  }

  lemma LexSortedSplit(a: seq<Choice>, b: seq<Choice>)
    requires LexSorted(a + b)
    ensures LexSorted(a) && LexSorted(b)
    ensures forall x, y :: x in a && y in b ==> LexLess(x, y)
  {
    var s := a + b;
    assert forall i :: 0 <= i < |a| ==> s[i] == a[i];
    assert forall i :: 0 <= i < |b| ==> s[|a| + i] == b[i];
    forall x, y | x in a && y in b ensures LexLess(x, y) {
      var i :| 0 <= i < |a| && a[i] == x;
      var j :| 0 <= j < |b| && b[j] == y;
      assert LexLess(s[i], s[|a| + j]);
    }
  }

  lemma {:induction false} SubtreeLexSorted(o: seq<TemporalEvent>, cur: Choice, maxSteps: nat, lim: Limits)
    requires Admissible(o, cur, lim) && 1 <= |cur| <= maxSteps
    ensures LexSorted(Subtree(o, cur, maxSteps, lim))
    decreases |o| - cur[|cur| - 1] - 1, 1
  {
    if |cur| < maxSteps {
      var next := cur[|cur| - 1] + 1;
      var rest := Children(o, cur, next, maxSteps, lim);
      ChildrenLexSorted(o, cur, next, maxSteps, lim);
      forall y | y in rest ensures LexLess(cur, y) {
        ChildrenExact(o, cur, next, maxSteps, lim, y);
        PrefixIsLexLess(cur, y);
      }
      LexSortedAppend([cur], rest);
    }
  }

  /** Choices through index `i` come before choices through a later index. */
  lemma HereBeforeLater(o: seq<TemporalEvent>, cur: Choice, i: nat, next: nat, maxSteps: nat, lim: Limits,
                        x: Choice, y: Choice)
    requires Admissible(o, cur + [i], lim) && (cur == [] || Admissible(o, cur, lim)) && |cur| < maxSteps
    requires next == i + 1 <= |o| && (cur != [] ==> cur[|cur| - 1] < i)
    requires x in Subtree(o, cur + [i], maxSteps, lim) && y in Children(o, cur, next, maxSteps, lim)
    ensures LexLess(x, y)
  {
    SubtreeExact(o, cur + [i], maxSteps, lim, x);
    ChildrenExact(o, cur, next, maxSteps, lim, y);
    assert x[|cur|] == i;
    BranchesAreLexLess(x, y, cur);
  }

  lemma {:induction false} ChildrenLexSorted(o: seq<TemporalEvent>, cur: Choice, i: nat, maxSteps: nat, lim: Limits)
    requires cur == [] || Admissible(o, cur, lim)
    requires |cur| < maxSteps && i <= |o| && (cur != [] ==> cur[|cur| - 1] < i)
    ensures LexSorted(Children(o, cur, i, maxSteps, lim))
    decreases |o| - i, 0
  {
    if i < |o| {
      var next: nat := i + 1;
      ChildrenLexSorted(o, cur, next, maxSteps, lim);
      if Fits(o, cur, i, lim) {
        ExtendStep(o, cur, i, lim);
        var here, later := Subtree(o, cur + [i], maxSteps, lim), Children(o, cur, next, maxSteps, lim);
        SubtreeLexSorted(o, cur + [i], maxSteps, lim);
        forall x, y | x in here && y in later ensures LexLess(x, y) {
          HereBeforeLater(o, cur, i, next, maxSteps, lim, x, y);
        }
        LexSortedAppend(here, later);
      }
    }
  }

  // ---------- Pruning ----------

  /** Once an index is too late for the span or the gap, every later one is: leaving the loop loses nothing. */
  lemma {:induction false} NothingAfterBreak(o: seq<TemporalEvent>, cur: Choice, i: nat, maxSteps: nat, lim: Limits)
    requires Chronological(o) && Increasing(o, cur) && cur != [] && cur[|cur| - 1] < i <= |o|
    requires i < |o| ==> !Fits(o, cur, i, lim)
    ensures Children(o, cur, i, maxSteps, lim) == []
    decreases |o| - i
  {
    if i < |o| {
      if i + 1 < |o| {
        ChronologicalPair(o, i, i + 1);
      }
      NothingAfterBreak(o, cur, i + 1, maxSteps, lim);
    }
  }

  // ---------- First choice of every key, up to a cap ----------

  ghost predicate HasKey(o: seq<TemporalEvent>, cs: seq<Choice>, key: string)
  {
    exists c :: c in cs && Key(o, c) == key
  }

  ghost function KeysOf(o: seq<TemporalEvent>, cs: seq<Choice>): set<string>
  {
    if cs == [] then {} else {Key(o, cs[0])} + KeysOf(o, cs[1..])
  }

  lemma {:induction false} KeysOfExact(o: seq<TemporalEvent>, cs: seq<Choice>, key: string)
    ensures key in KeysOf(o, cs) <==> HasKey(o, cs, key)
  {
    if cs != [] {
      KeysOfExact(o, cs[1..], key);
      if Key(o, cs[0]) == key {
        assert cs[0] in cs;
      }
    }
  }

  lemma {:induction false} KeysOfSnoc(o: seq<TemporalEvent>, cs: seq<Choice>, c: Choice)
    ensures KeysOf(o, cs + [c]) == KeysOf(o, cs) + {Key(o, c)}
  {
    if cs == [] {
      assert cs + [c] == [c] && [c][1..] == [];
    } else {
      assert (cs + [c])[1..] == cs[1..] + [c];
      KeysOfSnoc(o, cs[1..], c);
    }
  }

  /** Runs through `cs` and keeps a choice when its key is new, until `cap` choices are kept. */
  ghost function Collect(o: seq<TemporalEvent>, cs: seq<Choice>, cap: nat, acc: seq<Choice>): seq<Choice>
  {
    if cs == [] || |acc| >= cap then acc
    else if HasKey(o, acc, Key(o, cs[0])) then Collect(o, cs[1..], cap, acc)
    else Collect(o, cs[1..], cap, acc + [cs[0]])
  }

  lemma {:induction false} CollectAppend(o: seq<TemporalEvent>, a: seq<Choice>, b: seq<Choice>, cap: nat,
                                         acc: seq<Choice>)
    ensures Collect(o, a + b, cap, acc) == Collect(o, b, cap, Collect(o, a, cap, acc))
  {
    if a == [] {
      assert a + b == b;
    } else {
      assert (a + b)[1..] == a[1..] + b;
      if |acc| < cap {
        var acc' := if HasKey(o, acc, Key(o, a[0])) then acc else acc + [a[0]];
        CollectAppend(o, a[1..], b, cap, acc');
      }
    }
  }

  ghost predicate DistinctKeys(o: seq<TemporalEvent>, cs: seq<Choice>)
  {
    forall i, j :: 0 <= i < j < |cs| ==> Key(o, cs[i]) != Key(o, cs[j])
  }

  /** Accounts for choice `c` when the scan is done: its key was kept at `c` or earlier, or the cap was
      reached with choices that all come before `c`. */
  ghost predicate Accounted(o: seq<TemporalEvent>, c: Choice, kept: seq<Choice>, cap: nat)
  {
    || (exists d :: d in kept && Key(o, d) == Key(o, c) && (d == c || LexLess(d, c)))
    || (|kept| == cap && forall d :: d in kept ==> LexLess(d, c))
  }

  /** The accumulator after looking at `c`. */
  ghost function Keep(o: seq<TemporalEvent>, acc: seq<Choice>, c: Choice): seq<Choice>
  {
    if HasKey(o, acc, Key(o, c)) then acc else acc + [c]
  }

  /** Looking at the head keeps the order and the distinctness of keys, and accounts for the head. */
  lemma KeepSorted(o: seq<TemporalEvent>, cs: seq<Choice>, acc: seq<Choice>)
    requires cs != []
    requires LexSorted(acc + cs)
    ensures LexSorted(Keep(o, acc, cs[0]) + cs[1..])
  {
    var c, rest := cs[0], cs[1..];
    assert acc + cs == acc + [c] + rest;
    LexSortedSplit(acc + [c], rest);
    LexSortedSplit(acc, [c]);
    forall x, y | x in acc && y in rest ensures LexLess(x, y) {
      assert x in acc + [c];
    }
    LexSortedAppend(acc, rest);
  }

  lemma KeepKeys(o: seq<TemporalEvent>, acc: seq<Choice>, c: Choice)
    requires DistinctKeys(o, acc)
    requires forall d :: d in acc ==> LexLess(d, c)
    ensures DistinctKeys(o, Keep(o, acc, c))
    ensures exists d :: d in Keep(o, acc, c) && Key(o, d) == Key(o, c) && (d == c || LexLess(d, c))
  {
    if HasKey(o, acc, Key(o, c)) {
      var d :| d in acc && Key(o, d) == Key(o, c);
      assert LexLess(d, c);
    } else {
      assert c in acc + [c];
      forall i | 0 <= i < |acc| ensures Key(o, acc[i]) != Key(o, c) {
        assert acc[i] in acc;
      }
    }
  }

  lemma {:induction false} CollectInvariant(o: seq<TemporalEvent>, cs: seq<Choice>, cap: nat, acc: seq<Choice>)
    requires |acc| <= cap
    requires LexSorted(acc + cs) && DistinctKeys(o, acc)
    ensures var r := Collect(o, cs, cap, acc);
            && acc <= r && |r| <= cap
            && LexSorted(r) && DistinctKeys(o, r)
            && (forall c :: c in r ==> c in acc || c in cs)
            && (forall c :: c in cs ==> Accounted(o, c, r, cap))
  {
    var r := Collect(o, cs, cap, acc);
    LexSortedSplit(acc, cs);
    if cs != [] && |acc| < cap {
      var c := cs[0];
      var acc' := Keep(o, acc, c);
      KeepSorted(o, cs, acc);
      KeepKeys(o, acc, c);
      CollectInvariant(o, cs[1..], cap, acc');
      assert r == Collect(o, cs[1..], cap, acc');
      var d :| d in acc' && Key(o, d) == Key(o, c) && (d == c || LexLess(d, c));
      assert d in r;
      assert Accounted(o, c, r, cap);
    }
  }

  // ---------- The mined choices ----------

  /** What the search returns: the first choice of every key in depth-first order, at most `cap` of them. */
  ghost function MinedChoices(o: seq<TemporalEvent>, maxSteps: nat, lim: Limits, cap: nat): seq<Choice>
    requires maxSteps >= 1
  {
    Collect(o, AllChoices(o, maxSteps, lim), cap, [])
  }

  ghost predicate Minable(o: seq<TemporalEvent>, c: Choice, maxSteps: nat, lim: Limits) {
    Admissible(o, c, lim) && |c| <= maxSteps
  }

  /** Minable choices in lexicographic order with distinct keys, at most `cap`, such that every minable
      choice is accounted for. */
  ghost predicate ExactResult(o: seq<TemporalEvent>, maxSteps: nat, lim: Limits, cap: nat, r: seq<Choice>) {
    && |r| <= cap
    && LexSorted(r) && DistinctKeys(o, r)
    && (forall c :: c in r ==> Minable(o, c, maxSteps, lim))
    && (forall c :: Minable(o, c, maxSteps, lim) ==> Accounted(o, c, r, cap))
  }

  /** The search result is exact in this sense. */
  lemma MinedChoicesExact(o: seq<TemporalEvent>, maxSteps: nat, lim: Limits, cap: nat)
    requires maxSteps >= 1
    ensures ExactResult(o, maxSteps, lim, cap, MinedChoices(o, maxSteps, lim, cap))
  {
    var all := AllChoices(o, maxSteps, lim);
    ChildrenLexSorted(o, [], 0, maxSteps, lim);
    assert [] + all == all;
    CollectInvariant(o, all, cap, []);
    forall c ensures c in all <==> Minable(o, c, maxSteps, lim) {
      AllChoicesExact(o, maxSteps, lim, c);
    }
  }

  /** Below the cap nothing is missing: a key is mined exactly when some minable choice has it. */
  lemma MinedComplete(o: seq<TemporalEvent>, maxSteps: nat, lim: Limits, cap: nat, c: Choice)
    requires maxSteps >= 1 && |MinedChoices(o, maxSteps, lim, cap)| < cap
    requires Minable(o, c, maxSteps, lim)
    ensures HasKey(o, MinedChoices(o, maxSteps, lim, cap), Key(o, c))
  {
    MinedChoicesExact(o, maxSteps, lim, cap);
  }

  /** Even under the cap a mined choice is the lexicographically least one with its key. */
  lemma MinedIsLeast(o: seq<TemporalEvent>, maxSteps: nat, lim: Limits, cap: nat, d: Choice, c: Choice)
    requires maxSteps >= 1 && d in MinedChoices(o, maxSteps, lim, cap)
    requires Minable(o, c, maxSteps, lim) && Key(o, c) == Key(o, d)
    ensures d == c || LexLess(d, c)
  {
    MinedChoicesExact(o, maxSteps, lim, cap);
    var r := MinedChoices(o, maxSteps, lim, cap);
    assert Accounted(o, c, r, cap);
    if e :| e in r && Key(o, e) == Key(o, c) && (e == c || LexLess(e, c)) {
      var i :| 0 <= i < |r| && r[i] == d;
      var j :| 0 <= j < |r| && r[j] == e;
      assert i == j;
    }
  }

  /** The first event of a mined choice is the earliest any choice with the same key can start at, so the
      lead time recorded for a window is the longest possible. */
  lemma MinedLeadIsLongest(o: seq<TemporalEvent>, maxSteps: nat, lim: Limits, cap: nat, d: Choice, c: Choice)
    requires Chronological(o)
    requires maxSteps >= 1 && d in MinedChoices(o, maxSteps, lim, cap)
    requires Minable(o, c, maxSteps, lim) && Key(o, c) == Key(o, d)
    ensures Minable(o, d, maxSteps, lim)
    ensures o[d[0]].timestamp <= o[c[0]].timestamp
  {
    MinedChoicesExact(o, maxSteps, lim, cap);
    MinedIsLeast(o, maxSteps, lim, cap, d, c);
    ChronologicalPair(o, d[0], c[0]);
  }

  /** The mined keys are closed under non-empty prefixes, also when the cap cut the search short. */
  lemma MinedPrefixClosed(o: seq<TemporalEvent>, maxSteps: nat, lim: Limits, cap: nat, d: Choice, n: nat)
    requires maxSteps >= 1 && d in MinedChoices(o, maxSteps, lim, cap) && 1 <= n <= |d|
    ensures HasKey(o, MinedChoices(o, maxSteps, lim, cap), Key(o, d[..n]))
  {
    MinedChoicesExact(o, maxSteps, lim, cap);
    AdmissiblePrefix(o, d, n, lim);
    var r := MinedChoices(o, maxSteps, lim, cap);
    var p := d[..n];
    assert Accounted(o, p, r, cap);
    if n < |d| {
      PrefixIsLexLess(p, d);
      LexLessTrichotomy(p, d);
      assert !LexLess(d, p);
    } else {
      assert p == d;
    }
  }

  /** Exactness leaves only one possible result. */
  lemma {:induction false} MinedCharacterization(o: seq<TemporalEvent>, maxSteps: nat, lim: Limits, cap: nat,
                                                 r: seq<Choice>)
    requires maxSteps >= 1 && ExactResult(o, maxSteps, lim, cap, r)
    ensures r == MinedChoices(o, maxSteps, lim, cap)
  {
    var m := MinedChoices(o, maxSteps, lim, cap);
    MinedChoicesExact(o, maxSteps, lim, cap);
    SameChoices(o, maxSteps, lim, cap, r, m, 0);
  }

  lemma {:induction false} SameChoices(o: seq<TemporalEvent>, maxSteps: nat, lim: Limits, cap: nat,
                                       r: seq<Choice>, m: seq<Choice>, n: nat)
    requires ExactResult(o, maxSteps, lim, cap, r) && ExactResult(o, maxSteps, lim, cap, m)
    requires n <= |r| && n <= |m| && r[..n] == m[..n]
    ensures r == m
    decreases |r| - n
  {
    if n < |r| && n < |m| {
      NextChoiceNotLater(o, maxSteps, lim, cap, r, m, n);
      NextChoiceNotLater(o, maxSteps, lim, cap, m, r, n);
      LexLessTrichotomy(r[n], m[n]);
      assert r[..n + 1] == r[..n] + [r[n]] && m[..n + 1] == m[..n] + [m[n]];
      SameChoices(o, maxSteps, lim, cap, r, m, n + 1);
    } else if n < |r| {
      assert m == m[..n] <= r;
      NextChoiceExists(o, maxSteps, lim, cap, r, m);
    } else {
      assert r == r[..n] <= m;
      NextChoiceExists(o, maxSteps, lim, cap, m, r);
    }
  }

  /** A common prefix of two exact results holds no key of a later choice. */
  lemma KeyNotBefore(o: seq<TemporalEvent>, maxSteps: nat, lim: Limits, cap: nat, r: seq<Choice>, n: nat)
    requires ExactResult(o, maxSteps, lim, cap, r) && n < |r|
    ensures r[n] in r
    ensures forall d :: d in r[..n] ==> d in r && Key(o, d) != Key(o, r[n])
    ensures !Accounted(o, r[n], r[..n], cap)
  {
    forall d | d in r[..n] ensures d in r && Key(o, d) != Key(o, r[n]) {
      var k :| 0 <= k < n && r[k] == d;
    }
  }

  /** From place `n` on, the choice there comes first. */
  lemma NotBefore(m: seq<Choice>, n: nat, d: Choice)
    requires LexSorted(m) && n < |m| && d in m && d !in m[..n]
    ensures d == m[n] || LexLess(m[n], d)
  {
    assert m == m[..n] + m[n..];
    var k :| 0 <= k < |m[n..]| && m[n..][k] == d;
    assert m[n + k] == d;
  }

  lemma NextChoiceNotLater(o: seq<TemporalEvent>, maxSteps: nat, lim: Limits, cap: nat,
                           r: seq<Choice>, m: seq<Choice>, n: nat)
    requires ExactResult(o, maxSteps, lim, cap, r) && ExactResult(o, maxSteps, lim, cap, m)
    requires n < |r| && n < |m| && r[..n] == m[..n]
    ensures !LexLess(r[n], m[n])
  {
    var c := r[n];
    KeyNotBefore(o, maxSteps, lim, cap, r, n);
    LexLessTrichotomy(c, m[n]);
    assert m[n] in m;
    forall d | d in m && d !in r[..n] ensures d == m[n] || LexLess(m[n], d) {
      NotBefore(m, n, d);
    }
    forall d | LexLess(m[n], d) && LexLess(d, c) ensures LexLess(m[n], c) {
      LexLessTransitive(m[n], d, c);
    }
    assert Accounted(o, c, m, cap);
  }

  lemma NextChoiceExists(o: seq<TemporalEvent>, maxSteps: nat, lim: Limits, cap: nat,
                         r: seq<Choice>, m: seq<Choice>)
    requires ExactResult(o, maxSteps, lim, cap, r) && ExactResult(o, maxSteps, lim, cap, m)
    requires m <= r
    ensures r == m
  {
    assert r[..|m|] == m;
    if |m| < |r| {
      KeyNotBefore(o, maxSteps, lim, cap, r, |m|);
    }
  }
}
