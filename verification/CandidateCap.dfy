/** When the candidate cap of a window loses nothing: the exact condition, and one on the number of events. */
module CandidateCap {
  import opened Collections
  import opened TemporalEvents
  import opened EpisodeChoices

  /** The keys of all minable choices. */
  ghost function MinableKeys(o: seq<TemporalEvent>, maxSteps: nat, lim: Limits): set<string> {
    KeysOf(o, AllChoices(o, maxSteps, lim))
  }

  /** There are no more of them than the cap admits. */
  ghost predicate NothingLost(o: seq<TemporalEvent>, maxSteps: nat, lim: Limits, cap: nat) {
    |MinableKeys(o, maxSteps, lim)| <= cap
  }

  lemma MinableKeysHold(o: seq<TemporalEvent>, maxSteps: nat, lim: Limits, c: Choice)
    requires maxSteps >= 1 && Minable(o, c, maxSteps, lim)
    ensures Key(o, c) in MinableKeys(o, maxSteps, lim)
  {
    AllChoicesExact(o, maxSteps, lim, c);
    assert HasKey(o, AllChoices(o, maxSteps, lim), Key(o, c));
    KeysOfExact(o, AllChoices(o, maxSteps, lim), Key(o, c));
  }

  lemma MinableKeysOnly(o: seq<TemporalEvent>, maxSteps: nat, lim: Limits, key: string) returns (c: Choice)
    requires maxSteps >= 1 && key in MinableKeys(o, maxSteps, lim)
    ensures Minable(o, c, maxSteps, lim) && Key(o, c) == key
  {
    KeysOfExact(o, AllChoices(o, maxSteps, lim), key);
    c :| c in AllChoices(o, maxSteps, lim) && Key(o, c) == key;
    AllChoicesExact(o, maxSteps, lim, c);
  }

  lemma {:induction false} KeysOfBound(o: seq<TemporalEvent>, cs: seq<Choice>)
    ensures |KeysOf(o, cs)| <= |cs|
  {
    if cs != [] {
      KeysOfBound(o, cs[1..]);
    }
  }

  lemma {:induction false} KeysOfDistinct(o: seq<TemporalEvent>, cs: seq<Choice>)
    requires DistinctKeys(o, cs)
    ensures |KeysOf(o, cs)| == |cs|
  {
    if cs != [] {
      var rest := cs[1..];
      KeysOfDistinct(o, rest);
      KeysOfExact(o, rest, Key(o, cs[0]));
      forall c | c in rest ensures Key(o, c) != Key(o, cs[0]) {
        var i :| 0 <= i < |rest| && rest[i] == c;
        assert cs[i + 1] == c;
      }
    }
  }

  lemma MinedKeysWithin(o: seq<TemporalEvent>, maxSteps: nat, lim: Limits, cap: nat)
    requires maxSteps >= 1
    ensures KeysOf(o, MinedChoices(o, maxSteps, lim, cap)) <= MinableKeys(o, maxSteps, lim)
    ensures |KeysOf(o, MinedChoices(o, maxSteps, lim, cap))| == |MinedChoices(o, maxSteps, lim, cap)| <= cap
  {
    var mined := MinedChoices(o, maxSteps, lim, cap);
    MinedChoicesExact(o, maxSteps, lim, cap);
    KeysOfDistinct(o, mined);
    forall key | key in KeysOf(o, mined) ensures key in MinableKeys(o, maxSteps, lim) {
      KeysOfExact(o, mined, key);
      var c :| c in mined && Key(o, c) == key;
      MinableKeysHold(o, maxSteps, lim, c);
    }
  }

  ghost predicate AllMined(o: seq<TemporalEvent>, maxSteps: nat, lim: Limits, cap: nat)
    requires maxSteps >= 1
  {
    forall c :: Minable(o, c, maxSteps, lim) ==> HasKey(o, MinedChoices(o, maxSteps, lim, cap), Key(o, c))
  }

  lemma EnoughRoom(o: seq<TemporalEvent>, maxSteps: nat, lim: Limits, cap: nat)
    requires maxSteps >= 1 && NothingLost(o, maxSteps, lim, cap)
    ensures AllMined(o, maxSteps, lim, cap)
  {
    var mined := MinedChoices(o, maxSteps, lim, cap);
    MinedKeysWithin(o, maxSteps, lim, cap);
    forall c | Minable(o, c, maxSteps, lim) ensures HasKey(o, mined, Key(o, c)) {
      if |mined| < cap {
        MinedComplete(o, maxSteps, lim, cap, c);
      } else {
        SubsetSize(KeysOf(o, mined), MinableKeys(o, maxSteps, lim));
        MinableKeysHold(o, maxSteps, lim, c);
        KeysOfExact(o, mined, Key(o, c));
      }
    }
  }

  /** The miner loses no key if and only if there are no more keys than the cap. */
  lemma NothingLostIff(o: seq<TemporalEvent>, maxSteps: nat, lim: Limits, cap: nat)
    requires maxSteps >= 1
    ensures AllMined(o, maxSteps, lim, cap) <==> NothingLost(o, maxSteps, lim, cap)
  {
    if NothingLost(o, maxSteps, lim, cap) {
      EnoughRoom(o, maxSteps, lim, cap);
    }
    if AllMined(o, maxSteps, lim, cap) {
      var mined := MinedChoices(o, maxSteps, lim, cap);
      MinedKeysWithin(o, maxSteps, lim, cap);
      forall key | key in MinableKeys(o, maxSteps, lim) ensures key in KeysOf(o, mined) {
        var c := MinableKeysOnly(o, maxSteps, lim, key);
        KeysOfExact(o, mined, key);
      }
      SubsetSize(MinableKeys(o, maxSteps, lim), KeysOf(o, mined));
    }
  }

  // ---------- How many choices there are ----------

  /** How many non-empty choices of at most `k` out of `n` events there are. */
  function ChoiceCount(n: nat, k: nat): nat {
    if n == 0 || k == 0 then 0 else 1 + ChoiceCount(n - 1, k - 1) + ChoiceCount(n - 1, k)
  }

  function Binomial(n: nat, k: nat): nat {
    if k == 0 then 1 else if n == 0 then 0 else Binomial(n - 1, k - 1) + Binomial(n - 1, k)
  }

  function BinomialSum(n: nat, k: nat): nat {
    if k == 0 then 0 else BinomialSum(n, k - 1) + Binomial(n, k)
  }

  lemma {:induction false} BinomialSumStep(n: nat, k: nat)
    requires n > 0 && k > 0
    ensures BinomialSum(n, k) == 1 + BinomialSum(n - 1, k - 1) + BinomialSum(n - 1, k)
  {
    if k > 1 {
      BinomialSumStep(n, k - 1);
    } else {
      assert Binomial(n, 1) == Binomial(n - 1, 0) + Binomial(n - 1, 1);
      assert BinomialSum(n, 0) == 0 && BinomialSum(n - 1, 0) == 0;
    }
  }

  /** That is the sum of the binomial coefficients of `n` over 1, 2, ..., `k`. */
  lemma {:induction false} ChoiceCountIsBinomial(n: nat, k: nat)
    ensures ChoiceCount(n, k) == BinomialSum(n, k)
  {
    if k > 0 {
      if n == 0 {
        ChoiceCountIsBinomial(0, k - 1);
      } else {
        ChoiceCountIsBinomial(n - 1, k - 1);
        ChoiceCountIsBinomial(n - 1, k);
        BinomialSumStep(n, k);
      }
    }
  }

  lemma {:induction false} ChoiceCountGrows(m: nat, n: nat, k: nat)
    requires m <= n
    ensures ChoiceCount(m, k) <= ChoiceCount(n, k)
    decreases n, k
  {
    if m > 0 && k > 0 {
      ChoiceCountGrows(m - 1, n - 1, k - 1);
      ChoiceCountGrows(m - 1, n - 1, k);
    }
  }

  /** At most this many choices start with `cur`, when `n` events follow and `k` more may be chosen, */
  lemma {:induction false} SubtreeBound(o: seq<TemporalEvent>, cur: Choice, maxSteps: nat, lim: Limits, n: nat, k: nat)
    requires cur != [] && Increasing(o, cur) && |cur| + k == maxSteps && cur[|cur| - 1] + 1 + n == |o|
    ensures |Subtree(o, cur, maxSteps, lim)| <= 1 + ChoiceCount(n, k)
    decreases n, 1
  {
    if k > 0 {
      ChildrenBound(o, cur, cur[|cur| - 1] + 1, maxSteps, lim, n, k);
    }
  }

  /** and extend it from index `i` on. */
  lemma {:induction false} ChildrenBound(o: seq<TemporalEvent>, cur: Choice, i: nat, maxSteps: nat, lim: Limits,
                                         n: nat, k: nat)
    requires Increasing(o, cur) && (cur != [] ==> cur[|cur| - 1] < i)
    requires i + n == |o| && |cur| + k == maxSteps && k > 0
    ensures |Children(o, cur, i, maxSteps, lim)| <= ChoiceCount(n, k)
    decreases n, 0
  {
    if n > 0 {
      var next: nat := i + 1;
      ChildrenBound(o, cur, next, maxSteps, lim, n - 1, k);
      if Fits(o, cur, i, lim) {
        SubtreeBound(o, cur + [i], maxSteps, lim, n - 1, k - 1);
      }
    }
  }

  /** Too few events for the cap: nothing is lost whatever the events are. */
  lemma FewEventsLoseNothing(o: seq<TemporalEvent>, maxSteps: nat, lim: Limits, cap: nat)
    requires maxSteps >= 1 && ChoiceCount(|o|, maxSteps) <= cap
    ensures NothingLost(o, maxSteps, lim, cap)
  {
    ChildrenBound(o, [], 0, maxSteps, lim, |o|, maxSteps);
    KeysOfBound(o, AllChoices(o, maxSteps, lim));
  }
}
