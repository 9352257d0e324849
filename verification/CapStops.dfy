/** When the autonomy loop stops by itself: exactly when a cap in force is reached at the end of a tick. */
module CapStops {
  import opened Collections
  import RealArithmetic
  import opened SpendLedger
  import opened Autonomy

  // ---------- Reached caps ----------

  const DAY: int := 86_400_000
  const THIRTY_DAYS: int := 2_592_000_000

  /** A positive limit that the total of the period, a day or thirty days, has come up to. */
  predicate Reached(cfg: Config, entries: seq<SpendEntry>, now: int, cap: Cap) {
    match cap
    case DailyUsd => 0.0 < cfg.dailyBudgetUsd <= TotalSince(entries, now - DAY, Usd)
    case MonthlyUsd => 0.0 < cfg.monthlyBudgetUsd <= TotalSince(entries, now - THIRTY_DAYS, Usd)
    case DailyCycles =>
      0 < cfg.maxThalamusCyclesPerDay && cfg.maxThalamusCyclesPerDay as real <= TotalSince(entries, now - DAY, Cycles)
  }

  ghost predicate AnyReached(cfg: Config, entries: seq<SpendEntry>, now: int) {
    exists cap :: Reached(cfg, entries, now, cap)
  }

  /** The first one in the order daily money, monthly money, daily cycles. */
  predicate FirstReached(cfg: Config, entries: seq<SpendEntry>, now: int, cap: Cap) {
    && Reached(cfg, entries, now, cap)
    && (cap != DailyUsd ==> !Reached(cfg, entries, now, DailyUsd))
    && (cap == DailyCycles ==> !Reached(cfg, entries, now, MonthlyUsd))
  }

  function ReasonOf(cap: Cap): StopReason {
    match cap
    case DailyUsd => DailyBudgetExhausted
    case MonthlyUsd => MonthlyBudgetExhausted
    case DailyCycles => MaxThalamusCyclesPerDay
  }

  // ---------- Totals ----------

  function NotBefore(from: int): SpendEntry -> bool {
    (e: SpendEntry) => from <= e.at
  }

  function Amounts(entries: seq<SpendEntry>, m: Measure): seq<real> {
    seq(|entries|, i requires 0 <= i < |entries| => match m case Usd => entries[i].usd
                                                            case Cycles => entries[i].cycles as real)
  }

  lemma AmountsSnoc(entries: seq<SpendEntry>, last: SpendEntry, m: Measure)
    ensures RealArithmetic.Total(Amounts(entries + [last], m)) ==
            RealArithmetic.Total(Amounts(entries, m)) + Amount(last, m)
  {
    assert Amounts(entries + [last], m)[..|entries|] == Amounts(entries, m);
  }

  /** A total is the sum over the entries that are not before its start. */
  lemma {:induction false} TotalSinceIsSum(entries: seq<SpendEntry>, since: int, m: Measure)
    ensures TotalSince(entries, since, m) == RealArithmetic.Total(Amounts(Filter(entries, NotBefore(since)), m))
  {
    if entries != [] {
      var n := |entries| - 1;
      TotalSinceIsSum(entries[..n], since, m);
      FilterSnoc(entries, n, NotBefore(since));
      assert entries[..n + 1] == entries;
      AmountsSnoc(Filter(entries[..n], NotBefore(since)), entries[n], m);
      if entries[n].at < since {
        assert Filter(entries, NotBefore(since)) == Filter(entries[..n], NotBefore(since));
      }
    }
  }

  /** The end of a tick adds its cost, when a `thalamus` action succeeded, and one cycle for every `thalamus` action. */
  lemma TickAdds(s: State, k: nat, cost: real, failed: bool, period: int)
    requires k < |s.ticks| && s.ticks[k].AwaitsAction? && 0 <= period <= THIRTY_DAYS
    ensures var t, action := TickDone(s, k, cost, failed), s.ticks[k].action;
            && TotalSince(t.entries, s.now - period, Usd) ==
               TotalSince(s.entries, s.now - period, Usd) + (if action == Thalamus && !failed then cost else 0.0)
            && TotalSince(t.entries, s.now - period, Cycles) ==
               TotalSince(s.entries, s.now - period, Cycles) + (if action == Thalamus then 1.0 else 0.0)
  {
    var entry := EntryOf(TickOf(s.ticks[k].action, cost, failed), s.now);
    TickDoneFields(s, k, cost, failed);
    RecordAdds(s.entries, entry, period, Usd);
    RecordAdds(s.entries, entry, period, Cycles);
  }

  // ---------- One tick ----------

  lemma ReachedIsExhausted(cfg: Config, entries: seq<SpendEntry>, now: int, cap: Cap)
    ensures Reached(cfg, entries, now, cap) <==> Exhausted(cfg, entries, now, cap)
  {
  }

  lemma EvaluationIsFirst(cfg: Config, entries: seq<SpendEntry>, now: int, cap: Cap)
    ensures EvaluateCaps(cfg, entries, now) == Some(ReasonOf(cap)) <==> FirstReached(cfg, entries, now, cap)
    ensures EvaluateCaps(cfg, entries, now).Some? <==> AnyReached(cfg, entries, now)
    ensures EvaluateCaps(cfg, entries, now) != Some(StoppedByOperator)
  {
    forall c ensures Reached(cfg, entries, now, c) <==> Exhausted(cfg, entries, now, c) {
      ReachedIsExhausted(cfg, entries, now, c);
    }
  }

  /** The end of a tick stops a running loop if and only if its configuration says so and some cap is reached, and then
      for the first cap that is; otherwise the loop runs on with its timer as it was. */
  lemma TickStopsIff(s: State, k: nat, cost: real, failed: bool, cap: Cap)
    requires s.running && s.stoppedReason == None && k < |s.ticks| && s.ticks[k].AwaitsAction?
    ensures var t, cfg := TickDone(s, k, cost, failed), s.ticks[k].cfg;
            && (!t.running <==> cfg.stopOnBudgetExhausted && AnyReached(cfg, t.entries, s.now))
            && (t.stoppedReason == Some(ReasonOf(cap)) <==>
                cfg.stopOnBudgetExhausted && FirstReached(cfg, t.entries, s.now, cap))
            && (t.running ==> t.stoppedReason == None && t.timer == s.timer)
            && (!t.running ==> t.stoppedReason != None && !t.timer)
  {
    var r := Recorded(s, TickOf(s.ticks[k].action, cost, failed));
    TickDoneFields(s, k, cost, failed);
    EvaluationIsFirst(s.ticks[k].cfg, r.entries, s.now, cap);
  }

  // ---------- Whole runs ----------

  /** In this run, action `n` is a tick that ended with `cap` as the first cap reached, and stopped the running loop. */
  ghost predicate StoppedAt(actions: seq<Action>, n: nat, cap: Cap) {
    && n < |actions| && actions[n].DoTickDone? && Enabled(After(actions[..n]), actions[n])
    && var s := After(actions[..n]);
       var cfg, t := s.ticks[actions[n].k].cfg, Apply(s, actions[n]);
       s.running && !t.running && cfg.stopOnBudgetExhausted && FirstReached(cfg, t.entries, s.now, cap)
  }

  lemma StoppedAtPrefix(actions: seq<Action>, m: nat, n: nat, cap: Cap)
    requires m <= |actions| && StoppedAt(actions[..m], n, cap)
    ensures StoppedAt(actions, n, cap)
  {
    assert actions[..m][..n] == actions[..n];
  }

  /** While a tick is in flight, a loop that does not run has a reason not to. */
  ghost predicate HasReason(s: State) {
    Bookkeeping(s) && (!s.running && s.ticks != [] ==> s.stoppedReason != None)
  }

  lemma StepKeepsReason(s: State, a: Action)
    requires HasReason(s) && Enabled(s, a)
    ensures HasReason(Apply(s, a))
  {
    StepKeepsBookkeeping(s, a);
  }

  lemma {:induction false} ReachableHasReason(actions: seq<Action>)
    ensures HasReason(After(actions))
  {
    if actions != [] {
      var init, a := actions[..|actions| - 1], actions[|actions| - 1];
      ReachableHasReason(init);
      if Enabled(After(init), a) {
        StepKeepsReason(After(init), a);
      }
    } else {
      assert INITIAL.history == Newest([], 40);
    }
  }

  /** Only the end of a tick of a running loop gives a cap as reason. */
  lemma ReasonIsGiven(s: State, a: Action, cap: Cap)
    requires HasReason(s) && Enabled(s, a)
    requires s.stoppedReason != Some(ReasonOf(cap)) && Apply(s, a).stoppedReason == Some(ReasonOf(cap))
    ensures a.DoTickDone? && s.running && s.stoppedReason == None
  {
    if a.DoTickDone? && s.stoppedReason != None {
      FirstReasonIsKept(s, a);
    }
  }

  /** Whoever stopped the loop: a cap among the reasons was reached at the end of a tick of the running loop. */
  lemma {:induction false} CapReasonIsReached(actions: seq<Action>, cap: Cap) returns (n: nat)
    requires After(actions).stoppedReason == Some(ReasonOf(cap))
    ensures StoppedAt(actions, n, cap)
  {
    var m := |actions| - 1;
    var init, a := actions[..m], actions[m];
    var s := After(init);
    if s.stoppedReason == Some(ReasonOf(cap)) {
      n := CapReasonIsReached(init, cap);
      StoppedAtPrefix(actions, m, n, cap);
    } else {
      n := m;
      ReachableHasReason(init);
      ReasonIsGiven(s, a, cap);
      TickStopsIff(s, a.k, a.cost, a.failed, cap);
    }
  }

  /** A tick that ends here would stop the loop. */
  ghost predicate WouldStop(s: State, a: Action) {
    a.DoTickDone? && Enabled(s, a)
    && s.ticks[a.k].cfg.stopOnBudgetExhausted && AnyReached(s.ticks[a.k].cfg, Apply(s, a).entries, s.now)
  }

  lemma StepRunsOn(s: State, a: Action)
    requires s.running && s.stoppedReason == None && Enabled(s, a) && !a.DoStop? && !WouldStop(s, a)
    ensures Apply(s, a).running
  {
    if a.DoTickDone? {
      TickStopsIff(s, a.k, a.cost, a.failed, DailyUsd);
    }
  }

  lemma LastStepRunsOn(actions: seq<Action>, m: nat)
    requires m + 1 == |actions| && After(actions[..m]).running
    requires !actions[m].DoStop? && !WouldStop(After(actions[..m]), actions[m])
    ensures After(actions).running
  {
    OneTickAtATime(actions[..m]);
    if Enabled(After(actions[..m]), actions[m]) {
      StepRunsOn(After(actions[..m]), actions[m]);
    }
  }

  ghost predicate NothingStops(actions: seq<Action>, from: nat) {
    forall i :: from <= i < |actions| ==> !actions[i].DoStop? && !WouldStop(After(actions[..i]), actions[i])
  }

  lemma NothingStopsFront(actions: seq<Action>, from: nat, m: nat)
    requires NothingStops(actions, from) && from <= m < |actions|
    ensures NothingStops(actions[..m], from) && !actions[m].DoStop? && !WouldStop(After(actions[..m]), actions[m])
  {
    forall i | from <= i < m ensures !actions[..m][i].DoStop? && !WouldStop(After(actions[..m][..i]), actions[..m][i]) {
      assert actions[..m][..i] == actions[..i];
    }
  }

  /** A running loop runs on as long as nobody stops it and no tick ends with a cap reached that its configuration
      enforces. */
  lemma {:induction false} RunsOn(earlier: seq<Action>, actions: seq<Action>)
    requires earlier <= actions && After(earlier).running
    requires NothingStops(actions, |earlier|)
    ensures After(actions).running
    decreases |actions|
  {
    if |earlier| < |actions| {
      var m := |actions| - 1;
      var init := actions[..m];
      NothingStopsFront(actions, |earlier|, m);
      RunsOn(earlier, init);
      LastStepRunsOn(actions, m);
    } else {
      assert earlier == actions;
    }
  }
}
