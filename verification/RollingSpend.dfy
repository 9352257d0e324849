/** The caps are about rolling periods, and so is what they guarantee: only starts within the period count. */
module RollingSpend {
  import opened SpendLedger
  import opened Autonomy

  /** How many of the starts happened at `since` or later. */
  function StartsSince(startTimes: seq<int>, since: int): nat {
    if startTimes == [] then 0
    else StartsSince(startTimes[..|startTimes| - 1], since) + if startTimes[|startTimes| - 1] >= since then 1 else 0
  }

  lemma StartsSinceSnoc(startTimes: seq<int>, t: int, since: int)
    ensures StartsSince(startTimes + [t], since) == StartsSince(startTimes, since) + if t >= since then 1 else 0
  {
    assert (startTimes + [t])[..|startTimes|] == startTimes;
  }

  ghost predicate EntriesPast(entries: seq<SpendEntry>, now: int) {
    forall e :: e in entries ==> e.at <= now
  }

  lemma {:induction false} NothingInFuture(entries: seq<SpendEntry>, now: int, since: int, m: Measure)
    requires EntriesPast(entries, now) && since > now
    ensures TotalSince(entries, since, m) == 0.0
  {
    if entries != [] {
      assert entries[|entries| - 1] in entries;
      NothingInFuture(entries[..|entries| - 1], now, since, m);
    }
  }

  lemma RecordPast(entries: seq<SpendEntry>, entry: SpendEntry, now: int)
    requires EntriesPast(entries, now) && entry.at == now
    ensures EntriesPast(Record(entries, entry), now)
  {
    var all := entries + [entry];
    assert forall e :: e in all ==> e in entries || e == entry;
  }

  /** What was used up from `since` on, and the reserve of a loop that may still tick. */
  ghost predicate Covered(s: State, cap: Cap, limit: real, step: real, since: int) {
    var used, starts := TotalSince(s.entries, since, MeasureOf(cap)), StartsSince(s.startTimes, since);
    && used < Allowance(limit, step, starts + 1)
    && (s.running || s.busy ==> used < Allowance(limit, step, starts))
  }

  /** The same for every moment of the period, so that it still holds when the period has moved on. */
  ghost predicate RollingInvariant(s: State, cap: Cap, limit: real, step: real) {
    && SpendInvariant(s, cap, limit, step) && EntriesPast(s.entries, s.now)
    && forall since :: since >= s.now - Period(cap) ==> Covered(s, cap, limit, step, since)
  }

  lemma AllowanceBasics(limit: real, step: real, starts: nat)
    requires step >= 0.0
    ensures limit <= Allowance(limit, step, starts) <= Allowance(limit, step, starts + 1)
    ensures Allowance(limit, step, starts + 1) == Allowance(limit, step, starts) + step
  {
    AllowanceStep(limit, step, starts, starts + 1);
  }

  /** Nothing was used from `since` on. */
  lemma NothingUsed(s: State, cap: Cap, limit: real, step: real, since: int)
    requires step >= 0.0 && limit > 0.0 && TotalSince(s.entries, since, MeasureOf(cap)) == 0.0
    ensures Covered(s, cap, limit, step, since)
  {
    AllowanceBasics(limit, step, StartsSince(s.startTimes, since));
  }

  lemma StartCovers(s: State, sec: int, cap: Cap, limit: real, step: real, since: int)
    requires step >= 0.0 && limit > 0.0 && s.startsWaiting > 0 && EntriesPast(s.entries, s.now)
    requires Covered(s, cap, limit, step, since)
    ensures Covered(StartResume(s, sec), cap, limit, step, since)
  {
    var t := StartResume(s, sec);
    assert t.entries == s.entries && t.startTimes == s.startTimes + [s.now];
    if since > s.now {
      NothingInFuture(s.entries, s.now, since, MeasureOf(cap));
      NothingUsed(t, cap, limit, step, since);
    } else {
      StartsSinceSnoc(s.startTimes, s.now, since);
      AllowanceBasics(limit, step, StartsSince(t.startTimes, since));
    }
  }

  /** The end of a tick adds its amount to every total of the period. */
  lemma TickDoneUses(s: State, k: nat, cost: real, failed: bool, m: Measure, since: int)
    requires k < |s.ticks| && s.ticks[k].AwaitsAction? && s.now - MONTH_MS <= since <= s.now
    ensures var entry := EntryOf(TickOf(s.ticks[k].action, cost, failed), s.now);
            TotalSince(TickDone(s, k, cost, failed).entries, since, m) ==
            TotalSince(s.entries, since, m) + Amount(entry, m)
  {
    var entry, period := EntryOf(TickOf(s.ticks[k].action, cost, failed), s.now), s.now - since;
    TickDoneFields(s, k, cost, failed);
    RecordAdds(s.entries, entry, period, m);
    assert since == entry.at - period;
  }

  /** A loop that goes on after a tick has what its cap leaves. */
  lemma TickDoneReserve(s: State, k: nat, cost: real, failed: bool, cap: Cap, limit: real, since: int)
    requires k < |s.ticks| && s.ticks[k].AwaitsAction? && Stopping(s.ticks[k].cfg, cap, limit)
    requires NonNegative(TickDone(s, k, cost, failed).entries, MeasureOf(cap)) && since >= s.now - Period(cap)
    ensures TickDone(s, k, cost, failed).running ==>
              TotalSince(TickDone(s, k, cost, failed).entries, since, MeasureOf(cap)) < limit
  {
    var t, r := TickDone(s, k, cost, failed), Recorded(s, TickOf(s.ticks[k].action, cost, failed));
    TickDoneFields(s, k, cost, failed);
    CappedStaysBelow(r, s.ticks[k].cfg, cap, limit);
    TotalSinceAntitone(t.entries, s.now - Period(cap), since, MeasureOf(cap));
  }

  lemma TickDoneCovers(s: State, k: nat, cost: real, failed: bool, cap: Cap, limit: real, step: real, since: int)
    requires step >= 0.0 && limit > 0.0 && s.busy && Covered(s, cap, limit, step, since)
    requires k < |s.ticks| && s.ticks[k].AwaitsAction? && Bounded(DoTickDone(k, cost, failed), cap, limit, step)
    requires Stopping(s.ticks[k].cfg, cap, limit)
    requires NonNegative(TickDone(s, k, cost, failed).entries, MeasureOf(cap))
    requires s.now - Period(cap) <= since <= s.now
    ensures Covered(TickDone(s, k, cost, failed), cap, limit, step, since)
  {
    TickDoneFields(s, k, cost, failed);
    TickShare(s.ticks[k].action, cost, failed, s.now, cap, step);
    TickDoneUses(s, k, cost, failed, MeasureOf(cap), since);
    TickDoneReserve(s, k, cost, failed, cap, limit, since);
    AllowanceBasics(limit, step, StartsSince(s.startTimes, since));
  }

  lemma TickDoneKeepsPast(s: State, k: nat, cost: real, failed: bool)
    requires EntriesPast(s.entries, s.now) && k < |s.ticks| && s.ticks[k].AwaitsAction?
    ensures EntriesPast(TickDone(s, k, cost, failed).entries, s.now) && TickDone(s, k, cost, failed).now == s.now
  {
    var tick := TickOf(s.ticks[k].action, cost, failed);
    TickDoneFields(s, k, cost, failed);
    RecordPast(s.entries, EntryOf(tick, s.now), s.now);
  }

  lemma TickDoneRolls(s: State, k: nat, cost: real, failed: bool, cap: Cap, limit: real, step: real)
    requires step >= 0.0 && limit > 0.0 && RollingInvariant(s, cap, limit, step)
    requires k < |s.ticks| && s.ticks[k].AwaitsAction? && Bounded(DoTickDone(k, cost, failed), cap, limit, step)
    ensures RollingInvariant(TickDone(s, k, cost, failed), cap, limit, step)
  {
    var t := TickDone(s, k, cost, failed);
    TickDoneKeepsSpend(s, k, cost, failed, cap, limit, step);
    TickDoneKeepsPast(s, k, cost, failed);
    forall since | since >= t.now - Period(cap) ensures Covered(t, cap, limit, step, since) {
      if since > t.now {
        NothingInFuture(t.entries, t.now, since, MeasureOf(cap));
        NothingUsed(t, cap, limit, step, since);
      } else {
        assert Covered(s, cap, limit, step, since);
        TickDoneCovers(s, k, cost, failed, cap, limit, step, since);
      }
    }
  }

  lemma ResetRolls(s: State, cap: Cap, limit: real, step: real)
    requires step >= 0.0 && limit > 0.0 && RollingInvariant(s, cap, limit, step)
    ensures RollingInvariant(s.(entries := []), cap, limit, step)
  {
    var t := s.(entries := []);
    ResetKeepsSpend(s, cap, limit, step);
    forall since | since >= t.now - Period(cap) ensures Covered(t, cap, limit, step, since) {
      NothingUsed(t, cap, limit, step, since);
    }
  }

  lemma StartRolls(s: State, sec: int, cap: Cap, limit: real, step: real)
    requires step >= 0.0 && limit > 0.0 && RollingInvariant(s, cap, limit, step) && s.startsWaiting > 0
    ensures RollingInvariant(StartResume(s, sec), cap, limit, step)
  {
    var t := StartResume(s, sec);
    StepKeepsSpend(s, DoStartResume(sec), cap, limit, step);
    assert t.entries == s.entries && t.now == s.now;
    forall since | since >= t.now - Period(cap) ensures Covered(t, cap, limit, step, since) {
      assert Covered(s, cap, limit, step, since);
      StartCovers(s, sec, cap, limit, step, since);
    }
  }

  /** All other steps use up nothing, count no start, and leave a loop that may tick only where there was one. */
  lemma QuietStepRolls(s: State, a: Action, cap: Cap, limit: real, step: real)
    requires step >= 0.0 && limit > 0.0 && RollingInvariant(s, cap, limit, step)
    requires Enabled(s, a) && Bounded(a, cap, limit, step)
    requires !a.DoTickDone? && !a.DoResetSpend? && !a.DoStartResume?
    ensures RollingInvariant(Apply(s, a), cap, limit, step)
  {
    var t := Apply(s, a);
    StepKeepsSpend(s, a, cap, limit, step);
    QuietFields(s, a);
    forall since | since >= t.now - Period(cap) ensures Covered(t, cap, limit, step, since) {
      assert Covered(s, cap, limit, step, since);
    }
  }

  lemma QuietFields(s: State, a: Action)
    requires Enabled(s, a) && !a.DoTickDone? && !a.DoResetSpend? && !a.DoStartResume?
    ensures Apply(s, a).entries == s.entries && Apply(s, a).startTimes == s.startTimes && Apply(s, a).now >= s.now
    ensures Apply(s, a).running || Apply(s, a).busy ==> s.running || s.busy
  {
  }

  lemma {:induction false} ReachableRolling(actions: seq<Action>, cap: Cap, limit: real, step: real)
    requires step >= 0.0 && limit > 0.0
    requires forall i :: 0 <= i < |actions| ==> Bounded(actions[i], cap, limit, step)
    ensures RollingInvariant(After(actions), cap, limit, step)
  {
    ReachableSpend(actions, cap, limit, step);
    if actions == [] {
      forall since | since >= INITIAL.now - Period(cap) ensures Covered(INITIAL, cap, limit, step, since) {
        NothingUsed(INITIAL, cap, limit, step, since);
      }
    } else {
      var init, a := actions[..|actions| - 1], actions[|actions| - 1];
      ReachableRolling(init, cap, limit, step);
      if Enabled(After(init), a) {
        StepRolls(After(init), a, cap, limit, step);
      }
    }
  }

  lemma StepRolls(s: State, a: Action, cap: Cap, limit: real, step: real)
    requires step >= 0.0 && limit > 0.0 && RollingInvariant(s, cap, limit, step)
    requires Enabled(s, a) && Bounded(a, cap, limit, step)
    ensures RollingInvariant(Apply(s, a), cap, limit, step)
  {
    match a
    case DoTickDone(k, cost, failed) => TickDoneRolls(s, k, cost, failed, cap, limit, step);
    case DoResetSpend => ResetRolls(s, cap, limit, step);
    case DoStartResume(sec) => StartRolls(s, sec, cap, limit, step);
    case _ => QuietStepRolls(s, a, cap, limit, step);
  }

  function RecentStarts(s: State, cap: Cap): nat {
    StartsSince(s.startTimes, s.now - Period(cap))
  }

  lemma CoveredNow(s: State, cap: Cap, limit: real, step: real)
    requires RollingInvariant(s, cap, limit, step)
    ensures Used(s, cap) < Allowance(limit, step, RecentStarts(s, cap) + 1)
    ensures s.running ==> Used(s, cap) < Allowance(limit, step, RecentStarts(s, cap))
  {
    assert Covered(s, cap, limit, step, s.now - Period(cap));
  }

  /** Each of the three caps, whatever the interleaving: what is used up within the period stays below the limit plus
      one tick's share for every start within the period, and one share more unless the loop runs. Starts that lie
      further back no longer count. */
  lemma {:induction false} SpendIsBoundedInPeriod(actions: seq<Action>, cap: Cap, limit: real, step: real)
    requires step >= 0.0 && limit > 0.0
    requires forall i :: 0 <= i < |actions| ==> Bounded(actions[i], cap, limit, step)
    ensures Used(After(actions), cap) < Allowance(limit, step, RecentStarts(After(actions), cap) + 1)
    ensures After(actions).running ==>
              Used(After(actions), cap) < Allowance(limit, step, RecentStarts(After(actions), cap))
  {
    ReachableRolling(actions, cap, limit, step);
    CoveredNow(After(actions), cap, limit, step);
  }
}
