/** The autonomy loop: starts, stops, timer fires and ticks that await their configuration and their action. Every
    piece of code between two awaits is one atomic step. */
module Autonomy {
  import opened Collections
  import RealArithmetic
  import opened SpendLedger

  datatype ActionKind = Thalamus | SweepNullscan | FishSwarm

  datatype StopReason = StoppedByOperator | DailyBudgetExhausted | MonthlyBudgetExhausted | MaxThalamusCyclesPerDay

  /** An unknown rotation entry is `None`. A limit of zero or less is no limit. */
  datatype Config = Config(
    intervalSec: int,
    rotation: seq<Option<ActionKind>>,
    dailyBudgetUsd: real,
    monthlyBudgetUsd: real,
    maxThalamusCyclesPerDay: int,
    stopOnBudgetExhausted: bool)

  datatype Tick = Tick(action: ActionKind, costUsd: real, failed: bool)

  /** A tick that is waiting for its configuration, or for its action under a configuration. */
  datatype InFlight = AwaitsConfig | AwaitsAction(cfg: Config, action: ActionKind)

  /** `startsWaiting` counts calls of `start` that wait for their configuration; `ticks` lists the ticks in flight.
      `now`, `startTimes` and `log` record the clock, when starts completed, and all completed ticks, oldest first. */
  datatype State = State(
    running: bool,
    busy: bool,
    timer: bool,
    intervalMs: int,
    rotationIdx: nat,
    tickCount: nat,
    history: seq<Tick>,
    stoppedReason: Option<StopReason>,
    entries: seq<SpendEntry>,
    startsWaiting: nat,
    ticks: seq<InFlight>,
    now: int,
    startTimes: seq<int>,
    log: seq<Tick>)

  const INITIAL := State(false, false, false, 45000, 0, 0, [], None, [], 0, [], 0, [], [])

  // ---------- The pieces of code ----------

  function Clamp(sec: int): int {
    if sec < 15 then 15 else if sec > 600 then 600 else sec
  }

  function Known(rotation: seq<Option<ActionKind>>): seq<ActionKind> {
    if rotation == [] then []
    else if rotation[0].Some? then [rotation[0].value] + Known(rotation[1..])
    else Known(rotation[1..])
  }

  function NormalizeRotation(rotation: seq<Option<ActionKind>>): (r: seq<ActionKind>)
    ensures r != []
  {
    if Known(rotation) != [] then Known(rotation) else [Thalamus]
  }

  /** The action of the tick with number `idx`. */
  function ActionAt(rotation: seq<Option<ActionKind>>, idx: nat): ActionKind {
    var known := NormalizeRotation(rotation);
    known[idx % |known|]
  }

  /** The interval is the number from 15 to 600 nearest to the one asked for. */
  lemma ClampIsNearest(sec: int, other: int)
    requires 15 <= other <= 600
    ensures 15 <= Clamp(sec) <= 600
    ensures (if sec < Clamp(sec) then Clamp(sec) - sec else sec - Clamp(sec)) <=
            (if sec < other then other - sec else sec - other)
  {
  }

  function IsKnown(): Option<ActionKind> -> bool {
    (a: Option<ActionKind>) => a != None
  }

  /** Normalizing drops the unknown entries and keeps the others in their order, repetitions included; a rotation with
      nothing left does `thalamus`. */
  lemma {:induction false} NormalizedInOrder(rotation: seq<Option<ActionKind>>)
    ensures seq(|Known(rotation)|, i requires 0 <= i < |Known(rotation)| => Some(Known(rotation)[i])) ==
            Filter(rotation, IsKnown())
    ensures NormalizeRotation(rotation) == if Filter(rotation, IsKnown()) == [] then [Thalamus] else Known(rotation)
  {
    if rotation != [] {
      NormalizedInOrder(rotation[1..]);
    }
  }

  function Schedule(s: State): State {
    s.(timer := true)
  }

  function Stop(s: State, reason: StopReason): State {
    s.(timer := false, running := false,
       stoppedReason := if s.stoppedReason == None then Some(reason) else s.stoppedReason)
  }

  /** `tick()` up to its first await. */
  function TickCall(s: State): State {
    if s.busy || !s.running then s else s.(busy := true, ticks := s.ticks + [AwaitsConfig])
  }

  /** `start()` up to its await. */
  function StartCall(s: State): State {
    if s.running then s else s.(startsWaiting := s.startsWaiting + 1)
  }

  function Started(s: State, sec: int): State
    requires s.startsWaiting > 0
  {
    s.(startsWaiting := s.startsWaiting - 1, intervalMs := Clamp(sec) * 1000, running := true, stoppedReason := None,
       startTimes := s.startTimes + [s.now])
  }

  /** The rest of `start()`: arms the timer and ticks at once. */
  function StartResume(s: State, sec: int): State
    requires s.startsWaiting > 0
  {
    TickCall(Schedule(Started(s, sec)))
  }

  /** The configuration `start()` waits for could not be read. */
  function StartAbandoned(s: State): State
    requires s.startsWaiting > 0
  {
    s.(startsWaiting := s.startsWaiting - 1)
  }

  function Without(ticks: seq<InFlight>, k: nat): seq<InFlight>
    requires k < |ticks|
  {
    ticks[..k] + ticks[k + 1..]
  }

  /** The configuration arrived: reschedules on a new interval, even after a stop, and picks the next action. */
  function TickConfigured(s: State, k: nat, cfg: Config): State
    requires k < |s.ticks| && s.ticks[k].AwaitsConfig?
  {
    var wanted := Clamp(cfg.intervalSec) * 1000;
    var t := if wanted != s.intervalMs then Schedule(s.(intervalMs := wanted)) else s;
    var next := AwaitsAction(cfg, ActionAt(cfg.rotation, t.rotationIdx));
    t.(rotationIdx := t.rotationIdx + 1, ticks := t.ticks[k := next])
  }

  /** The configuration could not be read. */
  function TickAbandoned(s: State, k: nat): State
    requires k < |s.ticks| && s.ticks[k].AwaitsConfig?
  {
    s.(busy := false, ticks := Without(s.ticks, k))
  }

  datatype Cap = DailyUsd | MonthlyUsd | DailyCycles

  function Period(cap: Cap): int {
    if cap == MonthlyUsd then MONTH_MS else DAY_MS
  }

  function MeasureOf(cap: Cap): Measure {
    if cap == DailyCycles then Cycles else Usd
  }

  /** How much of a cap is used up. */
  function Level(entries: seq<SpendEntry>, now: int, cap: Cap): real {
    TotalSince(entries, now - Period(cap), MeasureOf(cap))
  }

  function Limit(cfg: Config, cap: Cap): real {
    match cap
    case DailyUsd => cfg.dailyBudgetUsd
    case MonthlyUsd => cfg.monthlyBudgetUsd
    case DailyCycles => cfg.maxThalamusCyclesPerDay as real
  }

  predicate Exhausted(cfg: Config, entries: seq<SpendEntry>, now: int, cap: Cap) {
    Limit(cfg, cap) > 0.0 && Level(entries, now, cap) >= Limit(cfg, cap)
  }

  function EvaluateCaps(cfg: Config, entries: seq<SpendEntry>, now: int): Option<StopReason> {
    if Exhausted(cfg, entries, now, DailyUsd) then Some(DailyBudgetExhausted)
    else if Exhausted(cfg, entries, now, MonthlyUsd) then Some(MonthlyBudgetExhausted)
    else if Exhausted(cfg, entries, now, DailyCycles) then Some(MaxThalamusCyclesPerDay)
    else None
  }

  function PushTick(history: seq<Tick>, tick: Tick): seq<Tick> {
    var all := [tick] + history;
    if |all| > 40 then all[..|all| - 1] else all
  }

  function TickOf(action: ActionKind, cost: real, failed: bool): Tick {
    Tick(action, if action == Thalamus && !failed then cost else 0.0, failed)
  }

  function CyclesOf(action: ActionKind): nat {
    if action == Thalamus then 1 else 0
  }

  /** The loop after a tick's caps are evaluated. */
  function Capped(s: State, cfg: Config): State {
    var reason := EvaluateCaps(cfg, s.entries, s.now);
    if reason.Some? && cfg.stopOnBudgetExhausted then Stop(s, reason.value) else s
  }

  function EntryOf(tick: Tick, now: int): SpendEntry {
    SpendEntry(now, tick.costUsd, CyclesOf(tick.action))
  }

  function Recorded(s: State, tick: Tick): State {
    s.(entries := Record(s.entries, EntryOf(tick, s.now)), history := PushTick(s.history, tick),
       tickCount := s.tickCount + 1, log := s.log + [tick])
  }

  /** The action ended: records the spend, the history and the count, and stops on an exhausted cap. Only a successful
      `thalamus` action costs something. */
  function TickDone(s: State, k: nat, cost: real, failed: bool): State
    requires k < |s.ticks| && s.ticks[k].AwaitsAction?
  {
    var cfg, action := s.ticks[k].cfg, s.ticks[k].action;
    Capped(Recorded(s, TickOf(action, cost, failed)), cfg).(busy := false, ticks := Without(s.ticks, k))
  }

  // ---------- Runs ----------

  datatype Action = DoStartCall | DoStartResume(sec: int) | DoStartAbandoned | DoStop | DoTimerFire
                  | DoTickConfigured(k: nat, cfg: Config) | DoTickAbandoned(k: nat)
                  | DoTickDone(k: nat, cost: real, failed: bool) | DoResetSpend | DoPass(ms: nat)

  predicate Enabled(s: State, a: Action) {
    match a
    case DoStartCall => true
    case DoStartResume(_) => s.startsWaiting > 0
    case DoStartAbandoned => s.startsWaiting > 0
    case DoStop => true
    case DoTimerFire => s.timer
    case DoTickConfigured(k, _) => k < |s.ticks| && s.ticks[k].AwaitsConfig?
    case DoTickAbandoned(k) => k < |s.ticks| && s.ticks[k].AwaitsConfig?
    case DoTickDone(k, _, _) => k < |s.ticks| && s.ticks[k].AwaitsAction?
    case DoResetSpend => true
    case DoPass(_) => true
  }

  function Apply(s: State, a: Action): State
    requires Enabled(s, a)
  {
    match a
    case DoStartCall => StartCall(s)
    case DoStartResume(sec) => StartResume(s, sec)
    case DoStartAbandoned => StartAbandoned(s)
    case DoStop => Stop(s, StoppedByOperator)
    case DoTimerFire => TickCall(s)
    case DoTickConfigured(k, cfg) => TickConfigured(s, k, cfg)
    case DoTickAbandoned(k) => TickAbandoned(s, k)
    case DoTickDone(k, cost, failed) => TickDone(s, k, cost, failed)
    case DoResetSpend => s.(entries := [])
    case DoPass(ms) => s.(now := s.now + ms)
  }

  /** The state after any interleaving; an action that is not enabled does not happen. */
  function After(actions: seq<Action>): State {
    if actions == [] then INITIAL
    else
      var s := After(actions[..|actions| - 1]);
      var a := actions[|actions| - 1];
      if Enabled(s, a) then Apply(s, a) else s
  }

  // ---------- One tick at a time, newest forty ----------

  /** The last `n` ticks of the log, newest first. */
  function Newest(log: seq<Tick>, n: nat): (r: seq<Tick>)
    ensures |r| == if |log| < n then |log| else n
  {
    if log == [] || n == 0 then [] else [log[|log| - 1]] + Newest(log[..|log| - 1], n - 1)
  }

  /** Asking for one tick more than needed and dropping the oldest gives the newest `n`. */
  lemma {:induction false} NewestDrop(log: seq<Tick>, n: nat)
    ensures Newest(log, n) == if |log| <= n then Newest(log, n + 1) else Newest(log, n + 1)[..n]
  {
    if n > 0 && log != [] {
      var front := log[..|log| - 1];
      NewestDrop(front, n - 1);
      assert Newest(log, n + 1) == [log[|log| - 1]] + Newest(front, n);
    }
  }

  lemma PushKeepsNewest(log: seq<Tick>, tick: Tick)
    ensures PushTick(Newest(log, 40), tick) == Newest(log + [tick], 40)
  {
    var all := [tick] + Newest(log, 40);
    assert (log + [tick])[..|log|] == log;
    assert Newest(log + [tick], 41) == all;
    NewestDrop(log + [tick], 40);
  }

  ghost predicate Bookkeeping(s: State) {
    && |s.ticks| == (if s.busy then 1 else 0)
    && s.tickCount == |s.log|
    && s.history == Newest(s.log, 40)
    && (s.running ==> s.timer && s.stoppedReason == None)
    && 15000 <= s.intervalMs <= 600000
  }

  lemma TickDoneKeepsBookkeeping(s: State, k: nat, cost: real, failed: bool)
    requires Bookkeeping(s) && k < |s.ticks| && s.ticks[k].AwaitsAction?
    ensures Bookkeeping(TickDone(s, k, cost, failed))
  {
    PushKeepsNewest(s.log, TickOf(s.ticks[k].action, cost, failed));
  }

  lemma StepKeepsBookkeeping(s: State, a: Action)
    requires Bookkeeping(s) && Enabled(s, a)
    ensures Bookkeeping(Apply(s, a))
  {
    if a.DoTickDone? {
      TickDoneKeepsBookkeeping(s, a.k, a.cost, a.failed);
    }
  }

  /** Under any interleaving at most one tick is in flight, exactly when `busy` is set; the tick count is the number of
      completed ticks and the history holds the newest forty of them, newest first; a running loop has its timer armed
      and no stop reason; the interval stays between fifteen seconds and ten minutes. */
  lemma {:induction false} OneTickAtATime(actions: seq<Action>)
    ensures Bookkeeping(After(actions))
  {
    if actions != [] {
      OneTickAtATime(actions[..|actions| - 1]);
      var s := After(actions[..|actions| - 1]);
      if Enabled(s, actions[|actions| - 1]) {
        StepKeepsBookkeeping(s, actions[|actions| - 1]);
      }
    }
  }

  /** The first reason to stop is kept until the loop is started again, whatever else happens meanwhile. */
  lemma FirstReasonIsKept(s: State, a: Action)
    requires Enabled(s, a) && s.stoppedReason.Some? && !a.DoStartResume?
    ensures Apply(s, a).stoppedReason == s.stoppedReason
  {
  }

  /** A timer fire begins one tick if the loop runs and none is in flight, and otherwise does nothing; a start that
      resumes begins one unless one is in flight. */
  lemma TicksBegin(s: State, sec: int)
    requires Bookkeeping(s) && s.timer && s.startsWaiting > 0
    ensures s.running && s.ticks == [] ==> Apply(s, DoTimerFire).ticks == [AwaitsConfig]
    ensures !s.running || s.ticks != [] ==> Apply(s, DoTimerFire) == s
    ensures StartResume(s, sec).ticks == if s.ticks == [] then [AwaitsConfig] else s.ticks
    ensures StartResume(s, sec).running && StartResume(s, sec).timer
  {
  }

  // ---------- The rotation ----------

  lemma {:induction false} KnownMembers(rotation: seq<Option<ActionKind>>, a: ActionKind)
    ensures a in Known(rotation) <==> Some(a) in rotation
  {
    if rotation != [] {
      KnownMembers(rotation[1..], a);
    }
  }

  lemma NextMultiple(p: nat, q: nat, n: nat)
    requires p < q
    ensures p * n + n <= q * n
  {
    assert (q - p - 1) * n >= 0;
    assert q * n == p * n + n + (q - p - 1) * n;
  }

  lemma RemainderUnique(q: nat, n: nat, r: nat)
    requires r < n
    ensures (q * n + r) % n == r
  {
    var x := q * n + r;
    var q' := x / n;
    assert x == q' * n + x % n;
    if q' < q {
      NextMultiple(q', q, n);
    } else if q < q' {
      NextMultiple(q, q', n);
    }
  }

  /** Any `n` consecutive numbers hit every residue. */
  lemma ResidueIsHit(idx: nat, n: nat, k: nat) returns (j: nat)
    requires k < n
    ensures idx <= j < idx + n && j % n == k
  {
    var q, r := idx / n, idx % n;
    assert idx == q * n + r;
    if r <= k {
      j := q * n + k;
      RemainderUnique(q, n, k);
    } else {
      j := (q + 1) * n + k;
      assert j == q * n + n + k;
      RemainderUnique(q + 1, n, k);
    }
  }

  /** The actions the ticks of a run were given when their configuration arrived, oldest first. */
  function Chosen(actions: seq<Action>): seq<ActionKind> {
    if actions == [] then []
    else
      var init, a := actions[..|actions| - 1], actions[|actions| - 1];
      var s := After(init);
      if a.DoTickConfigured? && Enabled(s, a) then Chosen(init) + [Apply(s, a).ticks[a.k].action] else Chosen(init)
  }

  ghost predicate OneRotation(actions: seq<Action>, rotation: seq<Option<ActionKind>>) {
    forall i :: 0 <= i < |actions| && actions[i].DoTickConfigured? ==> actions[i].cfg.rotation == rotation
  }

  lemma {:induction false} ChosenInTurn(actions: seq<Action>, rotation: seq<Option<ActionKind>>)
    requires OneRotation(actions, rotation)
    ensures |Chosen(actions)| == After(actions).rotationIdx
    ensures forall k :: 0 <= k < |Chosen(actions)| ==> Chosen(actions)[k] == ActionAt(rotation, k)
  {
    if actions != [] {
      var init, a := actions[..|actions| - 1], actions[|actions| - 1];
      ChosenInTurn(init, rotation);
      if Enabled(After(init), a) {
        StepCountsConfigured(After(init), a);
        assert a.DoTickConfigured? ==> a.cfg.rotation == rotation;
      }
    }
  }

  /** The rotation index counts the configured ticks and picks their actions. */
  lemma StepCountsConfigured(s: State, a: Action)
    requires Enabled(s, a)
    ensures Apply(s, a).rotationIdx == s.rotationIdx + if a.DoTickConfigured? then 1 else 0
    ensures a.DoTickConfigured? ==>
              Apply(s, a).ticks[a.k] == AwaitsAction(a.cfg, ActionAt(a.cfg.rotation, s.rotationIdx))
  {
  }

  /** In every run whose configurations share one rotation of `n` known actions, any `n` consecutive ticks include
      every one of them, and no tick does anything else; with no known action every tick does the fallback. */
  lemma RotationIsFair(actions: seq<Action>, rotation: seq<Option<ActionKind>>, from: nat, to: nat, a: ActionKind)
    requires OneRotation(actions, rotation)
    requires to == from + |NormalizeRotation(rotation)| && to <= |Chosen(actions)|
    ensures Some(a) in rotation ==> a in Chosen(actions)[from..to]
    ensures a in Chosen(actions) ==> Some(a) in rotation || (a == Thalamus && Known(rotation) == [])
  {
    KnownMembers(rotation, a);
    ChosenInTurn(actions, rotation);
    var known := NormalizeRotation(rotation);
    if Some(a) in rotation {
      var k :| 0 <= k < |known| && known[k] == a;
      var j := ResidueIsHit(from, |known|, k);
      assert Chosen(actions)[from..to][j - from] == Chosen(actions)[j] == a;
    }
    if a in Chosen(actions) {
      var k :| 0 <= k < |Chosen(actions)| && Chosen(actions)[k] == a;
      assert a == ActionAt(rotation, k) && a in known;
    }
  }

  // ---------- The caps bound the spend ----------

  /** The cap is in force, with a limit of at most `limit`, in every configuration; a tick uses up at most `step`. */
  ghost predicate Bounded(a: Action, cap: Cap, limit: real, step: real) {
    match a
    case DoTickConfigured(_, cfg) => Stopping(cfg, cap, limit)
    case DoTickDone(_, cost, _) => if cap == DailyCycles then step >= 1.0 else 0.0 <= cost <= step
    case _ => true
  }

  ghost predicate Stopping(cfg: Config, cap: Cap, limit: real) {
    cfg.stopOnBudgetExhausted && 0.0 < Limit(cfg, cap) <= limit
  }

  function Allowance(limit: real, step: real, starts: nat): real {
    limit + step * starts as real
  }

  function Used(s: State, cap: Cap): real {
    Level(s.entries, s.now, cap)
  }

  lemma AllowanceStep(limit: real, step: real, starts: nat, next: nat)
    requires step >= 0.0 && next == starts + 1
    ensures Allowance(limit, step, next) == Allowance(limit, step, starts) + step
    ensures limit <= Allowance(limit, step, starts) <= Allowance(limit, step, next)
  {
    assert step * next as real == step * starts as real + step;
    RealArithmetic.MulLe(0.0, starts as real, step);
    assert starts as real * step == step * starts as real;
  }

  /** What keeps the bound: a loop that may still tick has one tick's share in reserve. */
  ghost predicate SpendInvariant(s: State, cap: Cap, limit: real, step: real) {
    && Bookkeeping(s)
    && NonNegative(s.entries, MeasureOf(cap))
    && (forall k :: 0 <= k < |s.ticks| && s.ticks[k].AwaitsAction? ==> Stopping(s.ticks[k].cfg, cap, limit))
    && (s.running || s.busy ==> |s.startTimes| >= 1 && Used(s, cap) < Allowance(limit, step, |s.startTimes| - 1))
    && Used(s, cap) < Allowance(limit, step, |s.startTimes|)
  }

  lemma RecordNonNegative(entries: seq<SpendEntry>, entry: SpendEntry, m: Measure)
    requires NonNegative(entries, m) && Amount(entry, m) >= 0.0
    ensures NonNegative(Record(entries, entry), m)
  {
    var all := entries + [entry];
    assert forall e :: e in all ==> e in entries || e == entry;
  }

  /** A loop still running after its caps were evaluated has none of them exhausted. */
  lemma CappedStaysBelow(s: State, cfg: Config, cap: Cap, limit: real)
    requires Stopping(cfg, cap, limit)
    ensures Capped(s, cfg).running ==> Used(s, cap) < limit
    ensures Capped(s, cfg) == s.(running := Capped(s, cfg).running, timer := Capped(s, cfg).timer,
                                 stoppedReason := Capped(s, cfg).stoppedReason)
  {
  }

  /** A tick uses up at most its share of the cap. */
  lemma TickShare(action: ActionKind, cost: real, failed: bool, now: int, cap: Cap, step: real)
    requires step >= 0.0 && if cap == DailyCycles then step >= 1.0 else 0.0 <= cost <= step
    ensures 0.0 <= Amount(EntryOf(TickOf(action, cost, failed), now), MeasureOf(cap)) <= step
  {
  }

  lemma RecordedUses(s: State, tick: Tick, cap: Cap)
    ensures Used(Recorded(s, tick), cap) == Used(s, cap) + Amount(EntryOf(tick, s.now), MeasureOf(cap))
  {
    var period, entry := Period(cap), EntryOf(tick, s.now);
    assert 0 <= period <= MONTH_MS;
    RecordAdds(s.entries, entry, period, MeasureOf(cap));
    assert Recorded(s, tick).entries == Record(s.entries, entry) && Recorded(s, tick).now == entry.at;
  }

  /** What the end of a tick leaves untouched. */
  lemma TickDoneFields(s: State, k: nat, cost: real, failed: bool)
    requires k < |s.ticks| && s.ticks[k].AwaitsAction?
    ensures var t, r := TickDone(s, k, cost, failed), Recorded(s, TickOf(s.ticks[k].action, cost, failed));
            && t.entries == r.entries && t.now == s.now && t.startTimes == s.startTimes && !t.busy
            && t.running == Capped(r, s.ticks[k].cfg).running
  {
  }

  lemma TickDoneKeepsSpend(s: State, k: nat, cost: real, failed: bool, cap: Cap, limit: real, step: real)
    requires step >= 0.0 && SpendInvariant(s, cap, limit, step)
    requires k < |s.ticks| && s.ticks[k].AwaitsAction? && Bounded(DoTickDone(k, cost, failed), cap, limit, step)
    ensures SpendInvariant(TickDone(s, k, cost, failed), cap, limit, step)
  {
    var cfg, action := s.ticks[k].cfg, s.ticks[k].action;
    var tick := TickOf(action, cost, failed);
    var t, r := TickDone(s, k, cost, failed), Recorded(s, tick);
    TickDoneFields(s, k, cost, failed);
    TickDoneKeepsBookkeeping(s, k, cost, failed);
    TickShare(action, cost, failed, s.now, cap, step);
    RecordNonNegative(s.entries, EntryOf(tick, s.now), MeasureOf(cap));
    RecordedUses(s, tick, cap);
    assert Used(t, cap) == Used(r, cap);
    AllowanceStep(limit, step, |s.startTimes| - 1, |s.startTimes|);
    CappedStaysBelow(r, cfg, cap, limit);
  }

  lemma StartKeepsSpend(s: State, sec: int, cap: Cap, limit: real, step: real)
    requires step >= 0.0 && SpendInvariant(s, cap, limit, step) && s.startsWaiting > 0
    ensures SpendInvariant(StartResume(s, sec), cap, limit, step)
  {
    StepKeepsBookkeeping(s, DoStartResume(sec));
    AllowanceStep(limit, step, |s.startTimes|, |s.startTimes| + 1);
  }

  lemma PassKeepsSpend(s: State, ms: nat, cap: Cap, limit: real, step: real)
    requires SpendInvariant(s, cap, limit, step)
    ensures SpendInvariant(s.(now := s.now + ms), cap, limit, step)
  {
    TotalSinceAntitone(s.entries, s.now - Period(cap), s.now + ms - Period(cap), MeasureOf(cap));
  }

  lemma StepKeepsSpend(s: State, a: Action, cap: Cap, limit: real, step: real)
    requires step >= 0.0 && limit > 0.0 && SpendInvariant(s, cap, limit, step)
    requires Enabled(s, a) && Bounded(a, cap, limit, step)
    ensures SpendInvariant(Apply(s, a), cap, limit, step)
  {
    match a
    case DoStartResume(sec) => StartKeepsSpend(s, sec, cap, limit, step);
    case DoTickDone(k, cost, failed) => TickDoneKeepsSpend(s, k, cost, failed, cap, limit, step);
    case DoPass(ms) => PassKeepsSpend(s, ms, cap, limit, step);
    case DoResetSpend => ResetKeepsSpend(s, cap, limit, step);
    case _ => StepKeepsBookkeeping(s, a);
  }

  lemma ResetKeepsSpend(s: State, cap: Cap, limit: real, step: real)
    requires step >= 0.0 && limit > 0.0 && SpendInvariant(s, cap, limit, step)
    ensures SpendInvariant(s.(entries := []), cap, limit, step)
  {
    AllowanceStep(limit, step, |s.startTimes|, |s.startTimes| + 1);
    if |s.startTimes| >= 1 {
      AllowanceStep(limit, step, |s.startTimes| - 1, |s.startTimes|);
    }
  }

  lemma {:induction false} ReachableSpend(actions: seq<Action>, cap: Cap, limit: real, step: real)
    requires step >= 0.0 && limit > 0.0
    requires forall i :: 0 <= i < |actions| ==> Bounded(actions[i], cap, limit, step)
    ensures SpendInvariant(After(actions), cap, limit, step)
  {
    if actions != [] {
      ReachableSpend(actions[..|actions| - 1], cap, limit, step);
      var s := After(actions[..|actions| - 1]);
      if Enabled(s, actions[|actions| - 1]) {
        StepKeepsSpend(s, actions[|actions| - 1], cap, limit, step);
      }
    } else {
      assert INITIAL.history == Newest([], 40);
      assert step * 0 as real == 0.0;
    }
  }

  /** Each of the three caps, whatever the interleaving of starts, stops, timer fires, resets and the passing of days:
      what is used up stays below the limit plus one tick's share for every start; while the loop runs, plus one
      tick's share for every start but one. */
  lemma {:induction false} SpendIsBounded(actions: seq<Action>, cap: Cap, limit: real, step: real)
    requires step >= 0.0 && limit > 0.0
    requires forall i :: 0 <= i < |actions| ==> Bounded(actions[i], cap, limit, step)
    ensures Used(After(actions), cap) < Allowance(limit, step, |After(actions).startTimes|)
    ensures After(actions).running ==>
              |After(actions).startTimes| >= 1
              && Used(After(actions), cap) < Allowance(limit, step, |After(actions).startTimes| - 1)
  {
    ReachableSpend(actions, cap, limit, step);
  }

  // ---------- Stops and the timer ----------

  lemma StoppedStep(s: State, a: Action)
    requires !s.running && Enabled(s, a) && !a.DoStartResume?
    ensures !Apply(s, a).running && Apply(s, a).tickCount + |Apply(s, a).ticks| <= s.tickCount + |s.ticks|
  {
  }

  /** Once the loop is stopped, and until a start resumes, no tick begins, even if a timer still fires: only the one in
      flight can complete. */
  lemma {:induction false} StoppedLoopWindsDown(earlier: seq<Action>, actions: seq<Action>)
    requires earlier <= actions && !After(earlier).running
    requires forall i :: |earlier| <= i < |actions| ==> !actions[i].DoStartResume?
    ensures !After(actions).running
    ensures After(actions).tickCount + |After(actions).ticks| <= After(earlier).tickCount + |After(earlier).ticks|
    ensures After(actions).tickCount <= After(earlier).tickCount + 1
    decreases |actions|
  {
    OneTickAtATime(earlier);
    if |earlier| < |actions| {
      StoppedLoopWindsDown(earlier, actions[..|actions| - 1]);
      var s := After(actions[..|actions| - 1]);
      if Enabled(s, actions[|actions| - 1]) {
        StoppedStep(s, actions[|actions| - 1]);
      }
    } else {
      assert earlier == actions;
    }
  }

  /** Starts ask for one of the intervals `starts`, and configurations that arrive carry one of `configured`. */
  ghost predicate UsesIntervals(actions: seq<Action>, starts: set<int>, configured: set<int>) {
    forall i :: 0 <= i < |actions| ==> UsesInterval(actions[i], starts, configured)
  }

  predicate UsesInterval(a: Action, starts: set<int>, configured: set<int>) {
    (a.DoStartResume? ==> a.sec in starts) && (a.DoTickConfigured? ==> a.cfg.intervalSec in configured)
  }

  ghost predicate SameInterval(starts: set<int>, configured: set<int>) {
    forall i, j :: i in starts && j in configured ==> Clamp(i) == Clamp(j)
  }

  /** While a tick may still be configured, the interval is already the configured one. */
  ghost predicate Settled(s: State, configured: set<int>) {
    && (s.running <==> s.timer)
    && forall j :: j in configured && (s.running || s.ticks != []) ==> s.intervalMs == Clamp(j) * 1000
  }

  lemma StepKeepsSettled(s: State, a: Action, starts: set<int>, configured: set<int>)
    requires SameInterval(starts, configured) && UsesInterval(a, starts, configured)
    requires Settled(s, configured) && Enabled(s, a)
    ensures Settled(Apply(s, a), configured)
  {
    if a.DoTickDone? {
      var cfg, action := s.ticks[a.k].cfg, s.ticks[a.k].action;
      TickDoneStops(s, a.k, a.cost, a.failed);
    }
  }

  /** The end of a tick stops the loop or leaves its timer and interval alone. */
  lemma TickDoneStops(s: State, k: nat, cost: real, failed: bool)
    requires k < |s.ticks| && s.ticks[k].AwaitsAction?
    ensures var t := TickDone(s, k, cost, failed);
            && ((!t.running && !t.timer) || (t.running == s.running && t.timer == s.timer))
            && t.intervalMs == s.intervalMs && (t.running ==> s.running)
  {
  }

  lemma {:induction false} ReachableSettled(actions: seq<Action>, starts: set<int>, configured: set<int>)
    requires SameInterval(starts, configured) && UsesIntervals(actions, starts, configured)
    ensures Settled(After(actions), configured)
  {
    if actions != [] {
      var init, a := actions[..|actions| - 1], actions[|actions| - 1];
      ReachableSettled(init, starts, configured);
      if Enabled(After(init), a) {
        StepKeepsSettled(After(init), a, starts, configured);
      }
    }
  }

  lemma AfterSnoc(actions: seq<Action>, a: Action)
    ensures After(actions + [a]) == if Enabled(After(actions), a) then Apply(After(actions), a) else After(actions)
  {
    assert (actions + [a])[..|actions|] == actions;
  }

  /** A start, its first tick, a stop and then the tick's configuration with another interval. */
  lemma ConfiguredAfterStop(s: State, sec: int, cfg: Config)
    requires s.startsWaiting > 0 && !s.running && s.ticks == [] && !s.busy && Clamp(cfg.intervalSec) != Clamp(sec)
    ensures var stopped := Stop(StartResume(s, sec), StoppedByOperator);
            && stopped.ticks == [AwaitsConfig] && !stopped.timer
            && TickConfigured(stopped, 0, cfg).timer && !TickConfigured(stopped, 0, cfg).running
  {
    assert StartResume(s, sec).intervalMs == Clamp(sec) * 1000;
  }

  /** A tick that was waiting for its configuration reschedules after the stop. */
  lemma TimerOutlivesStop(sec: int, cfg: Config, starts: set<int>, configured: set<int>) returns (actions: seq<Action>)
    requires sec in starts && cfg.intervalSec in configured && Clamp(sec) != Clamp(cfg.intervalSec)
    ensures UsesIntervals(actions, starts, configured) && !After(actions).running && After(actions).timer
  {
    var a1: seq<Action> := [DoStartCall];
    var a2 := a1 + [DoStartResume(sec)];
    var a3 := a2 + [DoStop];
    actions := a3 + [DoTickConfigured(0, cfg)];
    AfterSnoc([], DoStartCall);
    assert [] + [DoStartCall] == a1;
    AfterSnoc(a1, DoStartResume(sec));
    AfterSnoc(a2, DoStop);
    AfterSnoc(a3, DoTickConfigured(0, cfg));
    ConfiguredAfterStop(Apply(INITIAL, DoStartCall), sec, cfg);
  }

  /** In every reachable state the timer is armed exactly while the loop runs, if and only if every interval a start
      asks for and every configured interval come to the same one after clamping. */
  lemma StoppedIsUnarmedIff(starts: set<int>, configured: set<int>)
    ensures (forall actions :: UsesIntervals(actions, starts, configured) ==>
               (After(actions).running <==> After(actions).timer))
       <==> SameInterval(starts, configured)
  {
    if SameInterval(starts, configured) {
      forall actions | UsesIntervals(actions, starts, configured)
        ensures After(actions).running <==> After(actions).timer
      {
        ReachableSettled(actions, starts, configured);
      }
    } else {
      var i, j :| i in starts && j in configured && Clamp(i) != Clamp(j);
      var actions := TimerOutlivesStop(i, Config(j, [], 0.0, 0.0, 0, false), starts, configured);
    }
  }

  // ---------- The service ----------

  class AutonomyService {
    const ledger: Ledger
    var running: bool
    var busy: bool
    var timer: bool
    var intervalMs: int
    var rotationIdx: nat
    var tickCount: nat
    var history: seq<Tick>
    var stoppedReason: Option<StopReason>
    var startsWaiting: nat
    var ticks: seq<InFlight>
    ghost var now: int
    ghost var startTimes: seq<int>
    ghost var log: seq<Tick>

    ghost function Current(): State
      reads this, ledger
    {
      State(running, busy, timer, intervalMs, rotationIdx, tickCount, history, stoppedReason, ledger.entries,
            startsWaiting, ticks, now, startTimes, log)
    }

    constructor ()
      ensures fresh(ledger) && Current() == INITIAL
    {
      ledger := new Ledger();
      running, busy, timer, intervalMs := false, false, false, 45000;
      rotationIdx, tickCount, history, stoppedReason := 0, 0, [], None;
      startsWaiting, ticks := 0, [];
      now, startTimes, log := 0, [], [];
    }

    method StopLoop(reason: StopReason)
      modifies this
      ensures Current() == Stop(old(Current()), reason)
    {
      timer := false;
      running := false;
      if stoppedReason == None {
        stoppedReason := Some(reason);
      }
    }

    /** Returns true when the caller goes on to await its configuration. */
    method BeginStart() returns (proceeds: bool)
      modifies this
      ensures Current() == StartCall(old(Current())) && proceeds == !old(running)
    {
      proceeds := !running;
      if proceeds {
        startsWaiting := startsWaiting + 1;
      }
    }

    method FinishStart(sec: int)
      requires startsWaiting > 0
      modifies this
      ensures Current() == StartResume(old(Current()), sec)
    {
      ghost var before := Current();
      startsWaiting, startTimes := startsWaiting - 1, startTimes + [now];
      intervalMs := Clamp(sec) * 1000;
      running := true;
      stoppedReason := None;
      timer := true;
      assert Current() == Schedule(Started(before, sec));
      BeginTick();
    }

    method BeginTick()
      modifies this
      ensures Current() == TickCall(old(Current()))
    {
      if busy || !running {
        return;
      }
      busy := true;
      ticks := ticks + [AwaitsConfig];
    }

    method ConfigureTick(k: nat, cfg: Config)
      requires k < |ticks| && ticks[k].AwaitsConfig?
      modifies this
      ensures Current() == TickConfigured(old(Current()), k, cfg)
    {
      var wanted := Clamp(cfg.intervalSec) * 1000;
      if wanted != intervalMs {
        intervalMs := wanted;
        timer := true;
      }
      var rotation := NormalizeRotation(cfg.rotation);
      var action := rotation[rotationIdx % |rotation|];
      rotationIdx := rotationIdx + 1;
      ticks := ticks[k := AwaitsAction(cfg, action)];
    }

    method CheckCaps(cfg: Config, at: int) returns (reason: Option<StopReason>)
      ensures reason == EvaluateCaps(cfg, ledger.entries, at)
    {
      var daily := ledger.SumUsd(at - DAY_MS);
      if cfg.dailyBudgetUsd > 0.0 && daily >= cfg.dailyBudgetUsd {
        return Some(DailyBudgetExhausted);
      }
      var monthly := ledger.SumUsd(at - MONTH_MS);
      if cfg.monthlyBudgetUsd > 0.0 && monthly >= cfg.monthlyBudgetUsd {
        return Some(MonthlyBudgetExhausted);
      }
      var cycles := ledger.SumCycles(at - DAY_MS);
      if cfg.maxThalamusCyclesPerDay > 0 && cycles >= cfg.maxThalamusCyclesPerDay {
        return Some(MaxThalamusCyclesPerDay);
      }
      return None;
    }

    /** The books of one completed tick. */
    method RecordTick(tick: Tick, at: int)
      requires at == now
      modifies this, ledger
      ensures Current() == Recorded(old(Current()), tick)
    {
      ledger.RecordSpend(tick.costUsd, if tick.action == Thalamus then 1 else 0, at);
      history := [tick] + history;
      if |history| > 40 {
        history := history[..|history| - 1];
      }
      tickCount := tickCount + 1;
      log := log + [tick];
    }

    method FinishTick(k: nat, cost: real, failed: bool, at: int)
      requires k < |ticks| && ticks[k].AwaitsAction? && at == now
      modifies this, ledger
      ensures Current() == TickDone(old(Current()), k, cost, failed)
    {
      var cfg, action := ticks[k].cfg, ticks[k].action;
      ghost var before := Current();
      var costUsd := 0.0;
      if action == Thalamus && !failed {
        costUsd := cost;
      }
      RecordTick(Tick(action, costUsd, failed), at);
      var reason := CheckCaps(cfg, at);
      if reason.Some? && cfg.stopOnBudgetExhausted {
        StopLoop(reason.value);
      }
      assert Current() == Capped(Recorded(before, TickOf(action, cost, failed)), cfg);
      busy := false;
      ticks := Without(ticks, k);
    }

    method ResetSpend()
      modifies ledger
      ensures Current() == old(Current()).(entries := [])
    {
      ledger.Reset();
    }
  }
}
