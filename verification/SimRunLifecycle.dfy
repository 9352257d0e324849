/** The `sim_run` table shared by many clients: create, claim, guarded status update and abort, each one atomic step. */
module SimRunLifecycle {
  import opened Collections

  datatype Status = Pending | Running | Paused | Done | Failed | TimedOut

  datatype SwarmStatus = SwarmPending | SwarmRunning | SwarmDone | SwarmFailed

  datatype Run = Run(swarm: nat, fishIndex: int, status: Status, completedAt: Option<int>)

  /** `handedOut` records every id a claim returned, oldest first. */
  datatype Db = Db(swarms: map<nat, SwarmStatus>, rows: map<nat, Run>, nextId: nat, handedOut: seq<nat>)

  datatype UpdateError = NotFound | Conflict(current: Status, next: Status)

  // ---------- The status table ----------

  predicate IsLegalRunTransition(current: Status, next: Status) {
    if current == next then true
    else
      match current
      case Pending => next == Running || next == Failed
      case Running => next == Paused || next == Done || next == Failed || next == TimedOut
      case Paused => next == Running || next == Failed
      case Done => false
      case Failed => false
      case TimedOut => false
  }

  predicate Terminal(s: Status) {
    s == Done || s == Failed || s == TimedOut
  }

  // ---------- The atomic steps ----------

  predicate UniqueFish(rows: map<nat, Run>) {
    forall i, j ::
      i in rows && j in rows && rows[i].swarm == rows[j].swarm && rows[i].fishIndex == rows[j].fishIndex ==> i == j
  }

  predicate FishTaken(rows: map<nat, Run>, swarm: nat, fishIndex: int) {
    exists i :: i in rows && rows[i].swarm == swarm && rows[i].fishIndex == fishIndex
  }

  /** Insert, by default as pending; a missing swarm or a taken fish index is a constraint violation. */
  function Create(db: Db, swarm: nat, fishIndex: int, status: Option<Status>): Db {
    if swarm !in db.swarms || FishTaken(db.rows, swarm, fishIndex) then db
    else
      var initial := if status.Some? then status.value else Pending;
      db.(rows := db.rows[db.nextId := Run(swarm, fishIndex, initial, None)], nextId := db.nextId + 1)
  }

  function CreateSwarm(db: Db, swarm: nat): Db {
    if swarm in db.swarms then db else db.(swarms := db.swarms[swarm := SwarmPending])
  }

  /** The pending fish of a swarm whose rows no other transaction holds. */
  function Claimable(rows: map<nat, Run>, swarm: nat, locked: set<nat>): set<nat> {
    set i | i in rows && rows[i].swarm == swarm && rows[i].status == Pending && i !in locked
  }

  /** `ORDER BY fish_index LIMIT limit`: no claimable fish that was left out precedes a picked one. */
  ghost predicate IsPick(rows: map<nat, Run>, swarm: nat, limit: int, locked: set<nat>, picked: set<nat>) {
    var claimable := Claimable(rows, swarm, locked);
    && picked <= claimable
    && |picked| == (if limit < 1 then 0 else if limit <= |claimable| then limit else |claimable|)
    && forall i, j :: i in picked && j in claimable && j !in picked ==> FishOf(rows, i) <= FishOf(rows, j)
  }

  /** A fish of the swarm that waits and that no other transaction holds. */
  predicate Waits(rows: map<nat, Run>, swarm: nat, locked: set<nat>, id: nat) {
    id in rows && rows[id].swarm == swarm && rows[id].status == Pending && id !in locked
  }

  /** A pick takes waiting fish, at most as many as asked for, and leaves one out only when it is full and no fish it
      took has a greater index. */
  lemma PickMeaning(rows: map<nat, Run>, swarm: nat, limit: int, locked: set<nat>, picked: set<nat>)
    ensures IsPick(rows, swarm, limit, locked, picked) <==>
            && (forall i :: i in picked ==> Waits(rows, swarm, locked, i))
            && |picked| <= (if limit < 1 then 0 else limit)
            && forall j :: Waits(rows, swarm, locked, j) && j !in picked ==>
                 |picked| == (if limit < 1 then 0 else limit)
                 && forall i :: i in picked ==> FishOf(rows, i) <= rows[j].fishIndex
  {
    var claimable := Claimable(rows, swarm, locked);
    assert forall i :: i in claimable <==> Waits(rows, swarm, locked, i);
    if picked <= claimable {
      SubsetSize(picked, claimable);
      assert picked != claimable ==> exists j :: j in claimable && j !in picked;
    }
  }

  function FishOf(rows: map<nat, Run>, id: nat): int {
    if id in rows then rows[id].fishIndex else 0
  }

  function WithStatus(rows: map<nat, Run>, ids: set<nat>, status: Status): map<nat, Run> {
    map i | i in rows :: if i in ids then rows[i].(status := status) else rows[i]
  }

  /** The picked ids in some order. */
  ghost predicate Lists(order: seq<nat>, ids: set<nat>) {
    NoDuplicates(order) && forall i :: i in order <==> i in ids
  }

  function Claim(db: Db, order: seq<nat>): Db {
    db.(rows := WithStatus(db.rows, (set i | i in order), Running), handedOut := db.handedOut + order)
  }

  /** The completion time of a status update: a request may set or clear it; by default terminal statuses are
      stamped. */
  function CompletedAt(current: Option<int>, next: Status, requested: Option<Option<int>>, now: int): Option<int> {
    match requested
    case None => if Terminal(next) then Some(now) else current
    case Some(value) => value
  }

  function CheckUpdate(db: Db, id: nat, next: Status): Option<UpdateError> {
    if id !in db.rows then Some(NotFound)
    else if !IsLegalRunTransition(db.rows[id].status, next) then Some(Conflict(db.rows[id].status, next))
    else None
  }

  /** The guarded update: read, check, write, in one step. */
  function UpdateStatus(db: Db, id: nat, next: Status, requested: Option<Option<int>>, now: int): Db {
    if CheckUpdate(db, id, next).Some? then db
    else
      var row := db.rows[id];
      var stamp := CompletedAt(row.completedAt, next, requested, now);
      db.(rows := db.rows[id := row.(status := next, completedAt := stamp)])
  }

  predicate Open(r: Run, swarm: nat) {
    r.swarm == swarm && (r.status == Pending || r.status == Running)
  }

  /** Fails the swarm and its pending and running fish with one shared timestamp. */
  function Abort(db: Db, swarm: nat, now: int): Db {
    db.(swarms := if swarm in db.swarms then db.swarms[swarm := SwarmFailed] else db.swarms,
        rows := map i | i in db.rows ::
                  if Open(db.rows[i], swarm) then Closed(db.rows[i], now) else db.rows[i])
  }

  // ---------- Runs ----------

  datatype Action = DoCreateSwarm(swarm: nat) | DoCreate(swarm: nat, fishIndex: int, status: Option<Status>)
                  | DoClaim(swarm: nat, limit: int, locked: set<nat>, order: seq<nat>)
                  | DoUpdate(id: nat, next: Status, requested: Option<Option<int>>, now: int)
                  | DoAbort(swarm: nat, now: int)

  /** A claim may return any listing of an admissible pick; everything else is determined. */
  ghost predicate Enabled(db: Db, a: Action) {
    a.DoClaim? ==> exists picked :: IsPick(db.rows, a.swarm, a.limit, a.locked, picked) && Lists(a.order, picked)
  }

  function Apply(db: Db, a: Action): Db {
    match a
    case DoCreateSwarm(swarm) => CreateSwarm(db, swarm)
    case DoCreate(swarm, fishIndex, status) => Create(db, swarm, fishIndex, status)
    case DoClaim(_, _, _, order) => Claim(db, order)
    case DoUpdate(id, next, requested, now) => UpdateStatus(db, id, next, requested, now)
    case DoAbort(swarm, now) => Abort(db, swarm, now)
  }

  const EMPTY_DB := Db(map[], map[], 0, [])

  /** The table after a run. */
  function After(actions: seq<Action>): Db {
    if actions == [] then EMPTY_DB else Apply(After(actions[..|actions| - 1]), actions[|actions| - 1])
  }

  /** Any interleaving of the clients' steps. */
  ghost predicate IsRun(actions: seq<Action>) {
    actions == [] || (IsRun(actions[..|actions| - 1])
                      && Enabled(After(actions[..|actions| - 1]), actions[|actions| - 1]))
  }

  // ---------- One step ----------

  /** A step removes no row, keeps swarm and fish index, and changes a status only along the table. */
  ghost predicate LegalStep(db: Db, db': Db) {
    forall i :: i in db.rows ==>
      && i in db'.rows
      && db'.rows[i].swarm == db.rows[i].swarm && db'.rows[i].fishIndex == db.rows[i].fishIndex
      && IsLegalRunTransition(db.rows[i].status, db'.rows[i].status)
  }

  lemma ClaimedWerePending(db: Db, a: Action)
    requires Enabled(db, a) && a.DoClaim?
    ensures forall i :: i in a.order ==> i in db.rows && db.rows[i].status == Pending
    ensures NoDuplicates(a.order)
  {
    var picked :| IsPick(db.rows, a.swarm, a.limit, a.locked, picked) && Lists(a.order, picked);
    assert forall i :: i in a.order ==> i in picked && i in Claimable(db.rows, a.swarm, a.locked);
  }

  lemma EveryStepIsLegal(db: Db, a: Action)
    requires Enabled(db, a) && Invariant(db)
    ensures LegalStep(db, Apply(db, a))
  {
    if a.DoClaim? {
      ClaimedWerePending(db, a);
    }
  }

  ghost predicate Invariant(db: Db) {
    && UniqueFish(db.rows)
    && (forall i :: i in db.rows ==> i < db.nextId && db.rows[i].swarm in db.swarms)
    && NoDuplicates(db.handedOut)
    && (forall i :: i in db.handedOut ==> i in db.rows && db.rows[i].status != Pending)
  }

  lemma StepKeepsInvariant(db: Db, a: Action)
    requires Enabled(db, a) && Invariant(db)
    ensures Invariant(Apply(db, a))
  {
    match a
    case DoCreateSwarm(_) =>
    case DoCreate(_, _, _) =>
    case DoUpdate(id, next, _, _) =>
      EveryStepIsLegal(db, a);
    case DoAbort(_, _) =>
    case DoClaim(swarm, limit, locked, order) =>
      ClaimKeepsInvariant(db, swarm, limit, locked, order);
  }

  lemma ClaimKeepsInvariant(db: Db, swarm: nat, limit: int, locked: set<nat>, order: seq<nat>)
    requires Invariant(db) && Enabled(db, DoClaim(swarm, limit, locked, order))
    ensures Invariant(Claim(db, order))
  {
    ClaimedWerePending(db, DoClaim(swarm, limit, locked, order));
    var all := db.handedOut + order;
    forall i, j | 0 <= i < j < |all| ensures all[i] != all[j] {
      if i < |db.handedOut| <= j {
        assert all[i] in db.handedOut && all[j] in order;
      }
    }
  }

  // ---------- Whole runs ----------

  lemma {:induction false} ReachableInvariant(actions: seq<Action>)
    requires IsRun(actions)
    ensures Invariant(After(actions))
  {
    if actions != [] {
      ReachableInvariant(actions[..|actions| - 1]);
      StepKeepsInvariant(After(actions[..|actions| - 1]), actions[|actions| - 1]);
    }
  }

  /** The last step of a run is legal. */
  lemma LastStepIsLegal(actions: seq<Action>)
    requires IsRun(actions) && actions != []
    ensures LegalStep(After(actions[..|actions| - 1]), After(actions))
  {
    ReachableInvariant(actions[..|actions| - 1]);
    EveryStepIsLegal(After(actions[..|actions| - 1]), actions[|actions| - 1]);
  }

  /** A finished fish keeps its status through any continuation of the run. */
  lemma {:induction false} TerminalIsAbsorbing(earlier: seq<Action>, actions: seq<Action>, id: nat)
    requires IsRun(actions) && earlier <= actions
    requires id in After(earlier).rows && Terminal(After(earlier).rows[id].status)
    ensures id in After(actions).rows && After(actions).rows[id].status == After(earlier).rows[id].status
    decreases |actions|
  {
    if |earlier| < |actions| {
      TerminalIsAbsorbing(earlier, actions[..|actions| - 1], id);
      LastStepIsLegal(actions);
    } else {
      assert earlier == actions;
    }
  }

  /** No fish is ever pending again once it left that status. */
  lemma {:induction false} PendingIsInitial(earlier: seq<Action>, actions: seq<Action>, id: nat)
    requires IsRun(actions) && earlier <= actions
    requires id in After(earlier).rows && After(earlier).rows[id].status != Pending
    ensures id in After(actions).rows && After(actions).rows[id].status != Pending
    decreases |actions|
  {
    if |earlier| < |actions| {
      PendingIsInitial(earlier, actions[..|actions| - 1], id);
      LastStepIsLegal(actions);
    } else {
      assert earlier == actions;
    }
  }

  /** Under any interleaving, no fish is handed out twice, and what was handed out is no longer pending. */
  lemma NoFishIsClaimedTwice(actions: seq<Action>)
    requires IsRun(actions)
    ensures NoDuplicates(After(actions).handedOut)
    ensures forall i :: i in After(actions).handedOut ==>
              i in After(actions).rows && After(actions).rows[i].status != Pending
  {
    ReachableInvariant(actions);
  }

  /** In particular, two different claims of one run never return the same fish. */
  lemma ClaimsAreDisjoint(actions: seq<Action>, k: nat, id: nat)
    requires IsRun(actions) && k < |actions| - 1
    requires actions[k].DoClaim? && actions[|actions| - 1].DoClaim?
    ensures !(id in actions[k].order && id in actions[|actions| - 1].order)
  {
    var before, last := actions[..|actions| - 1], actions[|actions| - 1];
    ClaimedWerePending(After(before), last);
    if id in actions[k].order {
      var earlier := actions[..k + 1];
      RunPrefix(actions, k + 1);
      ReachableInvariant(earlier);
      assert earlier[..k] == actions[..k] && id in After(earlier).handedOut;
      assert earlier <= before;
      PendingIsInitial(earlier, before, id);
    }
  }

  lemma {:induction false} RunPrefix(actions: seq<Action>, n: nat)
    requires IsRun(actions) && n <= |actions|
    ensures IsRun(actions[..n])
    decreases |actions|
  {
    if n < |actions| {
      assert actions[..|actions| - 1][..n] == actions[..n];
      RunPrefix(actions[..|actions| - 1], n);
    } else {
      assert actions[..n] == actions;
    }
  }

  // ---------- The status table, step by step and over runs ----------

  /** The moves between different statuses. */
  const MOVES: set<(Status, Status)> :=
    {(Pending, Running), (Pending, Failed), (Running, Paused), (Running, Done), (Running, Failed), (Running, TimedOut),
     (Paused, Running), (Paused, Failed)}

  /** An update of a fish is accepted if and only if it keeps the status or makes one of the moves. Then the fish has
      the new status, and the completion time asked for or else a stamp when it finished; otherwise nothing changes. */
  lemma UpdateMovesIff(db: Db, id: nat, next: Status, requested: Option<Option<int>>, now: int)
    requires id in db.rows
    ensures var db' := UpdateStatus(db, id, next, requested, now);
            && id in db'.rows
            && (db.rows[id].status == next || (db.rows[id].status, next) in MOVES ==>
                  && CheckUpdate(db, id, next) == None
                  && db'.rows[id].status == next
                  && db'.rows[id].completedAt ==
                     (match requested
                      case Some(value) => value
                      case None => if next in {Done, Failed, TimedOut} then Some(now) else db.rows[id].completedAt))
            && (db.rows[id].status != next && (db.rows[id].status, next) !in MOVES ==>
                  db' == db && CheckUpdate(db, id, next) == Some(Conflict(db.rows[id].status, next)))
  {
  }

  /** At some point of the run the fish was running. */
  ghost predicate WasRunning(actions: seq<Action>, id: nat) {
    exists n :: 0 <= n <= |actions| && RunningAt(actions, n, id)
  }

  ghost predicate RunningAt(actions: seq<Action>, n: nat, id: nat)
    requires n <= |actions|
  {
    id in After(actions[..n]).rows && After(actions[..n]).rows[id].status == Running
  }

  /** The fish was inserted with this status. */
  ghost predicate InsertedAs(actions: seq<Action>, id: nat, status: Status) {
    exists n :: 0 <= n < |actions| && InsertedAt(actions, n, id, status)
  }

  ghost predicate InsertedAt(actions: seq<Action>, n: nat, id: nat, status: Status)
    requires n < |actions|
  {
    actions[n].DoCreate? && actions[n].status == Some(status) && After(actions[..n]).nextId == id
  }

  lemma HistoryGrows(actions: seq<Action>, m: nat, id: nat, status: Status)
    requires m <= |actions|
    ensures WasRunning(actions[..m], id) ==> WasRunning(actions, id)
    ensures InsertedAs(actions[..m], id, status) ==> InsertedAs(actions, id, status)
  {
    if WasRunning(actions[..m], id) {
      var n :| 0 <= n <= m && RunningAt(actions[..m], n, id);
      assert actions[..m][..n] == actions[..n];
      assert RunningAt(actions, n, id);
    }
    if InsertedAs(actions[..m], id, status) {
      var n :| 0 <= n < m && InsertedAt(actions[..m], n, id, status);
      assert actions[..m][..n] == actions[..n];
      assert InsertedAt(actions, n, id, status);
    }
  }

  /** A step makes a fish done or timed out only from running, unless it inserts it so. */
  lemma StepFinishes(db: Db, a: Action, id: nat)
    requires Enabled(db, a) && Invariant(db)
    requires id in Apply(db, a).rows
    requires Apply(db, a).rows[id].status == Done || Apply(db, a).rows[id].status == TimedOut
    ensures id in db.rows ==> db.rows[id].status in {Running, Apply(db, a).rows[id].status}
    ensures id !in db.rows ==> a.DoCreate? && a.status == Some(Apply(db, a).rows[id].status) && db.nextId == id
  {
    if id in db.rows {
      EveryStepIsLegal(db, a);
    }
  }

  /** A fish that is done, or timed out, was running before, or was inserted with that status. */
  lemma {:induction false} FinishedWasRunning(actions: seq<Action>, id: nat)
    requires IsRun(actions) && id in After(actions).rows
    requires After(actions).rows[id].status == Done || After(actions).rows[id].status == TimedOut
    ensures WasRunning(actions, id) || InsertedAs(actions, id, After(actions).rows[id].status)
  {
    if actions != [] {
      var m := |actions| - 1;
      var db, status := After(actions[..m]), After(actions).rows[id].status;
      ReachableInvariant(actions[..m]);
      StepFinishes(db, actions[m], id);
      HistoryGrows(actions, m, id, status);
      if id !in db.rows {
        assert InsertedAt(actions, m, id, status);
      } else if db.rows[id].status == Running {
        assert RunningAt(actions, m, id);
      } else {
        FinishedWasRunning(actions[..m], id);
      }
    }
  }

  // ---------- Completion stamps ----------

  /** A request that gives a completion time at all gives one exactly for a status that finishes the fish. */
  predicate ConsistentStamp(next: Status, requested: Option<Option<int>>) {
    requested.Some? ==> (requested.value.Some? <==> Terminal(next))
  }

  /** All requests are consistent in this sense, and no run is inserted that has already finished. */
  predicate ConsistentStamps(a: Action) {
    && (a.DoUpdate? ==> ConsistentStamp(a.next, a.requested))
    && (a.DoCreate? && a.status.Some? ==> !Terminal(a.status.value))
  }

  ghost predicate StampedWhenTerminal(db: Db) {
    forall i :: i in db.rows ==> (db.rows[i].completedAt.Some? <==> Terminal(db.rows[i].status))
  }

  lemma StepKeepsStamps(db: Db, a: Action)
    requires Invariant(db) && Enabled(db, a) && ConsistentStamps(a) && StampedWhenTerminal(db)
    ensures StampedWhenTerminal(Apply(db, a))
  {
    if a.DoClaim? {
      ClaimedWerePending(db, a);
    }
  }

  /** An accepted update keeps the stamps right exactly when its request is consistent. */
  lemma UpdateKeepsStampsIff(db: Db, id: nat, next: Status, requested: Option<Option<int>>, now: int)
    requires StampedWhenTerminal(db) && CheckUpdate(db, id, next).None?
    ensures StampedWhenTerminal(UpdateStatus(db, id, next, requested, now)) <==> ConsistentStamp(next, requested)
  {
    var db' := UpdateStatus(db, id, next, requested, now);
    assert db'.rows[id].completedAt == CompletedAt(db.rows[id].completedAt, next, requested, now);
    assert forall i :: i in db.rows && i != id ==> db'.rows[i] == db.rows[i];
  }

  /** While requests are consistent, a fish carries a completion time exactly when it is done, failed or timed out,
      whether by an update or by an abort. */
  lemma {:induction false} StampIffTerminal(actions: seq<Action>)
    requires IsRun(actions) && forall i :: 0 <= i < |actions| ==> ConsistentStamps(actions[i])
    ensures StampedWhenTerminal(After(actions))
  {
    if actions != [] {
      var init := actions[..|actions| - 1];
      StampIffTerminal(init);
      ReachableInvariant(init);
      StepKeepsStamps(After(init), actions[|actions| - 1]);
    }
  }

  // ---------- Abort ----------

  /** Right after an abort the swarm has no pending or running fish; the fish it failed carry one timestamp, all
      other rows are as before, and the swarm itself is failed. */
  lemma AbortClosesSwarm(db: Db, swarm: nat, now: int)
    ensures var db' := Abort(db, swarm, now);
            && db'.rows.Keys == db.rows.Keys
            && (forall i :: i in db'.rows && db'.rows[i].swarm == swarm ==> db'.rows[i].status !in {Pending, Running})
            && (forall i :: i in db.rows && Open(db.rows[i], swarm) ==>
                  db'.rows[i].status == Failed && db'.rows[i].completedAt == Some(now))
            && (forall i :: i in db.rows && !Open(db.rows[i], swarm) ==> db'.rows[i] == db.rows[i])
            && (swarm in db.swarms ==> db'.swarms == db.swarms[swarm := SwarmFailed])
            && Claimable(db'.rows, swarm, {}) == {}
  {
  }

  /** A paused fish survives the abort of its swarm and may run again afterwards. */
  lemma PausedSurvivesAbort(db: Db, swarm: nat, id: nat, now: int)
    requires id in db.rows && db.rows[id].swarm == swarm && db.rows[id].status == Paused
    ensures var db' := UpdateStatus(Abort(db, swarm, now), id, Running, None, now);
            id in db'.rows && db'.rows[id].status == Running
  {
    assert Abort(db, swarm, now).rows[id] == db.rows[id];
  }

  // ---------- Counts ----------

  function IdsWith(rows: map<nat, Run>, swarm: nat, status: Status): set<nat> {
    set i | i in rows && rows[i].swarm == swarm && rows[i].status == status
  }

  function IdsOf(rows: map<nat, Run>, swarm: nat): set<nat> {
    set i | i in rows && rows[i].swarm == swarm
  }

  datatype FishCounts = FishCounts(done: nat, failed: nat, timeout: nat, running: nat, pending: nat, paused: nat)

  function CountFishByStatus(rows: map<nat, Run>, swarm: nat): FishCounts {
    FishCounts(|IdsWith(rows, swarm, Done)|, |IdsWith(rows, swarm, Failed)|, |IdsWith(rows, swarm, TimedOut)|,
               |IdsWith(rows, swarm, Running)|, |IdsWith(rows, swarm, Pending)|, |IdsWith(rows, swarm, Paused)|)
  }

  function NumberOf(c: FishCounts, status: Status): nat {
    match status
    case Pending => c.pending
    case Running => c.running
    case Paused => c.paused
    case Done => c.done
    case Failed => c.failed
    case TimedOut => c.timeout
  }

  /** An accepted update moves its fish from one count to the other and leaves the rest as they are. */
  lemma UpdateMovesCount(db: Db, id: nat, next: Status, requested: Option<Option<int>>, now: int, status: Status)
    requires CheckUpdate(db, id, next) == None && db.rows[id].status != next
    ensures var before := NumberOf(CountFishByStatus(db.rows, db.rows[id].swarm), status);
            var after := NumberOf(CountFishByStatus(UpdateStatus(db, id, next, requested, now).rows, db.rows[id].swarm),
                                  status);
            after == before + (if status == next then 1 else 0) - (if status == db.rows[id].status then 1 else 0)
  {
    var swarm, rows' := db.rows[id].swarm, UpdateStatus(db, id, next, requested, now).rows;
    MovedIds(db.rows, rows', id, status);
    CountIsNumber(db.rows, swarm, status);
    CountIsNumber(rows', swarm, status);
  }

  lemma CountIsNumber(rows: map<nat, Run>, swarm: nat, status: Status)
    ensures NumberOf(CountFishByStatus(rows, swarm), status) == |IdsWith(rows, swarm, status)|
  {
  }

  lemma MovedIds(rows: map<nat, Run>, rows': map<nat, Run>, id: nat, status: Status)
    requires id in rows && id in rows' && rows' == rows[id := rows'[id]]
    requires rows'[id].swarm == rows[id].swarm && rows'[id].status != rows[id].status
    ensures |IdsWith(rows', rows[id].swarm, status)| ==
            |IdsWith(rows, rows[id].swarm, status)|
            + (if status == rows'[id].status then 1 else 0) - (if status == rows[id].status then 1 else 0)
  {
    var before, after := IdsWith(rows, rows[id].swarm, status), IdsWith(rows', rows[id].swarm, status);
    if status == rows'[id].status {
      assert after == before + {id};
    } else if status == rows[id].status {
      assert before == after + {id};
    } else {
      assert before == after;
    }
  }

  function Total(c: FishCounts): nat {
    c.done + c.failed + c.timeout + c.running + c.pending + c.paused
  }

  function IdsIn(rows: map<nat, Run>, swarm: nat, statuses: set<Status>): set<nat> {
    set i | i in rows && rows[i].swarm == swarm && rows[i].status in statuses
  }

  lemma AddStatus(rows: map<nat, Run>, swarm: nat, statuses: set<Status>, s: Status)
    requires s !in statuses
    ensures |IdsIn(rows, swarm, statuses + {s})| == |IdsIn(rows, swarm, statuses)| + |IdsWith(rows, swarm, s)|
  {
    assert IdsIn(rows, swarm, statuses + {s}) == IdsIn(rows, swarm, statuses) + IdsWith(rows, swarm, s);
    assert IdsIn(rows, swarm, statuses) !! IdsWith(rows, swarm, s);
  }

  /** The six counts always add up to the number of fish of the swarm. */
  lemma CountsAddUp(rows: map<nat, Run>, swarm: nat)
    ensures Total(CountFishByStatus(rows, swarm)) == |IdsOf(rows, swarm)|
  {
    var s0: set<Status> := {};
    assert IdsIn(rows, swarm, s0) == {};
    AddStatus(rows, swarm, s0, Done);
    AddStatus(rows, swarm, s0 + {Done}, Failed);
    AddStatus(rows, swarm, s0 + {Done} + {Failed}, TimedOut);
    AddStatus(rows, swarm, s0 + {Done} + {Failed} + {TimedOut}, Running);
    AddStatus(rows, swarm, s0 + {Done} + {Failed} + {TimedOut} + {Running}, Pending);
    AddStatus(rows, swarm, s0 + {Done} + {Failed} + {TimedOut} + {Running} + {Pending}, Paused);
    EveryStatusListed(rows, swarm);
  }

  lemma EveryStatusListed(rows: map<nat, Run>, swarm: nat)
    ensures IdsIn(rows, swarm, {} + {Done} + {Failed} + {TimedOut} + {Running} + {Pending} + {Paused})
            == IdsOf(rows, swarm)
  {
    forall i | i in IdsOf(rows, swarm)
      ensures rows[i].status in {} + {Done} + {Failed} + {TimedOut} + {Running} + {Pending} + {Paused}
    {
      match rows[i].status
      case Pending =>
      case Running =>
      case Paused =>
      case Done =>
      case Failed =>
      case TimedOut =>
    }
  }

  /** How many fish of the swarm a run has created. */
  function Creations(actions: seq<Action>, swarm: nat): nat {
    if actions == [] then 0
    else
      var init, a := actions[..|actions| - 1], actions[|actions| - 1];
      Creations(init, swarm) + if a.DoCreate? && a.swarm == swarm && After(actions) != After(init) then 1 else 0
  }

  /** At every point of every run the counts add up to the number of fish created: none is lost, none appears. */
  lemma {:induction false} CountsAreConserved(actions: seq<Action>, swarm: nat)
    requires IsRun(actions)
    ensures Total(CountFishByStatus(After(actions).rows, swarm)) == Creations(actions, swarm)
  {
    CountsAddUp(After(actions).rows, swarm);
    FishAreCreations(actions, swarm);
  }

  lemma {:induction false} FishAreCreations(actions: seq<Action>, swarm: nat)
    requires IsRun(actions)
    ensures |IdsOf(After(actions).rows, swarm)| == Creations(actions, swarm)
  {
    if actions == [] {
      assert IdsOf(After(actions).rows, swarm) == {};
    } else {
      var init := actions[..|actions| - 1];
      FishAreCreations(init, swarm);
      ReachableInvariant(init);
      StepCounts(After(init), actions[|actions| - 1], swarm);
    }
  }

  lemma StepCounts(db: Db, a: Action, swarm: nat)
    requires Invariant(db) && Enabled(db, a)
    ensures |IdsOf(Apply(db, a).rows, swarm)| ==
            |IdsOf(db.rows, swarm)| + if a.DoCreate? && a.swarm == swarm && Apply(db, a) != db then 1 else 0
  {
    if a.DoCreate? {
      CreateCounts(db, a, swarm);
    } else {
      EveryStepIsLegal(db, a);
      SameFish(db.rows, Apply(db, a).rows, swarm);
    }
  }

  lemma CreateCounts(db: Db, a: Action, swarm: nat)
    requires Invariant(db) && Enabled(db, a) && a.DoCreate?
    ensures |IdsOf(Apply(db, a).rows, swarm)| ==
            |IdsOf(db.rows, swarm)| + if a.swarm == swarm && Apply(db, a) != db then 1 else 0
  {
    if Apply(db, a) != db {
      assert db.nextId !in db.rows;
      NewFish(db.rows, db.nextId, Apply(db, a).rows[db.nextId], swarm);
    }
  }

  lemma NewFish(rows: map<nat, Run>, id: nat, run: Run, swarm: nat)
    requires id !in rows
    ensures |IdsOf(rows[id := run], swarm)| == |IdsOf(rows, swarm)| + if run.swarm == swarm then 1 else 0
  {
    if run.swarm == swarm {
      assert IdsOf(rows[id := run], swarm) == IdsOf(rows, swarm) + {id};
    } else {
      assert IdsOf(rows[id := run], swarm) == IdsOf(rows, swarm);
    }
  }

  lemma SameFish(rows: map<nat, Run>, rows': map<nat, Run>, swarm: nat)
    requires rows'.Keys == rows.Keys
    requires forall i :: i in rows ==> rows'[i].swarm == rows[i].swarm
    ensures IdsOf(rows', swarm) == IdsOf(rows, swarm)
  {
  }

  // ---------- The table ----------

  ghost predicate Smallest(rows: map<nat, Run>, ids: set<nat>, m: nat) {
    m in ids && forall i :: i in ids ==> FishOf(rows, m) <= FishOf(rows, i)
  }

  lemma SmallerOfTwo(rows: map<nat, Run>, ids: set<nat>, rest: set<nat>, x: nat, m: nat) returns (best: nat)
    requires ids == rest + {x} && Smallest(rows, rest, m)
    ensures Smallest(rows, ids, best)
  {
    best := if FishOf(rows, x) <= FishOf(rows, m) then x else m;
  }

  lemma SmallestFish(rows: map<nat, Run>, ids: set<nat>) returns (m: nat)
    requires ids != {}
    ensures Smallest(rows, ids, m)
    decreases |ids|
  {
    var x :| x in ids;
    var rest := ids - {x};
    if rest == {} {
      assert ids == {x};
      m := x;
    } else {
      m := SmallestFish(rows, rest);
      m := SmallerOfTwo(rows, ids, rest, x, m);
    }
  }

  /** In the middle of picking: everything picked comes before everything left, and is listed in order. */
  ghost predicate Picking(rows: map<nat, Run>, claimable: set<nat>, order: seq<nat>, picked: set<nat>) {
    && picked <= claimable && Lists(order, picked) && |order| == |picked|
    && (forall i, j :: i in picked && j in claimable && j !in picked ==> FishOf(rows, i) <= FishOf(rows, j))
    && (forall i, j :: 0 <= i < j < |order| ==> FishOf(rows, order[i]) <= FishOf(rows, order[j]))
  }

  lemma PickNext(rows: map<nat, Run>, claimable: set<nat>, order: seq<nat>, picked: set<nat>, m: nat)
    requires Picking(rows, claimable, order, picked) && m in claimable && m !in picked
    requires forall j :: j in claimable && j !in picked ==> FishOf(rows, m) <= FishOf(rows, j)
    ensures Picking(rows, claimable, order + [m], picked + {m})
  {
    ListsSnoc(order, picked, m);
    var next := order + [m];
    forall i, j | 0 <= i < j < |next| ensures FishOf(rows, next[i]) <= FishOf(rows, next[j]) {
      if j == |order| {
        assert next[i] in order;
      }
    }
  }

  /** The claimable fish with the smallest indices, up to the limit. */
  method PickPending(rows: map<nat, Run>, swarm: nat, limit: int, locked: set<nat>)
    returns (order: seq<nat>, ghost picked: set<nat>)
    ensures IsPick(rows, swarm, limit, locked, picked) && Lists(order, picked)
    ensures forall i, j :: 0 <= i < j < |order| ==> FishOf(rows, order[i]) <= FishOf(rows, order[j])
  {
    order, picked := [], {};
    var rest := Claimable(rows, swarm, locked);
    ghost var claimable := rest;
    while |order| < limit && rest != {}
      invariant rest == claimable - picked && Picking(rows, claimable, order, picked)
      invariant if limit < 1 then order == [] else |order| <= limit
      decreases |rest|
    {
      ghost var smallest := SmallestFish(rows, rest);
      var m :| m in rest && forall i :: i in rest ==> FishOf(rows, m) <= FishOf(rows, i);
      assert m in claimable && m !in picked;
      assert forall j :: j in claimable && j !in picked ==> j in rest;
      PickNext(rows, claimable, order, picked, m);
      order, picked, rest := order + [m], picked + {m}, rest - {m};
    }
    PickedCount(picked, claimable, rest);
  }

  /** The claim's update: every picked row runs. */
  method RunPicked(rows: map<nat, Run>, order: seq<nat>) returns (rows': map<nat, Run>)
    requires forall i :: i in order ==> i in rows
    ensures rows' == WithStatus(rows, (set i | i in order), Running)
  {
    rows' := rows;
    for n := 0 to |order|
      invariant rows'.Keys == rows.Keys
      invariant forall i :: i in rows ==> rows'[i] == if i in order[..n] then rows[i].(status := Running) else rows[i]
    {
      var id := order[n];
      assert id in order;
      rows' := rows'[id := rows'[id].(status := Running)];
    }
    assert order[..|order|] == order;
  }

  function Closed(r: Run, now: int): Run {
    r.(status := Failed, completedAt := Some(now))
  }

  /** In the middle of the second update of an abort: the `open` rows still wait. */
  ghost predicate PartlyClosed(before: map<nat, Run>, rows: map<nat, Run>, swarm: nat, open: set<nat>, now: int) {
    && rows.Keys == before.Keys
    && (forall i :: i in open ==> i in before && Open(before[i], swarm))
    && forall i :: i in before ==>
         rows[i] == if Open(before[i], swarm) && i !in open then Closed(before[i], now) else before[i]
  }

  /** The second update of an abort: every open row of the swarm is failed. */
  method CloseOpenRows(rows: map<nat, Run>, swarm: nat, now: int) returns (rows': map<nat, Run>)
    ensures PartlyClosed(rows, rows', swarm, {}, now)
  {
    rows' := rows;
    var open := set i | i in rows && Open(rows[i], swarm);
    while open != {}
      invariant PartlyClosed(rows, rows', swarm, open, now)
      decreases |open|
    {
      var i :| i in open;
      rows' := rows'[i := rows'[i].(status := Failed, completedAt := Some(now))];
      open := open - {i};
    }
  }

  lemma ClosedIsAborted(db: Db, swarm: nat, now: int, rows: map<nat, Run>)
    requires PartlyClosed(db.rows, rows, swarm, {}, now)
    ensures rows == Abort(db, swarm, now).rows
  {
  }

  class SimRunTable {
    var db: Db

    constructor ()
      ensures db == EMPTY_DB
    {
      db := EMPTY_DB;
    }

    method Insert(swarm: nat, fishIndex: int, status: Option<Status>) returns (id: Option<nat>)
      requires Invariant(db)
      modifies this
      ensures db == Create(old(db), swarm, fishIndex, status) && Invariant(db)
      ensures id == if db == old(db) then None else Some(old(db).nextId)
      ensures id.Some? <==> swarm in old(db).swarms
                            && forall i :: i in old(db).rows ==>
                                 old(db).rows[i].swarm != swarm || old(db).rows[i].fishIndex != fishIndex
      ensures id.Some? ==>
                db.rows == old(db).rows[
                             id.value := Run(swarm, fishIndex, if status.Some? then status.value else Pending, None)]
    {
      StepKeepsInvariant(db, DoCreate(swarm, fishIndex, status));
      if swarm !in db.swarms || FishTaken(db.rows, swarm, fishIndex) {
        return None;
      }
      id := Some(db.nextId);
      var initial := if status.Some? then status.value else Pending;
      db := db.(rows := db.rows[db.nextId := Run(swarm, fishIndex, initial, None)], nextId := db.nextId + 1);
    }

    /** Sets the picked fish running and hands them out. */
    method ClaimPendingFishForSwarm(swarm: nat, limit: int, locked: set<nat>) returns (order: seq<nat>)
      requires Invariant(db)
      modifies this
      ensures Enabled(old(db), DoClaim(swarm, limit, locked, order))
      ensures db == Claim(old(db), order) && Invariant(db)
      ensures db.rows.Keys == old(db).rows.Keys && db.handedOut == old(db).handedOut + order
      ensures forall i :: i in db.rows ==>
                db.rows[i] == if i in order then old(db).rows[i].(status := Running) else old(db).rows[i]
    {
      ghost var picked;
      order, picked := PickPending(db.rows, swarm, limit, locked);
      ClaimedWerePending(db, DoClaim(swarm, limit, locked, order));
      StepKeepsInvariant(db, DoClaim(swarm, limit, locked, order));
      var rows := RunPicked(db.rows, order);
      db := db.(rows := rows, handedOut := db.handedOut + order);
    }

    method GuardedUpdate(id: nat, next: Status, requested: Option<Option<int>>, now: int)
      returns (error: Option<UpdateError>)
      requires Invariant(db)
      modifies this
      ensures db == UpdateStatus(old(db), id, next, requested, now) && Invariant(db)
      ensures error == CheckUpdate(old(db), id, next) && (error.Some? ==> db == old(db))
    {
      StepKeepsInvariant(db, DoUpdate(id, next, requested, now));
      if id !in db.rows {
        return Some(NotFound);
      }
      var run := db.rows[id];
      if !IsLegalRunTransition(run.status, next) {
        return Some(Conflict(run.status, next));
      }
      error := None;
      var stamp := CompletedAt(run.completedAt, next, requested, now);
      db := db.(rows := db.rows[id := run.(status := next, completedAt := stamp)]);
    }

    /** One transaction: the swarm row first, then every open row of the swarm. */
    method AbortSwarm(swarm: nat, now: int)
      requires Invariant(db)
      modifies this
      ensures db == Abort(old(db), swarm, now) && Invariant(db)
    {
      StepKeepsInvariant(db, DoAbort(swarm, now));
      ghost var before := db;
      if swarm in db.swarms {
        db := db.(swarms := db.swarms[swarm := SwarmFailed]);
      }
      var rows := CloseOpenRows(db.rows, swarm, now);
      ClosedIsAborted(before, swarm, now, rows);
      db := db.(rows := rows);
    }
  }

  lemma ListsSnoc(order: seq<nat>, picked: set<nat>, m: nat)
    requires Lists(order, picked) && m !in picked
    ensures Lists(order + [m], picked + {m})
  {
  }

  lemma PickedCount(picked: set<nat>, claimable: set<nat>, rest: set<nat>)
    requires picked <= claimable && rest == claimable - picked
    ensures |claimable| == |picked| + |rest|
  {
    assert claimable == picked + rest;
  }
}
