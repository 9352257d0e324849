/** The status update as the controller performs it: it reads and checks the run in one statement and writes the status
    in another. Other steps may come in between. What then still holds depends on which statuses clients ask for. */
module SplitStatusUpdate {
  import opened Collections
  import opened SimRunLifecycle

  datatype Request = Request(id: nat, next: Status, requested: Option<Option<int>>, now: int)

  /** `approved` lists the requests that passed their check and have not been written yet. */
  datatype Service = Service(db: Db, approved: seq<Request>)

  datatype Step = Atomic(a: Action) | Read(r: Request) | Write(k: nat)

  const EMPTY_SERVICE := Service(EMPTY_DB, [])

  /** The second statement: it writes whatever the earlier read allowed. */
  function WriteStatus(db: Db, r: Request): Db {
    if r.id !in db.rows then db
    else
      var row := db.rows[r.id];
      var stamp := CompletedAt(row.completedAt, r.next, r.requested, r.now);
      db.(rows := db.rows[r.id := row.(status := r.next, completedAt := stamp)])
  }

  /** The guarded update of the atomic model is not a step here. */
  ghost predicate CanTake(s: Service, t: Step) {
    match t
    case Atomic(a) => !a.DoUpdate? && Enabled(s.db, a)
    case Read(_) => true
    case Write(k) => k < |s.approved|
  }

  function Take(s: Service, t: Step): Service {
    match t
    case Atomic(a) => s.(db := Apply(s.db, a))
    case Read(r) => if CheckUpdate(s.db, r.id, r.next).None? then s.(approved := s.approved + [r]) else s
    case Write(k) =>
      if k < |s.approved| then Service(WriteStatus(s.db, s.approved[k]), s.approved[..k] + s.approved[k + 1..]) else s
  }

  function Served(steps: seq<Step>): Service {
    if steps == [] then EMPTY_SERVICE else Take(Served(steps[..|steps| - 1]), steps[|steps| - 1])
  }

  /** Any interleaving of creations, claims, aborts, reads and writes. */
  ghost predicate IsService(steps: seq<Step>) {
    steps == [] ||
    (IsService(steps[..|steps| - 1]) && CanTake(Served(steps[..|steps| - 1]), steps[|steps| - 1]))
  }

  /** Every request asks for one of these statuses: a condition on the request bodies alone. */
  ghost predicate Asks(steps: seq<Step>, allowed: set<Status>) {
    forall i :: 0 <= i < |steps| && steps[i].Read? ==> steps[i].r.next in allowed
  }

  lemma ServedSnoc(steps: seq<Step>, t: Step)
    ensures Served(steps + [t]) == Take(Served(steps), t)
    ensures IsService(steps) && CanTake(Served(steps), t) ==> IsService(steps + [t])
  {
    assert (steps + [t])[..|steps|] == steps;
  }

  // ---------- Claims ----------

  ghost predicate ApprovedWithin(s: Service, allowed: set<Status>) {
    forall r :: r in s.approved ==> r.next in allowed && r.id in s.db.rows
  }

  ghost predicate SafeService(s: Service, allowed: set<Status>) {
    Invariant(s.db) && ApprovedWithin(s, allowed)
  }

  lemma WriteKeepsInvariant(db: Db, r: Request)
    requires Invariant(db) && r.next != Pending
    ensures Invariant(WriteStatus(db, r))
  {
  }

  lemma StepKeepsSafe(s: Service, t: Step, allowed: set<Status>)
    requires SafeService(s, allowed) && CanTake(s, t) && Pending !in allowed
    requires t.Read? ==> t.r.next in allowed
    ensures SafeService(Take(s, t), allowed)
  {
    match t
    case Atomic(a) =>
      StepKeepsInvariant(s.db, a);
      EveryStepIsLegal(s.db, a);
    case Read(r) =>
    case Write(k) =>
      assert s.approved[k] in s.approved;
      WriteKeepsInvariant(s.db, s.approved[k]);
  }

  lemma {:induction false} ServedIsSafe(steps: seq<Step>, allowed: set<Status>)
    requires IsService(steps) && Asks(steps, allowed) && Pending !in allowed
    ensures SafeService(Served(steps), allowed)
  {
    if steps != [] {
      var init := steps[..|steps| - 1];
      ServedIsSafe(init, allowed);
      StepKeepsSafe(Served(init), steps[|steps| - 1], allowed);
    }
  }

  function OneFish(status: Status): Db {
    Create(CreateSwarm(EMPTY_DB, 7), 7, 0, Some(status))
  }

  /** A swarm with one fish, and a request approved for it. */
  function Approval(status: Status, next: Status): seq<Step> {
    [Atomic(DoCreateSwarm(7)), Atomic(DoCreate(7, 0, Some(status))), Read(Request(0, next, None, 5))]
  }

  lemma ApprovalServed(status: Status, next: Status)
    requires IsLegalRunTransition(status, next)
    ensures IsService(Approval(status, next)) && Asks(Approval(status, next), {next})
    ensures Served(Approval(status, next)) == Service(OneFish(status), [Request(0, next, None, 5)])
    ensures OneFish(status).rows == map[0 := Run(7, 0, status, None)]
  {
    var one := [Atomic(DoCreateSwarm(7))];
    var two := one + [Atomic(DoCreate(7, 0, Some(status)))];
    ServedSnoc([], Atomic(DoCreateSwarm(7)));
    assert [] + one == one;
    ServedSnoc(one, Atomic(DoCreate(7, 0, Some(status))));
    ServedSnoc(two, Read(Request(0, next, None, 5)));
    assert Approval(status, next) == two + [Read(Request(0, next, None, 5))];
  }

  /** The only pending fish can be claimed. */
  lemma ClaimOne(db: Db)
    requires db.rows == map[0 := Run(7, 0, Pending, None)]
    ensures Enabled(db, DoClaim(7, 1, {}, [0]))
  {
    assert Claimable(db.rows, 7, {}) == {0};
    assert IsPick(db.rows, 7, 1, {}, {0}) && Lists([0], {0});
  }

  /** The next step of a known service. */
  lemma ServedNext(steps: seq<Step>, s: Service, t: Step, s': Service, allowed: set<Status>)
    requires IsService(steps) && Served(steps) == s && CanTake(s, t) && Take(s, t) == s'
    requires Asks(steps, allowed) && !t.Read?
    ensures IsService(steps + [t]) && Served(steps + [t]) == s' && Asks(steps + [t], allowed)
  {
    ServedSnoc(steps, t);
  }

  function Row(status: Status, stamp: Option<int>): map<nat, Run> {
    map[0 := Run(7, 0, status, stamp)]
  }

  /** A client is allowed to leave a pending fish pending; the fish is claimed; the client writes; and the fish is
      claimed again. */
  lemma PendingReclaims() returns (steps: seq<Step>)
    ensures IsService(steps) && Asks(steps, {Pending}) && Served(steps).db.handedOut == [0, 0]
  {
    var claim, request := DoClaim(7, 1, {}, [0]), Request(0, Pending, None, 5);
    var s0 := Service(OneFish(Pending), [request]);
    ApprovalServed(Pending, Pending);
    ClaimOne(s0.db);
    var s1 := Service(s0.db.(rows := Row(Running, None), handedOut := [0]), [request]);
    assert Claim(s0.db, [0]).rows == Row(Running, None);
    steps := Approval(Pending, Pending);
    ServedNext(steps, s0, Atomic(claim), s1, {Pending});
    steps := steps + [Atomic(claim)];
    var s2 := Service(s1.db.(rows := Row(Pending, None)), []);
    assert WriteStatus(s1.db, request).rows == Row(Pending, None);
    ServedNext(steps, s1, Write(0), s2, {Pending});
    steps := steps + [Write(0)];
    ClaimOne(s2.db);
    ServedNext(steps, s2, Atomic(claim), s2.(db := Claim(s2.db, [0])), {Pending});
    steps := steps + [Atomic(claim)];
  }

  lemma AsksMore(steps: seq<Step>, few: set<Status>, many: set<Status>)
    requires Asks(steps, few) && few <= many
    ensures Asks(steps, many)
  {
  }

  /** No fish is ever handed out twice, whatever comes between the reads and the writes, if and only if no request asks
      for the pending status. */
  lemma SingleClaimsIff(allowed: set<Status>)
    ensures (forall steps :: IsService(steps) && Asks(steps, allowed) ==> NoDuplicates(Served(steps).db.handedOut))
       <==> Pending !in allowed
  {
    if Pending !in allowed {
      forall steps | IsService(steps) && Asks(steps, allowed) ensures NoDuplicates(Served(steps).db.handedOut) {
        ServedIsSafe(steps, allowed);
      }
    } else {
      var steps := PendingReclaims();
      AsksMore(steps, {Pending}, allowed);
      var handedOut := Served(steps).db.handedOut;
      assert handedOut[0] == handedOut[1];
    }
  }

  // ---------- Finished fish ----------

  /** Every step moves every fish along the status table. */
  ghost predicate LegalService(steps: seq<Step>) {
    steps == [] ||
    (LegalService(steps[..|steps| - 1]) && LegalStep(Served(steps[..|steps| - 1]).db, Served(steps).db))
  }

  ghost predicate Keeps(earlier: Db, later: Db) {
    forall i :: i in earlier.rows && Terminal(earlier.rows[i].status) ==>
      i in later.rows && later.rows[i].status == earlier.rows[i].status
  }

  /** A fish that is done, failed or timed out at some point of the run has that status at its end. */
  ghost predicate FinishedIsFinal(steps: seq<Step>) {
    forall earlier :: earlier <= steps ==> Keeps(Served(earlier).db, Served(steps).db)
  }

  /** Approved requests fail a fish that is neither done nor timed out. */
  ghost predicate FailingService(s: Service) {
    && SafeService(s, {Failed})
    && forall r :: r in s.approved ==> r.id in s.db.rows && s.db.rows[r.id].status !in {Done, TimedOut}
  }

  lemma AtomicKeepsFailing(s: Service, a: Action)
    requires FailingService(s) && !a.DoUpdate? && Enabled(s.db, a)
    ensures forall r :: r in s.approved ==>
              r.id in Apply(s.db, a).rows && Apply(s.db, a).rows[r.id].status !in {Done, TimedOut}
  {
    EveryStepIsLegal(s.db, a);
    if a.DoClaim? {
      ClaimedWerePending(s.db, a);
    }
  }

  lemma FailingWriteIsLegal(db: Db, r: Request)
    requires r.next == Failed && r.id in db.rows && db.rows[r.id].status !in {Done, TimedOut}
    ensures LegalStep(db, WriteStatus(db, r))
  {
  }

  lemma StepKeepsFailing(s: Service, t: Step)
    requires FailingService(s) && CanTake(s, t) && (t.Read? ==> t.r.next == Failed)
    ensures FailingService(Take(s, t)) && LegalStep(s.db, Take(s, t).db)
  {
    StepKeepsSafe(s, t, {Failed});
    match t
    case Atomic(a) =>
      EveryStepIsLegal(s.db, a);
      AtomicKeepsFailing(s, a);
    case Read(r) =>
    case Write(k) =>
      assert s.approved[k] in s.approved;
      FailingWriteIsLegal(s.db, s.approved[k]);
  }

  lemma {:induction false} ServedIsFailing(steps: seq<Step>)
    requires IsService(steps) && Asks(steps, {Failed})
    ensures FailingService(Served(steps)) && LegalService(steps)
  {
    if steps != [] {
      var init := steps[..|steps| - 1];
      ServedIsFailing(init);
      StepKeepsFailing(Served(init), steps[|steps| - 1]);
    }
  }

  lemma {:induction false} LegalKeeps(earlier: seq<Step>, steps: seq<Step>)
    requires LegalService(steps) && earlier <= steps
    ensures Keeps(Served(earlier).db, Served(steps).db)
    decreases |steps|
  {
    if |earlier| < |steps| {
      LegalKeeps(earlier, steps[..|steps| - 1]);
    } else {
      assert earlier == steps;
    }
  }

  lemma LegalIsFinal(steps: seq<Step>)
    requires LegalService(steps)
    ensures FinishedIsFinal(steps)
  {
    forall earlier | earlier <= steps ensures Keeps(Served(earlier).db, Served(steps).db) {
      LegalKeeps(earlier, steps);
    }
  }

  lemma AbortedRow(status: Status)
    requires status == Pending || status == Running
    ensures Abort(OneFish(status), 7, 9).rows == Row(Failed, Some(9))
  {
    assert OneFish(status).rows == Row(status, None);
  }

  lemma OverwrittenRow(db: Db, r: Request)
    requires db.rows == Row(Failed, Some(9)) && r.id == 0 && r.next != Failed
    ensures !Keeps(db, WriteStatus(db, r))
  {
    assert WriteStatus(db, r).rows[0].status == r.next;
  }

  lemma NotFinal(earlier: seq<Step>, steps: seq<Step>)
    requires earlier <= steps && !Keeps(Served(earlier).db, Served(steps).db)
    ensures !FinishedIsFinal(steps)
  {
  }

  /** A client is allowed to give a fish another status than failed; the swarm is aborted; and the client writes. */
  lemma OverwritesFailed(next: Status) returns (steps: seq<Step>)
    requires next != Failed
    ensures IsService(steps) && Asks(steps, {next}) && !FinishedIsFinal(steps)
  {
    var status := if next == Pending then Pending else Running;
    var abort, request := DoAbort(7, 9), Request(0, next, None, 5);
    var s0 := Service(OneFish(status), [request]);
    ApprovalServed(status, next);
    AbortedRow(status);
    var s1 := Service(Abort(s0.db, 7, 9), [request]);
    var aborted := Approval(status, next) + [Atomic(abort)];
    ServedNext(Approval(status, next), s0, Atomic(abort), s1, {next});
    ServedNext(aborted, s1, Write(0), Service(WriteStatus(s1.db, request), []), {next});
    OverwrittenRow(s1.db, request);
    steps := aborted + [Write(0)];
    NotFinal(aborted, steps);
  }

  /** Finished fish keep their status, and every step stays on the status table, if and only if requests ask for nothing
      but the failed status. */
  lemma FinishedIsFinalIff(allowed: set<Status>)
    ensures (forall steps :: IsService(steps) && Asks(steps, allowed) ==> FinishedIsFinal(steps))
            <==> allowed <= {Failed}
    ensures (forall steps :: IsService(steps) && Asks(steps, allowed) ==> LegalService(steps)) <==> allowed <= {Failed}
  {
    if allowed <= {Failed} {
      forall steps | IsService(steps) && Asks(steps, allowed) ensures FinishedIsFinal(steps) && LegalService(steps) {
        AsksMore(steps, allowed, {Failed});
        ServedIsFailing(steps);
        LegalIsFinal(steps);
      }
    } else {
      var next :| next in allowed && next != Failed;
      var steps := OverwritesFailed(next);
      AsksMore(steps, {next}, allowed);
      if LegalService(steps) {
        LegalIsFinal(steps);
      }
    }
  }
}
