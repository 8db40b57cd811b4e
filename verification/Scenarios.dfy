/** Runs from an empty portal that reach what the service calls alone would not. */
module Scenarios {
  import opened Outcomes
  import opened Calendar
  import opened Lifecycle
  import opened LifecycleRuns
  import Scope

  const DAY := Date(2030, 1, 1)
  const NOW := Instant(Date(2025, 1, 1), 0)

  /** One user, 0, and one published dataset, 1. */
  function Portal(): Db {
    Db(map[0 := 0], map[1 := Published], map[], map[], map[], [], 2)
  }

  function Asked(): Db {
    Portal().(requests := map[2 := Request(0, 1, None, Pending)], nextId := 3)
  }

  function GrantUntil(status: GrantStatus): Grant {
    Grant(0, 1, 2, Instant(DAY, 0), status, None)
  }

  const APPROVAL := EApprove(2, None, Custom, Some(DAY), NOW)

  lemma PortalIsSound()
    ensures Inv(Portal()) && Sound(APPROVAL)
  {
    var users: set<Id> := {0};
    EmptyPortalSatisfiesInv(users, map[1 := Published], 2);
    assert map[0 := 0] == map u | u in users :: 0;
    hide Inv;
    assert Date(2030, 1, 1).Valid() && Date(2025, 1, 1).Valid();
  }

  lemma Asking()
    ensures Inv(Portal()) && ExpiriesValid(Portal()) && Step(Portal(), ECreateRequest(0, 1, None)) == Asked() && Inv(Asked())
  {
    PortalIsSound();
    hide Inv;
    KnownValid(Portal());
    assert Step(Portal(), ECreateRequest(0, 1, None)) == Asked();
    StepKeepsInv(Portal(), ECreateRequest(0, 1, None));
  }

  // ---------------------------------------------------------------- a worker that starts late

  function Granted(): Db {
    Asked().(users := map[0 := 1], requests := map[2 := Request(0, 1, None, Approved)], grants := map[3 := GrantUntil(Active)], nextId := 4)
  }

  function Extracting(): Db {
    Granted().(extractions := map[4 := Extraction(3, Scope.NO_CRITERIA, Queued)], nextId := 5)
  }

  function RevokedMeanwhile(): Db {
    Extracting().(users := map[0 := 0], grants := map[3 := GrantUntil(Revoked)],
                  extractions := map[4 := Extraction(3, Scope.NO_CRITERIA, Failed)])
  }

  lemma Granting()
    ensures ExpiriesValid(Asked()) && Sound(APPROVAL) && Step(Asked(), APPROVAL) == Granted()
  {
    PortalIsSound();
    assert ExpiriesValid(Asked());
    assert ComputeExpiry(NOW, Custom, Some(DAY)) == Ok(Instant(DAY, 0));
    hide ComputeExpiry, Inv;
    assert Step(Asked(), APPROVAL).grants == Granted().grants;
  }

  lemma Revoking()
    ensures RevokeGrant(Extracting(), 3) == Ok(RevokedMeanwhile())
  {
    assert OfUser(Extracting().grants, {3}, 0) == {3};
    assert WithDecrements(Extracting().users, Extracting().grants, {3}) == map[0 := 0];
    assert WithRevoked(Extracting().grants, {3}) == map[3 := GrantUntil(Revoked)];
    assert WithFailed(Extracting().extractions, {3}) == map[4 := Extraction(3, Scope.NO_CRITERIA, Failed)];
  }

  function Revived(): Db {
    RevokedMeanwhile().(extractions := map[4 := Extraction(3, Scope.NO_CRITERIA, Processing)])
  }

  const LATE_WORKER: seq<Event> :=
    [ECreateRequest(0, 1, None), APPROVAL, EExtract(0, 3, Scope.NO_CRITERIA, NOW, None), ERevoke(3), EWorkerStart(4)]

  lemma LateWorkerSteps()
    ensures ExpiriesValid(Granted()) && ExpiriesValid(Extracting()) && ExpiriesValid(RevokedMeanwhile())
    ensures Step(Granted(), LATE_WORKER[2]) == Extracting()
    ensures Step(Extracting(), LATE_WORKER[3]) == RevokedMeanwhile()
    ensures Step(RevokedMeanwhile(), LATE_WORKER[4]) == Revived()
  {
    NoScopeAllowsAll();
    Revoking();
    hide Scope.ValidateScope, Revocation;
    assert ExpiriesValid(Granted()) && ExpiriesValid(Extracting()) && ExpiriesValid(RevokedMeanwhile());
  }

  lemma LateWorkerIsSound()
    ensures AllSound(LATE_WORKER)
  {
    PortalIsSound();
    forall i | 0 <= i < |LATE_WORKER| ensures Sound(LATE_WORKER[i]) {
      if i == 1 { assert LATE_WORKER[i] == APPROVAL; }
    }
  }

  /** Asked for, approved, queued for extraction, revoked; and then the worker starts: PROCESSING for a revoked grant. */
  lemma RevokedAndProcessing()
    ensures Inv(Portal()) && AllSound(LATE_WORKER) && Run(Portal(), LATE_WORKER) == Revived()
    ensures Revived().grants[3].status == Revoked && Revived().extractions[4].status == Processing
    ensures !NoneInFlight(Revived().grants, Revived().extractions)
  {
    LateWorkerIsSound();
    Asking();
    Granting();
    LateWorkerSteps();
    assert Revived().extractions[4].InFlight();
    hide Inv, Step, ExpiriesValid, NoneInFlight;
    FiveSteps(Portal(), LATE_WORKER, Asked(), Granted(), Extracting(), RevokedMeanwhile(), Revived());
  }

  lemma NoScopeAllowsAll()
    ensures Scope.ValidateScope(Scope.NO_CRITERIA, None).Ok?
  {
  }

  // ---------------------------------------------------------------- a grant on an archived dataset

  function ArchivedAsked(): Db {
    Asked().(datasets := map[1 := Archived])
  }

  function ArchivedGranted(): Db {
    Granted().(datasets := map[1 := Archived])
  }

  const AFTER_ARCHIVING: seq<Event> := [ECreateRequest(0, 1, None), EArchive(1), APPROVAL]

  lemma Archiving()
    ensures ExpiriesValid(Asked()) && Step(Asked(), EArchive(1)) == ArchivedAsked()
  {
    NothingRevoked(map[0 := 0]);
    assert ActiveOn(Asked().grants, 1) == {};
    hide WithDecrements, WithRevoked, WithFailed;
  }

  lemma NothingRevoked(users: map<Id, int>)
    ensures WithDecrements(users, map[], {}) == users && WithRevoked(map[], {}) == map[] && WithFailed(map[], {}) == map[]
  {
    forall u ensures OfUser(map[], {}, u) == {} {}
  }

  lemma ApprovingWhenArchived()
    ensures ExpiriesValid(ArchivedAsked()) && Sound(APPROVAL) && Step(ArchivedAsked(), APPROVAL) == ArchivedGranted()
  {
    PortalIsSound();
    assert ComputeExpiry(NOW, Custom, Some(DAY)) == Ok(Instant(DAY, 0));
    hide Inv, ComputeExpiry;
  }

  /** Asked for, archived, approved: an ARCHIVED dataset with an ACTIVE grant. */
  lemma ArchivedAndGranted()
    ensures Inv(Portal()) && AllSound(AFTER_ARCHIVING) && Run(Portal(), AFTER_ARCHIVING) == ArchivedGranted()
    ensures ArchivedGranted().datasets[1] == Archived && ActiveOn(ArchivedGranted().grants, 1) == {3}
  {
    Archiving();
    ApprovingWhenArchived();
    Asking();
    hide Inv, Step, ExpiriesValid;
    forall i | 0 <= i < |AFTER_ARCHIVING| ensures Sound(AFTER_ARCHIVING[i]) {
      if i == 2 { assert AFTER_ARCHIVING[i] == APPROVAL; }
    }
    ThreeSteps(Portal(), AFTER_ARCHIVING, Asked(), ArchivedAsked(), ArchivedGranted());
  }

  lemma ThreeSteps(a: Db, events: seq<Event>, b: Db, c: Db, d: Db)
    requires Inv(a) && |events| == 3 && AllSound(events)
    requires ExpiriesValid(a) && ExpiriesValid(b) && ExpiriesValid(c)
    requires Step(a, events[0]) == b && Step(b, events[1]) == c && Step(c, events[2]) == d
    ensures Run(a, events) == d
  {
    hide Inv, Step, Sound, ExpiriesValid;
    assert events[..2][..1] == events[..1] && events[..1][..0] == [];
    assert Run(a, []) == a;
    assert Run(a, events[..1]) == b;
    assert Run(a, events[..2]) == c;
  }

  lemma FiveSteps(a: Db, events: seq<Event>, b: Db, c: Db, d: Db, e: Db, f: Db)
    requires Inv(a) && |events| == 5 && AllSound(events)
    requires ExpiriesValid(a) && ExpiriesValid(b) && ExpiriesValid(c) && ExpiriesValid(d) && ExpiriesValid(e)
    requires Step(a, events[0]) == b && Step(b, events[1]) == c && Step(c, events[2]) == d && Step(d, events[3]) == e && Step(e, events[4]) == f
    ensures Run(a, events) == f
  {
    hide Inv, Step, Sound, ExpiriesValid;
    assert events[..4][..3] == events[..3] && events[..3][..2] == events[..2] && events[..2][..1] == events[..1] && events[..1][..0] == [];
    assert Run(a, []) == a;
    assert Run(a, events[..1]) == b;
    assert Run(a, events[..2]) == c;
    assert Run(a, events[..3]) == d;
    assert Run(a, events[..4]) == e;
  }
}
